/**
 * Enrolling a student by year-level and section NAME. `store` resolves the
 * year-level label to the first matching year level, then the section name
 * among that year level's sections, and creates the enrollment only when both
 * resolve. `update` overwrites the two name columns as typed, and `destroy`
 * deletes by key.
 */
module EnrollStudentController {
  import opened Wrappers
  import opened Seqs
  import opened Tables
  import opened ValidationRules
  import opened Schema

  /** The form `store` receives. */
  datatype EnrollRequest = EnrollRequest(userId: int, yearLevel: string, section: string)

  /** `store`'s rules: the user exists, and both names are required strings of at most 255 characters. */
  predicate ValidEnroll(users: set<int>, req: EnrollRequest) {
    req.userId in users && ShortText(req.yearLevel) && ShortText(req.section)
  }

  /** `YearLevel::where('year_level', $name)->first()`: the position of the first year level with exactly that label. */
  function FindYearLevel(yearLevels: Table<YearLevel>, name: string): (r: Option<nat>)
    ensures r.Some? ==> r.value < |yearLevels.rows| && yearLevels.rows[r.value].val.yearLevel == name
    ensures r.Some? ==> forall j :: 0 <= j < r.value ==> yearLevels.rows[j].val.yearLevel != name
    ensures r.None? <==> forall j :: 0 <= j < |yearLevels.rows| ==> yearLevels.rows[j].val.yearLevel != name
  {
    FirstIndex(yearLevels.rows, (y: Row<YearLevel>) => y.val.yearLevel == name)
  }

  /** `Section::where('section_name', $name)->where('year_level_id', $id)->first()`. */
  function FindSection(sections: Table<Section>, name: string, yearLevelId: int): (r: Option<nat>)
    ensures r.Some? ==> r.value < |sections.rows| && sections.rows[r.value].val == Section(name, yearLevelId)
    ensures r.Some? ==> forall j :: 0 <= j < r.value ==> sections.rows[j].val != Section(name, yearLevelId)
    ensures r.None? <==> forall j :: 0 <= j < |sections.rows| ==> sections.rows[j].val != Section(name, yearLevelId)
  {
    FirstIndex(sections.rows, (s: Row<Section>) => s.val.sectionName == name && s.val.yearLevelId == yearLevelId)
  }

  /** What resolving the two names gives: both keys, or the lookup that failed. */
  datatype Resolution = Resolved(yearLevelId: int, sectionId: int) | NoYearLevel | NoSection

  /** Resolve a year-level label and a section name, as `store` does (lines 51-54). */
  function Resolve(yearLevels: Table<YearLevel>, sections: Table<Section>, yearLevel: string, section: string): (r: Resolution)
    ensures r.Resolved? ==> Row(r.yearLevelId, YearLevel(yearLevel)) in yearLevels.rows
    ensures r.Resolved? ==> Row(r.sectionId, Section(section, r.yearLevelId)) in sections.rows
  {
    match FindYearLevel(yearLevels, yearLevel)
    case None => NoYearLevel
    case Some(i) =>
      var yearLevelId := yearLevels.rows[i].id;
      match FindSection(sections, section, yearLevelId)
      case None => NoSection
      case Some(k) => Resolved(yearLevelId, sections.rows[k].id)
  }

  /**
   * When resolution fails and why: the label matches no year level, or no
   * section of that name belongs to the FIRST year level with that label. So
   * a section of the same name under another year level is never chosen.
   */
  lemma ResolveOutcomes(yearLevels: Table<YearLevel>, sections: Table<Section>, yearLevel: string, section: string)
    ensures var r := Resolve(yearLevels, sections, yearLevel, section);
      r.NoYearLevel? <==> forall j :: 0 <= j < |yearLevels.rows| ==> yearLevels.rows[j].val.yearLevel != yearLevel
    ensures var r := Resolve(yearLevels, sections, yearLevel, section);
      !r.NoYearLevel? ==>
        exists i :: 0 <= i < |yearLevels.rows| && yearLevels.rows[i].val.yearLevel == yearLevel
          && (forall j :: 0 <= j < i ==> yearLevels.rows[j].val.yearLevel != yearLevel)
          && (r.NoSection? <==> forall j :: 0 <= j < |sections.rows| ==> sections.rows[j].val != Section(section, yearLevels.rows[i].id))
          && (r.Resolved? ==> r.yearLevelId == yearLevels.rows[i].id)
  {
    var f := FindYearLevel(yearLevels, yearLevel);
    if f.Some? {
      var i := f.value;
      assert yearLevels.rows[i].val.yearLevel == yearLevel;
    }
  }

  /** The enrollment `store` creates once the section resolved. */
  function Enrollment(req: EnrollRequest, sectionId: int): Student {
    Student(req.userId, req.yearLevel, req.section, sectionId, None)
  }

  /**
   * Hierarchical containment of one enrollment: its `section_id` names a
   * section called `section` whose year level is labelled `year_level`.
   */
  predicate Contained(yearLevels: Table<YearLevel>, sections: Table<Section>, s: Student) {
    match Find(sections, s.sectionId)
    case None => false
    case Some(sec) => sec.sectionName == s.section && Find(yearLevels, sec.yearLevelId) == Some(YearLevel(s.yearLevel))
  }

  predicate AllContained(yearLevels: Table<YearLevel>, sections: Table<Section>, students: Table<Student>) {
    forall i :: 0 <= i < |students.rows| ==> Contained(yearLevels, sections, students.rows[i].val)
  }

  /** Whatever names resolve to, the enrollment built from them is contained. */
  lemma ResolvedIsContained(yearLevels: Table<YearLevel>, sections: Table<Section>, req: EnrollRequest)
    requires WellKeyed(yearLevels) && WellKeyed(sections)
    requires Resolve(yearLevels, sections, req.yearLevel, req.section).Resolved?
    ensures Contained(yearLevels, sections, Enrollment(req, Resolve(yearLevels, sections, req.yearLevel, req.section).sectionId))
  {
    var r := Resolve(yearLevels, sections, req.yearLevel, req.section);
    FindByMembership(sections, r.sectionId, Section(req.section, r.yearLevelId));
    FindByMembership(yearLevels, r.yearLevelId, YearLevel(req.yearLevel));
  }

  /** Creating a resolved enrollment keeps every enrollment contained. */
  lemma StoreKeepsContainment(yearLevels: Table<YearLevel>, sections: Table<Section>, students: Table<Student>, req: EnrollRequest)
    requires WellKeyed(yearLevels) && WellKeyed(sections)
    requires Resolve(yearLevels, sections, req.yearLevel, req.section).Resolved?
    ensures AllContained(yearLevels, sections, students) ==> AllContained(yearLevels, sections,
      Insert(students, Enrollment(req, Resolve(yearLevels, sections, req.yearLevel, req.section).sectionId)))
  {
    if !AllContained(yearLevels, sections, students) { return; }
    ResolvedIsContained(yearLevels, sections, req);
    var s' := Insert(students, Enrollment(req, Resolve(yearLevels, sections, req.yearLevel, req.section).sectionId));
    forall i | 0 <= i < |s'.rows|
      ensures Contained(yearLevels, sections, s'.rows[i].val)
    {
      if i < |students.rows| {
        assert s'.rows[i] == students.rows[i];
      }
    }
  }

  /**
   * `store`: validate, resolve, then create. An unknown year-level label makes
   * `$yearLevel->id` read a property of null, which Laravel raises as an
   * error (500); an unknown section is reported back. Only a full resolution
   * writes, and it writes exactly one enrollment.
   */
  method Store(db: Database, req: EnrollRequest) returns (outcome: Outcome)
    requires db.Valid()
    modifies db`students
    ensures db.Valid()
    ensures !ValidEnroll(db.users, req) ==> outcome == Invalid && db.students == old(db.students)
    ensures ValidEnroll(db.users, req) ==>
      match Resolve(db.yearLevels, db.sections, req.yearLevel, req.section)
      case NoYearLevel => outcome == ServerError && db.students == old(db.students)
      case NoSection => outcome == SectionNotFound && db.students == old(db.students)
      case Resolved(_, sectionId) => outcome == Success && db.students == Insert(old(db.students), Enrollment(req, sectionId))
    ensures old(AllContained(db.yearLevels, db.sections, db.students)) ==> AllContained(db.yearLevels, db.sections, db.students)
  {
    if !ValidEnroll(db.users, req) {
      return Invalid;
    }
    var r := Resolve(db.yearLevels, db.sections, req.yearLevel, req.section);
    if r.NoYearLevel? {
      return ServerError;
    }
    if r.NoSection? {
      return SectionNotFound;
    }
    var student := Enrollment(req, r.sectionId);
    InsertSpec(db.students, student);
    StoreKeepsContainment(db.yearLevels, db.sections, db.students, req);
    db.students := Insert(db.students, student);
    outcome := Success;
  }

  /** The enrollment with its two name columns overwritten. */
  function Renamed(s: Student, yearLevel: string, section: string): Student {
    s.(yearLevel := yearLevel, section := section)
  }

  /**
   * `update`: validate the two names, find the enrollment or 404, then
   * overwrite `year_level` and `section` as typed. `section_id` and
   * `user_id` keep their values; nothing is resolved again.
   */
  method Update(db: Database, id: int, yearLevel: string, section: string) returns (outcome: Outcome)
    requires db.Valid()
    modifies db`students
    ensures db.Valid()
    ensures !(ShortText(yearLevel) && ShortText(section)) ==> outcome == Invalid && db.students == old(db.students)
    ensures ShortText(yearLevel) && ShortText(section) && !HasId(old(db.students), id) ==>
      outcome == NotFound && db.students == old(db.students)
    ensures ShortText(yearLevel) && ShortText(section) && HasId(old(db.students), id) ==>
      && outcome == Success
      && db.students == Replace(old(db.students), id, Renamed(Find(old(db.students), id).value, yearLevel, section))
      && Find(db.students, id) == Some(Renamed(Find(old(db.students), id).value, yearLevel, section))
      && (forall other :: other != id ==> Find(db.students, other) == Find(old(db.students), other))
  {
    if !(ShortText(yearLevel) && ShortText(section)) {
      return Invalid;
    }
    var current := Find(db.students, id);
    if current.None? {
      return NotFound;
    }
    var updated := Renamed(current.value, yearLevel, section);
    ReplaceSpec(db.students, id, updated);
    db.students := Replace(db.students, id, updated);
    outcome := Success;
  }

  /**
   * The update as written can leave an enrollment whose `section_id` points
   * at a section of another year level: renaming "Grade 7" to "Grade 8"
   * keeps the Grade 7 section's key.
   */
  lemma UpdateCanBreakContainment()
    ensures
      var yearLevels := Table([Row(1, YearLevel("Grade 7")), Row(2, YearLevel("Grade 8"))], 3);
      var sections := Table([Row(1, Section("Diamond", 1))], 2);
      var before := Table([Row(1, Student(10, "Grade 7", "Diamond", 1, None))], 2);
      var after := Replace(before, 1, Renamed(before.rows[0].val, "Grade 8", "Diamond"));
      && WellKeyed(yearLevels) && WellKeyed(sections) && WellKeyed(before)
      && AllContained(yearLevels, sections, before)
      && !AllContained(yearLevels, sections, after)
  {
    var yearLevels := Table([Row(1, YearLevel("Grade 7")), Row(2, YearLevel("Grade 8"))], 3);
    var sections := Table([Row(1, Section("Diamond", 1))], 2);
    var before := Table([Row(1, Student(10, "Grade 7", "Diamond", 1, None))], 2);
    var after := Replace(before, 1, Renamed(before.rows[0].val, "Grade 8", "Diamond"));
    FindRow(sections, 0);
    FindRow(yearLevels, 0);
    assert after.rows[0].val == Student(10, "Grade 8", "Diamond", 1, None);
    assert YearLevel("Grade 7") != YearLevel("Grade 8") by {
      assert "Grade 7"[6] != "Grade 8"[6];
    }
  }

  /** A re-resolved rename keeps every enrollment contained. */
  lemma ResolvedUpdateKeepsContainment(
    yearLevels: Table<YearLevel>, sections: Table<Section>, students: Table<Student>,
    id: int, yearLevel: string, section: string)
    requires WellKeyed(yearLevels) && WellKeyed(sections) && WellKeyed(students)
    requires HasId(students, id)
    requires Resolve(yearLevels, sections, yearLevel, section).Resolved?
    ensures
      var s := Find(students, id).value;
      var r := Resolve(yearLevels, sections, yearLevel, section);
      AllContained(yearLevels, sections, students) ==>
        AllContained(yearLevels, sections, Replace(students, id, Renamed(s, yearLevel, section).(sectionId := r.sectionId)))
  {
    if !AllContained(yearLevels, sections, students) {
      return;
    }
    var s := Find(students, id).value;
    var r := Resolve(yearLevels, sections, yearLevel, section);
    var updated := Renamed(s, yearLevel, section).(sectionId := r.sectionId);
    ResolvedIsContained(yearLevels, sections, EnrollRequest(s.userId, yearLevel, section));
    assert Contained(yearLevels, sections, updated);
    ReplaceRows(students, id, updated);
    var after := Replace(students, id, updated);
    forall i | 0 <= i < |after.rows|
      ensures Contained(yearLevels, sections, after.rows[i].val)
    {
      if students.rows[i].id != id {
        assert after.rows[i] == students.rows[i];
      }
    }
  }

  /**
   * `update` with the names resolved again as `store` resolves them, so that
   * `section_id` follows the new names; names that do not resolve leave the
   * enrollment as it was.
   */
  method UpdateResolved(db: Database, id: int, yearLevel: string, section: string) returns (outcome: Outcome)
    requires db.Valid()
    modifies db`students
    ensures db.Valid()
    ensures outcome != Success ==> db.students == old(db.students)
    ensures outcome == Success <==>
      && ShortText(yearLevel) && ShortText(section) && HasId(old(db.students), id)
      && Resolve(db.yearLevels, db.sections, yearLevel, section).Resolved?
    ensures outcome == Success ==>
      db.students == Replace(old(db.students), id,
        Renamed(Find(old(db.students), id).value, yearLevel, section)
          .(sectionId := Resolve(db.yearLevels, db.sections, yearLevel, section).sectionId))
    ensures old(AllContained(db.yearLevels, db.sections, db.students)) ==> AllContained(db.yearLevels, db.sections, db.students)
  {
    if !(ShortText(yearLevel) && ShortText(section)) {
      return Invalid;
    }
    var current := Find(db.students, id);
    if current.None? {
      return NotFound;
    }
    var r := Resolve(db.yearLevels, db.sections, yearLevel, section);
    if r.NoYearLevel? {
      return ServerError;
    }
    if r.NoSection? {
      return SectionNotFound;
    }
    var updated := Renamed(current.value, yearLevel, section).(sectionId := r.sectionId);
    ReplaceKeyed(db.students, id, updated);
    ResolvedUpdateKeepsContainment(db.yearLevels, db.sections, db.students, id, yearLevel, section);
    db.students := Replace(db.students, id, updated);
    outcome := Success;
  }

  /** Deleting an enrollment keeps the others contained. */
  lemma DestroyKeepsContainment(yearLevels: Table<YearLevel>, sections: Table<Section>, students: Table<Student>, id: int)
    ensures AllContained(yearLevels, sections, students) ==> AllContained(yearLevels, sections, Delete(students, id))
  {
    if !AllContained(yearLevels, sections, students) {
      return;
    }
    var p := (row: Row<Student>) => row.id != id;
    var after := Delete(students, id);
    forall i | 0 <= i < |after.rows|
      ensures Contained(yearLevels, sections, after.rows[i].val)
    {
      FilterMembership(students.rows, p, after.rows[i]);
      var k :| 0 <= k < |students.rows| && students.rows[k] == after.rows[i];
    }
  }

  /** `destroy`: find the enrollment or 404, then delete exactly that row. */
  method Destroy(db: Database, id: int) returns (outcome: Outcome)
    requires db.Valid()
    modifies db`students
    ensures db.Valid()
    ensures !HasId(old(db.students), id) ==> outcome == NotFound && db.students == old(db.students)
    ensures HasId(old(db.students), id) ==>
      && outcome == Success
      && db.students == Delete(old(db.students), id)
      && |db.students.rows| == |old(db.students.rows)| - 1
      && !HasId(db.students, id)
      && (forall other :: other != id ==> Find(db.students, other) == Find(old(db.students), other))
    ensures old(AllContained(db.yearLevels, db.sections, db.students)) ==> AllContained(db.yearLevels, db.sections, db.students)
  {
    if !HasId(db.students, id) {
      return NotFound;
    }
    DeleteSpec(db.students, id);
    DestroyKeepsContainment(db.yearLevels, db.sections, db.students, id);
    db.students := Delete(db.students, id);
    outcome := Success;
  }
}
