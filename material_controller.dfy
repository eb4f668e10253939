/**
 * Teaching materials (`MaterialController`): the subject list the upload
 * page shows, and the upload itself, which stores the file on the public
 * disk and records it against the signed-in teacher.
 */
module MaterialController {
  import opened Wrappers
  import opened Tables
  import opened Schema

  /** `in:learning_material,lesson_plan`. */
  const MaterialTypes: set<string> := {"learning_material", "lesson_plan"}

  /** `mimes:pdf,doc,docx,ppt,pptx`. */
  const FileExtensions: set<string> := {"pdf", "doc", "docx", "ppt", "pptx"}

  /** A successfully uploaded file, by the extension its content is recognised as. */
  datatype UploadedFile = UploadedFile(extension: string)

  /** The form `store` receives; the file may be missing. */
  datatype MaterialRequest = MaterialRequest(
    yearLevelId: int, sectionId: int, subjectId: int, materialType: string, file: Option<UploadedFile>)

  /** `store`'s rules: the three keys exist, the type is known, and a file of an accepted kind is attached. */
  predicate ValidMaterial(
    yearLevels: Table<YearLevel>, sections: Table<Section>, subjects: Table<Subject>, req: MaterialRequest)
  {
    && HasId(yearLevels, req.yearLevelId)
    && HasId(sections, req.sectionId)
    && HasId(subjects, req.subjectId)
    && req.materialType in MaterialTypes
    && req.file.Some? && req.file.value.extension in FileExtensions
  }

  /** The row recorded for an upload: the acting user as teacher and the path the disk returned. */
  function MaterialOf(req: MaterialRequest, actorId: Option<int>, path: string): Material {
    Material(actorId, req.yearLevelId, req.sectionId, req.subjectId, req.materialType, path)
  }

  /**
   * Whether `Material::create` can record the acting user: a signed-in user
   * always can; with nobody signed in, `auth()->id()` is null and the insert
   * succeeds only if the `teacher_id` column accepts null.
   */
  predicate Recordable(actorId: Option<int>, teacherNullable: bool) {
    actorId.Some? || teacherNullable
  }

  /**
   * `store`. `actorId` is the signed-in user's id (none when nobody is
   * signed in; the `materials` routes carry no `auth` middleware),
   * `storedPath` is the path the public disk gives the file, and
   * `teacherNullable` says whether the `teacher_id` column accepts null.
   * Validation runs before the file is stored, so a rejected request
   * touches neither the disk nor the table. The file is stored before the
   * row is created, so an insert the database refuses (500) leaves the file
   * on the disk without a row.
   */
  method Store(db: Database, req: MaterialRequest, actorId: Option<int>, storedPath: string, teacherNullable: bool)
    returns (outcome: Outcome)
    requires db.Valid()
    modifies db`materials, db`publicFiles
    ensures db.Valid()
    ensures !ValidMaterial(db.yearLevels, db.sections, db.subjects, req) ==>
      outcome == Invalid && db.materials == old(db.materials) && db.publicFiles == old(db.publicFiles)
    ensures ValidMaterial(db.yearLevels, db.sections, db.subjects, req) ==>
      db.publicFiles == old(db.publicFiles) + [storedPath]
    ensures ValidMaterial(db.yearLevels, db.sections, db.subjects, req) && !Recordable(actorId, teacherNullable) ==>
      outcome == ServerError && db.materials == old(db.materials)
    ensures ValidMaterial(db.yearLevels, db.sections, db.subjects, req) && Recordable(actorId, teacherNullable) ==>
      && outcome == Success
      && db.materials == Insert(old(db.materials), MaterialOf(req, actorId, storedPath))
      && Find(db.materials, old(db.materials.nextId)) == Some(MaterialOf(req, actorId, storedPath))
      && (forall id :: id != old(db.materials.nextId) ==> Find(db.materials, id) == Find(old(db.materials), id))
  {
    if !ValidMaterial(db.yearLevels, db.sections, db.subjects, req) {
      return Invalid;
    }
    db.publicFiles := db.publicFiles + [storedPath];
    if !Recordable(actorId, teacherNullable) {
      return ServerError;
    }
    var material := MaterialOf(req, actorId, storedPath);
    InsertSpec(db.materials, material);
    db.materials := Insert(db.materials, material);
    outcome := Success;
  }

  /** One entry of the subject list `index` sends to the page. */
  datatype SubjectRow = SubjectRow(
    id: int, subjectName: string, sectionId: int,
    sectionName: Option<string>, yearLevelId: Option<int>, yearLevel: Option<string>)

  /**
   * A subject with its section's name and year level looked up through
   * `section` and `section.yearLevel`; each lookup that misses gives null.
   */
  function ProjectSubject(yearLevels: Table<YearLevel>, sections: Table<Section>, subject: Row<Subject>): (v: SubjectRow)
    ensures v.id == subject.id && v.subjectName == subject.val.subjectName && v.sectionId == subject.val.sectionId
    ensures v.sectionName.Some? <==> HasId(sections, subject.val.sectionId)
    ensures v.yearLevelId.Some? <==> HasId(sections, subject.val.sectionId)
    ensures v.yearLevelId.Some? ==>
      Row(subject.val.sectionId, Section(v.sectionName.value, v.yearLevelId.value)) in sections.rows
    ensures v.yearLevel.Some? ==>
      v.yearLevelId.Some? && Row(v.yearLevelId.value, YearLevel(v.yearLevel.value)) in yearLevels.rows
  {
    var section := Find(sections, subject.val.sectionId);
    var yearLevel := if section.Some? then Find(yearLevels, section.value.yearLevelId) else None;
    SubjectRow(
      subject.id, subject.val.subjectName, subject.val.sectionId,
      if section.Some? then Some(section.value.sectionName) else None,
      if section.Some? then Some(section.value.yearLevelId) else None,
      if yearLevel.Some? then Some(yearLevel.value.yearLevel) else None)
  }

  /** `Subject::with('section.yearLevel')->get()->map(...)`: one row per subject, in table order. */
  function SubjectRows(yearLevels: Table<YearLevel>, sections: Table<Section>, subjects: Table<Subject>): (r: seq<SubjectRow>)
    ensures |r| == |subjects.rows|
    ensures forall i :: 0 <= i < |r| ==> r[i] == ProjectSubject(yearLevels, sections, subjects.rows[i])
  {
    seq(|subjects.rows|, i requires 0 <= i < |subjects.rows| => ProjectSubject(yearLevels, sections, subjects.rows[i]))
  }

  /**
   * Each row copies the subject's key, name and section key, and carries its
   * section's year-level key, or null when that section does not exist.
   */
  lemma ProjectionFollowsSection(
    yearLevels: Table<YearLevel>, sections: Table<Section>, subjects: Table<Subject>, i: nat, k: nat)
    requires WellKeyed(sections)
    requires i < |subjects.rows| && k < |sections.rows|
    ensures var v := SubjectRows(yearLevels, sections, subjects)[i];
      && v.id == subjects.rows[i].id
      && v.subjectName == subjects.rows[i].val.subjectName
      && v.sectionId == subjects.rows[i].val.sectionId
      && (sections.rows[k].id == v.sectionId ==> v.yearLevelId == Some(sections.rows[k].val.yearLevelId))
      && (!HasId(sections, v.sectionId) ==> v.yearLevelId == None)
  {
    FindRow(sections, k);
  }

  /** When every section's year level exists, a row that found its section also found the year-level label. */
  lemma ProjectionNamesYearLevel(yearLevels: Table<YearLevel>, sections: Table<Section>, subjects: Table<Subject>)
    requires forall k :: 0 <= k < |sections.rows| ==> HasId(yearLevels, sections.rows[k].val.yearLevelId)
    ensures forall v :: v in SubjectRows(yearLevels, sections, subjects) ==> (v.yearLevelId.Some? <==> v.yearLevel.Some?)
  {
    var r := SubjectRows(yearLevels, sections, subjects);
    forall v | v in r
      ensures v.yearLevelId.Some? <==> v.yearLevel.Some?
    {
      var i :| 0 <= i < |r| && r[i] == v;
      var section := Find(sections, subjects.rows[i].val.sectionId);
      if section.Some? {
        var k :| 0 <= k < |sections.rows| && sections.rows[k] == Row(subjects.rows[i].val.sectionId, section.value);
        assert HasId(yearLevels, section.value.yearLevelId);
      }
    }
  }
}
