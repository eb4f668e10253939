/**
 * The records the controllers read and write (the Eloquent models'
 * fillable columns), the in-memory database holding one table per model, and
 * the outcomes a request can end in.
 */
module Schema {
  import opened Wrappers
  import opened Tables

  datatype YearLevel = YearLevel(yearLevel: string)

  /** `sections.year_level_id` is a non-null foreign key to `year_levels`. */
  datatype Section = Section(sectionName: string, yearLevelId: int)

  datatype Subject = Subject(subjectName: string, yearLevelId: int, sectionId: int)

  /**
   * An enrollment. It keeps the typed year-level and section names next to
   * the resolved `section_id`; `subject_id` is fillable but never set here.
   */
  datatype Student = Student(userId: int, yearLevel: string, section: string, sectionId: int, subjectId: Option<int>)

  datatype Activity = Activity(title: string, dateTime: string, yearLevelId: int, sectionId: int, subjectId: int)

  /** `teacher_id` is whoever is signed in, which may be nobody. */
  datatype Material = Material(
    teacherId: Option<int>, yearLevelId: int, sectionId: int, subjectId: int,
    materialType: string, filePath: string)

  /** What `json_encode` received for the options column: a JSON null or a list of nullable strings. */
  datatype OptionsJson = JsonNull | JsonList(items: seq<Option<string>>)

  /** `questions.options` is a nullable JSON column. */
  datatype Question = Question(qtype: string, question: string, options: Option<OptionsJson>, answerKey: string)

  /** How a request ends. */
  datatype Outcome =
    | Success          // redirect carrying a success flash, or a bare redirect back
    | Created          // JSON body with HTTP status 201
    | Invalid          // a validation rule failed: errors back to the form, nothing written
    | NotFound         // `findOrFail` or route-model binding found no row: 404
    | SectionNotFound  // redirect back with the "Section not found for the selected year level." flash
    | ServerError      // an error raised mid-request: 500

  /** The application's database: one table per model, plus the ids of `users` and the public file disk. */
  class Database {
    var users: set<int>
    var yearLevels: Table<YearLevel>
    var sections: Table<Section>
    var subjects: Table<Subject>
    var students: Table<Student>
    var activities: Table<Activity>
    var materials: Table<Material>
    var questions: Table<Question>
    /** Paths of the files stored on the `public` disk. */
    var publicFiles: seq<string>

    /** Keys are unique in every table, and every section's year level exists. */
    ghost predicate Valid()
      reads this
    {
      && WellKeyed(yearLevels) && WellKeyed(sections) && WellKeyed(subjects)
      && WellKeyed(students) && WellKeyed(activities) && WellKeyed(materials) && WellKeyed(questions)
      && (forall i :: 0 <= i < |sections.rows| ==> HasId(yearLevels, sections.rows[i].val.yearLevelId))
    }

    /** A database holding the given reference data and nothing else. */
    constructor (users: set<int>, yearLevels: Table<YearLevel>, sections: Table<Section>, subjects: Table<Subject>)
      requires WellKeyed(yearLevels) && WellKeyed(sections) && WellKeyed(subjects)
      requires forall i :: 0 <= i < |sections.rows| ==> HasId(yearLevels, sections.rows[i].val.yearLevelId)
      ensures Valid()
      ensures this.users == users && this.yearLevels == yearLevels
      ensures this.sections == sections && this.subjects == subjects
      ensures students.rows == [] && activities.rows == [] && materials.rows == [] && questions.rows == []
      ensures publicFiles == []
    {
      this.users, this.yearLevels, this.sections, this.subjects := users, yearLevels, sections, subjects;
      students, activities, materials, questions := Table([], 1), Table([], 1), Table([], 1), Table([], 1);
      publicFiles := [];
    }
  }
}
