# School administration: reference-data consistency and registration

A Dafny model of the part of this Laravel school administration application
that keeps enrollments, activities, materials and the question bank
consistent with the reference data (year levels, sections, subjects). It also
models the small toast queue the front end uses.

The database is in memory. Each table is a `Table<T>`: its rows in key order,
plus the next auto-increment key. `Schema.Database` is a class with one such
field per table, plus the ids of the users and the paths on the public file
disk. Each controller action is a method that changes one or two fields of
the database and says exactly how in its `ensures` clauses, with
`modifies db`students` naming the table it may touch. The method either
writes nothing and returns the failure, or writes what its contract states.

- `Seqs`: first match (`->where(...)->first()`) and filter (`array.filter`, `DELETE ... WHERE id`).
- `Tables`: keys, `Find`, `Insert`, `InsertAll`, `Replace` and `Delete`, with lemmas. They show that keys stay unique and that no other row changes.
- `ValidationRules`: Laravel's `required`, `max:255` and `date_format:H:i`, written as predicates.
- `Schema`: the record shapes, the `Database` class and the request `Outcome`.
- `EnrollStudentController`: resolves names to keys for enrollment. The key invariant is `AllContained`: each enrollment's `section_id` names a section with that name, owned by a year level with that label.
- `QuestionController` and `ExamController`: the batch import of questions, validated as a whole and then inserted in a loop.
- `ActivityController`: activities with a joined `date_time`.
- `MaterialController`: material upload and the subject projection shown on the upload page.
- `UseToast`: the toast list and its counter.

An unknown year-level label in enrollment `store` makes the code read `->id`
of null. Laravel raises that as an error, so the model returns `ServerError`
and writes nothing. An unknown section gives `SectionNotFound`, the redirect
back with an error message. The code never resolves a subject for an
enrollment, so `subject_id` stays null.

## Model

| member | source | states |
|---|---|---|
| Seqs.FirstIndex | app/Http/Controllers/EnrollStudentController.php:51 | `->first()`: returns the position of a match that no earlier element matches, or none exactly when nothing matches |
| Tables.FindByMembership | app/Http/Controllers/EnrollStudentController.php:113 | in a table with unique keys, `find($id)` returns a value exactly when the table holds that row |
| Tables.InsertSpec | app/Http/Controllers/EnrollStudentController.php:62-67 | `create` keeps keys unique, stores the row under a key that was not in use, and leaves every other key's row unchanged |
| Tables.InsertAllSpec | app/Http/Controllers/QuestionController.php:22-29 | a run of creates keeps the old rows as a prefix and adds one row per value in order, the k-th keyed `nextId + k` |
| Tables.DeleteAt | app/Http/Controllers/EnrollStudentController.php:126-127 | deleting the key at position k removes exactly that row and keeps the others in order |
| Tables.DeleteSpec | app/Http/Controllers/ActivityController.php:75 | after a delete the key is gone, the length drops by one if the key was present, keys stay unique, and every other key's row is unchanged |
| Tables.ReplaceAt | app/Http/Controllers/ActivityController.php:62-68 | updating the key at position k rewrites exactly that row |
| Tables.ReplaceSpec | app/Http/Controllers/EnrollStudentController.php:113-114 | an update keeps the set of keys, gives the key its new row and leaves every other key's row unchanged |
| Schema.Database.constructor | database/migrations/2025_06_12_024531_create_sections_table.php:14-20 | a database seeded with reference data is valid: keys are unique in every table and every section's year level exists |
| EnrollStudentController.FindYearLevel | app/Http/Controllers/EnrollStudentController.php:51 | finds the first year level whose label equals the name exactly, or none when no label matches |
| EnrollStudentController.FindSection | app/Http/Controllers/EnrollStudentController.php:52-54 | finds the first section that has both the name and the given year-level key, or none when no section has both |
| EnrollStudentController.Resolve | app/Http/Controllers/EnrollStudentController.php:51-54 | the resolved year level carries that label, and the resolved section carries that name and is owned by that year level |
| EnrollStudentController.ResolveOutcomes | app/Http/Controllers/EnrollStudentController.php:51-59 | resolution fails at the year level exactly when no label matches; otherwise it fails at the section exactly when no section of that name belongs to the FIRST matching year level, so a same-named section of another year level is never chosen |
| EnrollStudentController.ResolvedIsContained | app/Http/Controllers/EnrollStudentController.php:62-67 | the enrollment built from a successful resolution is contained |
| EnrollStudentController.StoreKeepsContainment | app/Http/Controllers/EnrollStudentController.php:51-67 | creating a resolved enrollment keeps every enrollment contained |
| EnrollStudentController.Store | app/Http/Controllers/EnrollStudentController.php:41-71 | an unknown user or a blank or over-long name gives `Invalid`, an unknown label gives `ServerError`, an unresolved section gives `SectionNotFound`, and each leaves the students table unchanged; success appends exactly one enrollment with the typed names and the resolved section key; containment is preserved |
| EnrollStudentController.Update | app/Http/Controllers/EnrollStudentController.php:104-118 | invalid names give `Invalid` and an unknown key gives `NotFound`, checked in that order, with nothing changed; otherwise only `year_level` and `section` of that row change, `section_id` and `user_id` keep their values, and other rows are unchanged |
| EnrollStudentController.UpdateCanBreakContainment | app/Http/Controllers/EnrollStudentController.php:107-114 | a concrete contained enrollment that, renamed by the update as written, points at a section of another year level |
| EnrollStudentController.ResolvedUpdateKeepsContainment | app/Http/Controllers/EnrollStudentController.php:51-54 | an update that resolves the new names again, as `store` does, keeps every enrollment contained |
| EnrollStudentController.UpdateResolved | app/Http/Controllers/EnrollStudentController.php:104-118 | the corrected update succeeds exactly when the names are valid, the key exists and the names resolve; it then sets the names and the re-resolved section key, and otherwise changes nothing; containment is preserved |
| EnrollStudentController.DestroyKeepsContainment | app/Http/Controllers/EnrollStudentController.php:126-127 | deleting an enrollment keeps the other enrollments contained |
| EnrollStudentController.Destroy | app/Http/Controllers/EnrollStudentController.php:123-131 | an unknown key gives `NotFound` and changes nothing; otherwise exactly that row is removed and all other rows are unchanged |
| QuestionController.ToQuestion | app/Http/Controllers/QuestionController.php:23-28 | the stored options are null exactly for a true-false question, and otherwise encode the given options; type, question and answer key are stored verbatim |
| QuestionController.RunInsertsSpec | app/Http/Controllers/QuestionController.php:22-29 | the loop creates the rows of the entries before the first one that fails to insert, in order, and reports whether it reached the end; an entry fails when its `options` key is missing and it is not true-false, or when the database enforces column lengths and its answer key is longer than 255 characters |
| QuestionController.RunInsertsHalts | app/Http/Controllers/QuestionController.php:22-29 | once the loop has failed, later entries change nothing |
| QuestionController.ImportOutcomes | app/Http/Controllers/QuestionController.php:11-32 | an invalid batch writes nothing; a valid batch answers 201 after one row per entry, or fails after creating the rows of the entries before the failing one |
| QuestionController.ImportAppendsInOrder | app/Http/Controllers/QuestionController.php:22-31 | a completed import grows the table by exactly the batch length; old rows come first, entry k becomes the row keyed `nextId + k` with its question and answer key verbatim, and its options are null exactly when it is true-false |
| QuestionController.Store | app/Http/Controllers/QuestionController.php:11-32 | the loop method's response and new table are those of `Import`, and key uniqueness is kept |
| QuestionController.MissingOptionsImportsPartially | app/Http/Controllers/QuestionController.php:17-26 | a concrete batch passes validation although its multiple-choice entry has no options, and the import fails after creating the first row |
| QuestionController.LongAnswerKeyImportsPartially | app/Http/Controllers/QuestionController.php:19-28 | `answerKey` has no length rule, so a concrete batch whose second answer key has 300 characters passes validation; a database that enforces the 255-character `answer_key` column fails on it after creating the first row, and one that does not imports both rows |
| QuestionController.BlankOptionSkipsRules | app/Http/Controllers/QuestionController.php:18 | an option of 300 spaces passes `nullable\|string\|max:255`, because Laravel skips rules that are not implicit on a blank string, and the question is created |
| QuestionController.StrictImportAllOrNothing | app/Http/Controllers/QuestionController.php:13-29 | with options required for questions that are not true-false and answer keys limited to 255 characters, an import writes no row or one row per entry in order, on either kind of database |
| ExamController.Store | app/Http/Controllers/ExamController.php:30-51 | the exam import has the same response and new questions table as the question import |
| ActivityController.DateTimeRoundTrip | app/Http/Controllers/ActivityController.php:42 | splitting the joined `date ' ' time` gives back the date and an `H:i` time |
| ActivityController.SplitDateTimeRoundTrip | app/Http/Controllers/ActivityController.php:42 | a stored value that ends with a space and an `H:i` time is the join of its two parts |
| ActivityController.DateTimeExample | app/Http/Controllers/ActivityController.php:42 | "2025-06-01" and "14:30" join to "2025-06-01 14:30" |
| ActivityController.Store | app/Http/Controllers/ActivityController.php:29-49 | a request failing any rule, including a key that does not exist, changes nothing; otherwise exactly one activity is appended with the joined `date_time` under a fresh key; the keys need only exist, with no check that they belong together |
| ActivityController.Update | app/Http/Controllers/ActivityController.php:51-71 | an unknown key gives `NotFound` before validation; an invalid request changes nothing; otherwise all five columns of that row are replaced and other rows are unchanged |
| ActivityController.Destroy | app/Http/Controllers/ActivityController.php:73-77 | an unknown key gives `NotFound`; otherwise exactly that activity is removed and other rows are unchanged |
| MaterialController.Store | app/Http/Controllers/MaterialController.php:53-75 | a request failing a rule touches neither the disk nor the table; a valid request stores the file first; then exactly one material is appended with the acting user as teacher and that path, unless nobody is signed in and `teacher_id` refuses null, in which case the answer is a server error, the table is unchanged and the file stays on the disk |
| MaterialController.ProjectSubject | app/Http/Controllers/MaterialController.php:24-33 | key, name and section key are copied; the section name and year-level key are present exactly when the section exists and come from that section; a year-level label comes from that year level |
| MaterialController.SubjectRows | app/Http/Controllers/MaterialController.php:24-33 | one projected row per subject, in table order |
| MaterialController.ProjectionFollowsSection | app/Http/Controllers/MaterialController.php:24-30 | a row's year-level key is its section's year-level key, or null when the section is missing |
| MaterialController.ProjectionNamesYearLevel | app/Http/Controllers/MaterialController.php:24-33 | when every section's year level exists, a row has a year-level label exactly when it has a year-level key |
| UseToast.RemoveExactlyOne | resources/js/components/composables/useToast.ts:21 | removing a present id drops exactly that toast and keeps the rest in order |
| UseToast.RemoveAbsent | resources/js/components/composables/useToast.ts:21 | removing an id that is not present leaves the list unchanged |
| UseToast.RemoveKeepsIncreasing | resources/js/components/composables/useToast.ts:21 | removal keeps toast ids strictly increasing and no greater than the counter |
| UseToast.ToastState.constructor | resources/js/components/composables/useToast.ts:11-12 | the queue starts empty with the counter at 0 |
| UseToast.ToastState.AddToast | resources/js/components/composables/useToast.ts:15-17 | the id is one more than the previous counter and larger than every existing id; the toast is appended, the length grows by one, and the type is `Default` unless one is given |
| UseToast.ToastState.RemoveToast | resources/js/components/composables/useToast.ts:20-22 | the list becomes the filtered list: unchanged if the id is absent, or without exactly that toast, in order, if it is present |

## Left out

- Page rendering in `index`, `show` and `edit`, and route registration, are left out. Only `index` and `store` of activities have routes, but `update` and `destroy` are modelled as written.
- Laravel's validator and Eloquent are not modelled. Each rule is a predicate and each table a `Table`. Request fields are typed, so rules that reject a value of the wrong JSON type (`string`, `array`) are not modelled.
- Laravel's `TrimStrings` and `ConvertEmptyStringsToNull` middleware are not modelled. Strings are taken as they reach the validator, and `Required` applies the validator's own blank check.
- The calendar check of the `date` rule is not modelled. It is the `isDate` parameter of the activity actions.
- File storage is not modelled. The path the disk returns is the `storedPath` parameter, and the disk is the list of stored paths.
- The `mimes` rule is modelled only as the extension recognised from the file's content.
- EnrollStudentController.FindYearLevel, EnrollStudentController.FindSection: names are compared exactly, as a case-sensitive collation that keeps trailing spaces would compare them (SQLite's default). Under a case-insensitive or pad-space collation such as MySQL's `utf8mb4_unicode_ci`, "grade 7" would find the "Grade 7" row and store the typed "grade 7". `Contained` and the containment lemmas assume exact comparison too.
- Whether the database refuses strings longer than their `string` column (MySQL in strict mode) or stores them (SQLite) is the `bounded` parameter of `QuestionController.Import`, `QuestionController.Store` and `ExamController.Store`. Column lengths are modelled only for `answer_key`, a `string` column whose rule sets no `max:255`. The other tables' migrations, apart from those of questions and sections, are not part of this model.
- The materials migration is not part of this model, so whether `teacher_id` accepts null is the `teacherNullable` parameter of `MaterialController.Store`.
- The signed-in user is not looked up. The acting user's id is the `actorId` parameter, and it is none when nobody is signed in.
- JSON text is not modelled. `OptionsJson` keeps what `json_encode` was given, and the model's `array` cast is not modelled.
- `created_at` and `updated_at` are not modelled.
- The 3-second `setTimeout` of the toast is not modelled. `RemoveToast` is the callback the timer would run.
- UseToast.ToastState.AddToast: returns the new id, so that a caller can perform the timer's removal. The source function returns nothing.
- `->first()` without an ordering is taken to mean the first row in key order.
- Concurrent requests are not modelled. Each action runs alone against the database.
- Server-side failure responses are collapsed into the `Outcome` values. Flash messages and redirect targets are not modelled.

## Findings

| source | as written | input that shows it | evidently intended | confidence | as-written member | corrected member |
|---|---|---|---|---|---|---|
| app/Http/Controllers/QuestionController.php:17-26 (same code in app/Http/Controllers/ExamController.php:36-45) | `options` is `nullable\|array`, so an entry may omit it. For an entry that is not true-false, line 26 then reads the missing key, and Laravel raises an error. The rows of the earlier entries stay. | a true-false entry followed by a multiple-choice entry with no `options` key; or, on a database that enforces column lengths, a true-false entry followed by one with a 300-character answer key (QuestionController.php:19) | options required unless the type is true-false, and `answerKey` limited to 255 characters, so the whole batch is rejected before any insert | medium (depends on Laravel turning the undefined-key warning into an error); not executed | QuestionController.MissingOptionsImportsPartially, QuestionController.LongAnswerKeyImportsPartially | QuestionController.StrictImportAllOrNothing |
| app/Http/Controllers/EnrollStudentController.php:107-114 | `update` overwrites the `year_level` and `section` names without resolving them, so `section_id` keeps pointing at the old section | enrollment "Grade 7"/"Diamond" (section 1, owned by year level 1) renamed to "Grade 8"/"Diamond" | resolve the new names as `store` does and update `section_id` with them | medium; not executed | EnrollStudentController.UpdateCanBreakContainment | EnrollStudentController.ResolvedUpdateKeepsContainment |

The controllers are modelled as written. `QuestionController.Store`,
`ExamController.Store` and `EnrollStudentController.Update` keep the
behaviour above. The corrected definitions are `ImportStrict` and
`EnrollStudentController.UpdateResolved`. Their properties are proved beside
the as-written versions.
