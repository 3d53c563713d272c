# Bulk uploads, formulas and gates of the accreditation back end

The back end loads spreadsheets into PostgreSQL through one pair of functions for each kind of file,
`audit.fn_upload_*` and `audit.fn_rollback_*`. An upload takes a fresh log id, inserts the rows whose business
key is new, and for the others pushes the overwritten values onto the stack `extra.upload_undo` of the row. A
rollback is refused unless the upload is the newest that touched each of its rows; otherwise it pops one entry
from each updated row and deletes what was inserted. The project models these functions, the other two undo
designs beside them, and three library files.

| files | what they model |
|---|---|
| `UndoTable`, `UndoReplay` | one table with inserters and undo stacks, and whole runs over it: the table is always the replay of the surviving uploads |
| `UndoLoad`, `UndoStore` | the INSERT, UPDATE, guard, pop and DELETE statements over a table changed in place |
| `Sections` | course sections: validation, joins, what a row stores, and the count of loaded rows |
| `TwoTables`, `Students`, `StudentColumns` | students and enrollments, written by one upload; what a row stores in each column |
| `StudentEmails`, `EmailRollbacks` | UNIQUE (email): exactly when an upload or a rollback of students meets it |
| `Staff`, `StaffFiles`, `StaffColumns` | staff and professors, loaded row by row; what a row stores in each column |
| `Projects`, `ProjectEffects`, `EvaluatorLists`, `ProjectCells` | projects and evaluators: deactivate and mark, then reactivate; what a file leaves; which cell is checked and which is loaded |
| `ProjectUndo`, `ProjectRuns` | rolling a project upload back before later ones: exactly when, and whole runs |
| `StudyPlans` | plans and courses shared by ON CONFLICT DO NOTHING |
| `Rubrics`, `RubricVerdicts` | the overlap sweep and total of a rubric; what each finding means |
| `Charts`, `ChartColumns` | the passes that wire a chart; what each finding means and what a node holds |
| `FormulaTokens`, `FormulaLexemes`, `FormulaGrammar`, `FormulaParser`, `FormulaPrinter` | tokenizer, what it reads character by character, grammar, the parser that evaluates, and a printer |
| `Gate`, `GateRuns` | the concurrency gate over waiter objects, and every interleaving of its callers |
| `CaseKeys` | camelCase and snake_case keys, and the walkers over nested values |
| `Wrappers`, `SqlText`, `Histories` | options and outcomes; histories without one upload; trim, blank cells, folding and catalog joins |

Tables are maps from business key (or serial id) to row and change only through methods; each method is proved
equal to a function of the old state, and the lemmas are about those functions. A RAISE, an aborted cast or a
violated constraint leaves the tables as they were. What comes from outside - catalogs, the order a query
chooses, `lower` and `upper`, whether another table refers to a row - is a parameter.

Where the code and what is said about it differ, the model follows the code:

- Two professors on one staff row: the row is pushed twice and popped once (`Staff.UndoExact`).
- Project uploads may be rolled back in any order. What is left is what the other uploads give if and only if each
  later one names no project that it created, and for the projects it does name everybody whom the rollback makes
  active again and nobody who is active only with the upload or only without it (`ProjectRuns.UndoExact`).
  Otherwise a professor can be active twice, or an evaluator of a surviving upload is lost although no rule is
  broken (`ProjectRuns.OutOfOrderLosesEvaluator`).
- The evaluator cell of a project that is checked need not be the one that is loaded (`ProjectCells.CheckedIsLoadedIff`).
- The rollback guard of students does not look at addresses. A rollback that it accepts breaks UNIQUE (email) exactly
  when a pop gives a student an address that by now belongs to one whom the rollback does not pop
  (`EmailRollbacks.RollbackRunsIff`); two files reach such a state from one stored student
  (`EmailRollbacks.ClashReached`).
- A study-plan row whose course is spelled differently elsewhere in the file is lost although it is counted as
  loaded (`StudyPlans.RowLoadedIff`), and does not protect its plan (`StudyPlans.PlanOfLostRowTaken`).
- Rubric criteria are selected by question or outcome but questions are grouped by the pair, so a file can pass
  with a total of 20 and be stored with 24 (`Rubrics.StoredTotalExact`). Bounds are said to be optional, but an
  empty minimum aborts the upload, and where bounds are missing disjoint criteria can be reported as overlapping
  (`Rubrics.WronglyReportedExactly`) and the order that the query picks can decide (`Rubrics.OrderIndependent`).
- A chart may be accepted whose nodes are each other's parents (`Charts.UnderSchool`).
- `A-B` is one reference in a formula, and `[A] / ([B] - [C])` is never accepted, although it has a value wherever
  B and C differ (`FormulaPrinter.RejectedThoughDefined`).
- The cross-table test of the student rollback never decides anything (`Students.CrossGuardRedundant`).

`dafny verify dfyconfig.toml` checks the project.

## Model

| member | source | states |
|---|---|---|
| UndoTable.PopPush | src/database/migrations/1781188404691-normalize-upload-extra-keys-to-snake-case.ts:475-484 | Popping straight after a push gives the row back, `extra` included, if and only if every column the UPDATE changed was saved in the undo entry |
| UndoReplay.RollbackUndoesUpload | src/database/migrations/1781188404691-normalize-upload-extra-keys-to-snake-case.ts:451-489 | A fresh upload passes its own rollback guard, and rolling it back at once restores the whole table |
| UndoReplay.NewestAfterUpload | src/database/migrations/1781188404691-normalize-upload-extra-keys-to-snake-case.ts:1516-1527 | After one more upload the guard for an older one holds iff it held before and the new upload touched none of its rows |
| UndoReplay.RollbackCommutes | src/database/migrations/1781188404691-normalize-upload-extra-keys-to-snake-case.ts:1529-1540 | Rolling back one upload commutes with another that shares no row with it |
| UndoReplay.ReplayTouches | src/database/migrations/1781188404691-normalize-upload-extra-keys-to-snake-case.ts:475-489 | A row mentions an upload, as inserter or in its stack, iff that upload had the row's key in its file |
| UndoReplay.AvoidsUntouched | src/database/migrations/1781188404691-normalize-upload-extra-keys-to-snake-case.ts:1516-1527 | A batch touches no row of an upload exactly when the two share no key |
| UndoReplay.RollbackErases | src/database/migrations/1781188404691-normalize-upload-extra-keys-to-snake-case.ts:1529-1540 | An accepted rollback of any upload, however old, gives the table that the other uploads alone would have produced |
| UndoReplay.GuardExact | src/database/migrations/1781188404691-normalize-upload-extra-keys-to-snake-case.ts:1516-1527 | The newest-upload guard refuses exactly when a later surviving upload shares a key |
| UndoReplay.StackDiscipline | src/database/migrations/1781188404691-normalize-upload-extra-keys-to-snake-case.ts:475-489 | In every row the inserter and the stacked log ids are strictly increasing: each upload at most once, all newer than the inserter |
| UndoReplay.ReplayShowsVisible | src/database/migrations/1781188404691-normalize-upload-extra-keys-to-snake-case.ts:451-489 | The columns readers see are the first edit's insert columns overwritten by each later edit |
| UndoReplay.SeedRowsHaveNoInserter | src/database/migrations/1781188404691-normalize-upload-extra-keys-to-snake-case.ts:451-472 | A row without inserter was there before all uploads; any other inserter had the key in its file |
| UndoReplay.StepKeepsOk | src/database/migrations/1781188404691-normalize-upload-extra-keys-to-snake-case.ts:1516-1540 | Every step - upload, refused or accepted rollback, other log id - keeps the table equal to the replay of the survivors |
| UndoReplay.ReplayTheorem | src/database/migrations/1781188404691-normalize-upload-extra-keys-to-snake-case.ts:1516-1540 | After any run of uploads and rollbacks in any order the table, with inserters and undo stacks, is the replay of the surviving uploads |
| UndoReplay.SecondRollbackIsNoOp | src/database/migrations/1781188404691-normalize-upload-extra-keys-to-snake-case.ts:1529-1540 | Rolling the same upload back again passes the guard and changes no row |
| UndoLoad.BatchKeys | src/database/migrations/1781188404691-normalize-upload-extra-keys-to-snake-case.ts:457-472 | The keys that an upload writes are those of the file rows whose joins succeed |
| UndoLoad.BatchSize | src/database/migrations/1781188404691-normalize-upload-extra-keys-to-snake-case.ts:457-472 | With different keys no joined row overwrites another |
| UndoLoad.AllJoined | src/database/migrations/1781188404691-normalize-upload-extra-keys-to-snake-case.ts:457-466 | All file rows reach the table iff no join loses one |
| UndoLoad.RowTable.Load | src/database/migrations/1781188404691-normalize-upload-extra-keys-to-snake-case.ts:749-792 | INSERT and then UPDATE together are one upload; each joined row is inserted or pushed, never both, and the counts add up |
| UndoLoad.RowTable.Undo | src/database/migrations/1781188404691-normalize-upload-extra-keys-to-snake-case.ts:1529-1540 | The pop UPDATE followed by the DELETE is the rollback of that upload |
| UndoLoad.RowTable.BlockedByNewer | src/database/migrations/1781188404691-normalize-upload-extra-keys-to-snake-case.ts:1517-1527 | The two EXISTS tests find something iff this upload is not the newest on all its rows |
| UndoStore.Store.Load | src/database/migrations/1781188404691-normalize-upload-extra-keys-to-snake-case.ts:739-792 | A file with errors changes nothing; otherwise the next log id is taken and the table is the upload of the joined rows, and all invariants stay |
| UndoStore.Store.Rollback | src/database/migrations/1781188404691-normalize-upload-extra-keys-to-snake-case.ts:1599-1649 | Refused exactly for an unknown log, a downstream reference or a newer upload, and then nothing changes; otherwise the rollback of the model |
| UndoStore.NextIsFresh | src/database/migrations/1781188404691-normalize-upload-extra-keys-to-snake-case.ts:739-747 | The next log id is mentioned by no row |
| Sections.FindDuplicates | src/database/migrations/1781188404691-normalize-upload-extra-keys-to-snake-case.ts:669-683 | The first loop reports something iff two section codes agree after trim and lower, and only rows that have a twin |
| Sections.Validate | src/database/migrations/1781188404691-normalize-upload-extra-keys-to-snake-case.ts:669-737 | Errors are reported iff the file is not valid, and each error is one its row has |
| Sections.ValidatedJoins | src/database/migrations/1781188404691-normalize-upload-extra-keys-to-snake-case.ts:750-767 | A validated row survives all joins iff its modality type is in the catalog, under its trimmed code |
| Sections.ValidatedApart | src/database/migrations/1781188404691-normalize-upload-extra-keys-to-snake-case.ts:669-683 | No two rows of a validated file load the same section |
| Sections.SectionsRecord | src/database/migrations/1781188404691-normalize-upload-extra-keys-to-snake-case.ts:770-784 | The undo entry of a section saves every column that the UPDATE writes |
| Sections.UploadSections | src/database/migrations/1781188404691-normalize-upload-extra-keys-to-snake-case.ts:669-792 | Inserts plus updates equal the reported number of rows iff every row's modality type is present; errors leave everything as it was |
| Sections.SectionStored | src/database/migrations/1781188404691-normalize-upload-extra-keys-to-snake-case.ts:749-792 | After an upload each row whose joins succeed has its section in the table, inserted or updated, with the course, period, campus, professor and modality that its cells name; a new section has no schedule and an old one keeps its own |
| Sections.SectionElsewhere | src/database/migrations/1781188404691-normalize-upload-extra-keys-to-snake-case.ts:749-792 | A section that no row names is left alone |
| Sections.RowErrorsMean | src/database/migrations/1781188404691-normalize-upload-extra-keys-to-snake-case.ts:685-737 | Each error code of a row, and exactly when the row gets it |
| Sections.ValidatedExactly | src/database/migrations/1781188404691-normalize-upload-extra-keys-to-snake-case.ts:669-737 | A file is valid iff each row says a section code of at most 50 characters, a course, campus and professor of the catalogs and a modality, and no two rows say one section |
| Students.RowRecords | src/database/migrations/1781414409302-replace-student-user-with-email.ts:159-246 | Both undo entries save all updated columns, and an enrollment row always comes with its student row |
| Students.FileBatchOk | src/database/migrations/1781414409302-replace-student-user-with-email.ts:139-246 | Every enrollment written by a file hangs off a student written by the same file |
| Students.ValidatedApart | src/database/migrations/1781414409302-replace-student-user-with-email.ts:36-50 | No two rows of a validated file write the same student or the same enrollment |
| Students.EnrollmentTouchesStudent | src/database/migrations/1781414409302-replace-student-user-with-email.ts:182-246 | In every reachable state the inserter of an enrollment inserted its student or is on the student's undo stack |
| Students.ReferentialIntegrity | src/database/migrations/1781414409302-replace-student-user-with-email.ts:303-330 | In every reachable state each enrollment's student exists |
| Students.TwoTableReplay | src/database/migrations/1781414409302-replace-student-user-with-email.ts:139-330 | Over any run both tables are the replay of the surviving files, and every enrollment has its student |
| Students.CrossGuardRedundant | src/database/migrations/1781414409302-replace-student-user-with-email.ts:295-299 | The cross-table test never refuses a rollback that the students' tests let through |
| Students.EnrollmentGuardRedundant | src/database/migrations/1781414409302-replace-student-user-with-email.ts:287-294 | Neither do the two tests on enrollments |
| Students.AcceptedExactly | src/database/migrations/1781414409302-replace-student-user-with-email.ts:277-301 | The five tests together refuse exactly when a later surviving upload names one of the upload's students |
| Students.EnrolledStudents.UploadFile | src/database/migrations/1781414409302-replace-student-user-with-email.ts:36-248 | The statements of the upload are one step of the model on both tables: with findings nothing changes, and where UNIQUE (email) or another statement fails nothing but the id sequence does |
| StudentColumns.StudentStored | src/database/migrations/1781414409302-replace-student-user-with-email.ts:139-246 | After an upload each row whose joins succeed has its student in the table, inserted or updated, with the trimmed first and last name, the address made from the code, and the program and modality of the catalogs; and its enrollment with campus and modality |
| StudentColumns.StudentElsewhere | src/database/migrations/1781414409302-replace-student-user-with-email.ts:139-246 | Students that no row names, and their enrollments, are left alone |
| StudentColumns.ValidatedExactly | src/database/migrations/1781414409302-replace-student-user-with-email.ts:36-128 | A file is valid iff each row says a code of at most 50 characters, names of at most 255, a program with an offering, a campus and a modality, and no two rows say one student |
| StudentColumns.RefusedUnchanged | src/database/migrations/1781414409302-replace-student-user-with-email.ts:36-128 | A file that does not fit so, and an upload that fails, leave both tables as they were |
| StudentEmails.UploadClashesIff | src/database/migrations/1781414409302-replace-student-user-with-email.ts:142-181 | The INSERT or the UPDATE breaks UNIQUE (email), once it is done, iff a stored student holds the address that the file gives to another one, and the file does not change it or inserts the other one first |
| StudentEmails.AnyOrderClashesIff | src/database/migrations/1781414409302-replace-student-user-with-email.ts:142-181 | No row meets the constraint, in whatever order the statements write their rows, iff no stored student holds the address of another student of the file |
| EmailRollbacks.RestoreClashesIff | src/database/migrations/1781414409302-replace-student-user-with-email.ts:315-327 | The pops of a rollback break UNIQUE (email), once they are done, iff one gives a student an address that another student has whom the rollback does not pop |
| EmailRollbacks.AnyOrderRestoresIff | src/database/migrations/1781414409302-replace-student-user-with-email.ts:315-327 | No row meets the constraint, in whatever order the rows are popped, iff no pop gives a student an address that another student has at that time |
| EmailRollbacks.RollbackRunsIff | src/database/migrations/1781414409302-replace-student-user-with-email.ts:255-330 | After any run from tables in which addresses differ, a rollback is carried out iff the log id is known and not blocked, no later surviving upload names one of its students, and no pop gives a student an address that belongs to one whom the rollback does not pop |
| EmailRollbacks.AcceptedRollbackClashes | src/database/migrations/1781414409302-replace-student-user-with-email.ts:277-330 | Where a student is stored with the address of another: two files load, all five tests let the first go, and its rollback is undone by UNIQUE (email) |
| EmailRollbacks.ClashReached | src/database/migrations/1781414409302-replace-student-user-with-email.ts:277-330 | The same as a run of two files from one stored student |
| StudentEmails.EmailsNeverClash | src/database/migrations/1781414409302-replace-student-user-with-email.ts:142-181 | Where every stored address is missing or derived from its own code, no run meets the constraint, in no upload and no rollback, whatever the order in which a statement writes its rows |
| Students.EnrolledStudents.RollbackUpload | src/database/migrations/1781414409302-replace-student-user-with-email.ts:255-330 | Refused exactly when a guard holds or UNIQUE (email) would be broken, with nothing changed; otherwise one rollback step on both tables |
| TwoTables.ReplayedUpload | src/database/migrations/1781414409302-replace-student-user-with-email.ts:139-246 | One more upload on both tables extends both replays |
| TwoTables.ReplayedRollback | src/database/migrations/1781414409302-replace-student-user-with-email.ts:303-330 | One accepted rollback erases the upload from both replays |
| TwoTables.ReplayedFresh | src/database/migrations/1781414409302-replace-student-user-with-email.ts:129-137 | A log id that no survivor has is mentioned in neither table |
| Staff.EditsRecord | src/database/migrations/1781726602063-add-staff-email-to-staff-upload.ts:143-151 | The undo entry of a staff row saves all that an update writes |
| Staff.LoadRowsIsUpload | src/database/migrations/1781726602063-add-staff-email-to-staff-upload.ts:119-159 | As long as no two file rows reach one staff row, the row-by-row loop is one upload over each table |
| Staff.LoadRowsPushes | src/database/migrations/1781726602063-add-staff-email-to-staff-upload.ts:130-152 | Each file row that reaches an existing staff row pushes exactly once |
| Staff.UndoExact | src/database/migrations/1781726602063-add-staff-email-to-staff-upload.ts:230-260 | A rollback right after the upload restores staff and professors iff no two rows of the file reach the same staff row |
| Staff.SharedStaffDecays | src/database/migrations/1781726602063-add-staff-email-to-staff-upload.ts:119-159 | Two professors on one staff row: a file that validation accepts and that a rollback does not take back |
| Staff.RowKeepsLinked | src/database/migrations/1781726602063-add-staff-email-to-staff-upload.ts:126-159 | One file row keeps each professor on a staff row inserted by the same upload as the professor |
| Staff.StaffReplay | src/database/migrations/1781726602063-add-staff-email-to-staff-upload.ts:206-260 | Over any run whose accepted files reach no staff row twice, also where professors share staff rows: both tables are the replay of the survivors, and every professor has its staff row |
| Staff.StaffStore.LoadRow | src/database/migrations/1781726602063-add-staff-email-to-staff-upload.ts:126-158 | One turn of the loop: update the professor's staff or insert a fresh one, and insert an unknown professor |
| StaffColumns.KnownProfessor | src/database/migrations/1781726602063-add-staff-email-to-staff-upload.ts:126-152 | A row of a known professor updates the staff row behind it and nothing else: trimmed names, and the e-mail of the file or, where that is blank, the former one; all former columns are saved |
| StaffColumns.NewProfessor | src/database/migrations/1781726602063-add-staff-email-to-staff-upload.ts:126-158 | Any other row inserts a staff row with its trimmed names and its e-mail or NULL, and a professor who points at it if the row says a code; nothing else changes |
| StaffColumns.ValidatedExactly | src/database/migrations/1781726602063-add-staff-email-to-staff-upload.ts:43-108 | A file is valid iff each row says names of at most 255 characters and at most 50 and 255 for code and e-mail where they are given, and no two rows say one professor |
| Staff.StaffStore.UploadFile | src/database/migrations/1781726602063-add-staff-email-to-staff-upload.ts:43-161 | The whole upload is one step of the model, and keeps the replay invariant when the file reaches no staff row twice |
| Staff.StaffStore.RollbackUpload | src/database/migrations/1781726602063-add-staff-email-to-staff-upload.ts:172-260 | Refused exactly when a guard holds, with nothing changed; otherwise one rollback step on both tables |
| StaffFiles.RowCommutes | src/database/migrations/1781726602063-add-staff-email-to-staff-upload.ts:126-158 | A file row does the same before and after the rollback of an upload that is still the newest on all its rows |
| StaffFiles.FileCommutes | src/database/migrations/1781726602063-add-staff-email-to-staff-upload.ts:119-159 | So does a whole file, whatever staff rows it reaches and how often |
| StaffFiles.UndoneExact | src/database/migrations/1781726602063-add-staff-email-to-staff-upload.ts:206-260 | An accepted rollback of any upload, however old, leaves what the other files give when only they are loaded iff its own file reached no staff row twice |
| StaffFiles.StaffFilesReplay | src/database/migrations/1781726602063-add-staff-email-to-staff-upload.ts:119-260 | Over any run in which only the files that are rolled back have to reach no staff row twice: both tables are what the surviving files give when only they are loaded, in order, row by row, and every professor has its staff row |
| EvaluatorLists.ListedExact | src/database/migrations/1781806379373-remove-section-code-from-projects-upload.ts:330-356 | The listed professors are exactly those with a listed code, each once |
| EvaluatorLists.CodesOfJoin | src/database/migrations/1781806379373-remove-section-code-from-projects-upload.ts:330-334 | Codes written with commas and spaces between them are read back one by one |
| EvaluatorLists.BlankListsNobody | src/database/migrations/1781806379373-remove-section-code-from-projects-upload.ts:329-334 | A cell of spaces and commas lists nobody |
| Projects.AddMissingExact | src/database/migrations/1781806379373-remove-section-code-from-projects-upload.ts:353-368 | The INSERT gives each listed professor an active row, leaves all other rows alone and makes no second active row |
| Projects.ReconcileAssigns | src/database/migrations/1781806379373-remove-section-code-from-projects-upload.ts:340-368 | Deactivate-then-insert is assignment: afterwards exactly the listed professors are active, and rows already right are untouched |
| Projects.GroupAssigns | src/database/migrations/1781806379373-remove-section-code-from-projects-upload.ts:315-370 | After a project's turn, for each of the five types exactly the professors in its cell are active |
| ProjectCells.FilledExact | src/database/migrations/1781806379373-remove-section-code-from-projects-upload.ts:206-212 | The filled cells of a project are the texts that some row of it, or of its course, says for the type |
| ProjectCells.MaxExact | src/database/migrations/1781806379373-remove-section-code-from-projects-upload.ts:259-270 | MAX is NULL iff no cell is filled, and otherwise the one filled cell that no other exceeds |
| ProjectCells.CheckedIsLoadedIff | src/database/migrations/1781806379373-remove-section-code-from-projects-upload.ts:204-270 | The cell that is checked is the one that is loaded, whichever row LIMIT 1 returns, iff all filled cells of the project agree and the group has one if the project has |
| ProjectCells.PassesMeans | src/database/migrations/1781806379373-remove-section-code-from-projects-upload.ts:200-243 | Each row of a file that passes has had a valid cell of its project checked for each of the five types, or all cells of the project are blank |
| ProjectCells.PassingLoadsValidIff | src/database/migrations/1781806379373-remove-section-code-from-projects-upload.ts:204-270 | Whatever rows the checks look at, a file that passes them loads valid cells only iff all cells it loads are valid anyway or some project has no valid cell of a type that it fills |
| ProjectCells.UnknownCodeLoaded | src/database/migrations/1781806379373-remove-section-code-from-projects-upload.ts:204-270 | A file whose known code is checked and whose unknown code is loaded: it passes, and the list that is loaded names nobody |
| Projects.RollbackRestores | src/database/migrations/1781720913455-update-projects-upload-evaluators.ts:443-468 | A rollback takes back whatever one upload may have done to the three tables |
| Projects.UploadThenRollback | src/database/migrations/1781720913455-update-projects-upload-evaluators.ts:443-468 | An upload and its rollback with nothing in between restore projects, students and evaluators exactly |
| ProjectUndo.SlotExact | src/database/migrations/1781806379373-remove-section-code-from-projects-upload.ts:340-368 | One assignment with and without an earlier upload: when it names everybody whom that rollback wakes and nobody who is active only with or only without the earlier upload, the states stay in step; otherwise they can never come together again |
| ProjectUndo.OneSlotExact | src/database/migrations/1781720913455-update-projects-upload-evaluators.ts:443-457 | Rolling back the first of two lists leaves the second one as if it were alone iff the first deactivated nobody and added nobody whom the second lists |
| ProjectUndo.FileExact | src/database/migrations/1781806379373-remove-section-code-from-projects-upload.ts:244-371 | The same for all groups of a later file, also for projects that the earlier upload created, and for files that fail without it |
| ProjectUndo.RollbackCommutes | src/database/migrations/1781720913455-update-projects-upload-evaluators.ts:443-468 | A rollback right after a later file gives the tables of that file alone iff the file is safe |
| ProjectUndo.FileSafeAtOnce | src/database/migrations/1781806379373-remove-section-code-from-projects-upload.ts:259-371 | For a file that names each project once, safety can be read off the tables before the file, slot by slot |
| ProjectRuns.UndoExact | src/database/migrations/1781720913455-update-projects-upload-evaluators.ts:443-468 | Rolling back any upload of a history, however old, leaves exactly what the other uploads give, and they can all be loaded without it, iff each later upload is safe |
| ProjectRuns.AnyOrderTheorem | src/database/migrations/1781720913455-update-projects-upload-evaluators.ts:427-468 | Over every run whose accepted rollbacks, in any order, take no upload that a later one depends on, the tables are those of the survivors |
| ProjectRuns.UndoLastRestores | src/database/migrations/1781720913455-update-projects-upload-evaluators.ts:443-468 | Undoing the latest survivor gives the tables from before that upload |
| ProjectRuns.LifoTheorem | src/database/migrations/1781720913455-update-projects-upload-evaluators.ts:443-468 | Over every last-in-first-out run the tables are those of the survivors, active rows carry no mark, and at most one is active per project, professor and type |
| Projects.RollbackKeepsOneIff | src/database/migrations/1781720913455-update-projects-upload-evaluators.ts:443-448 | Rolling back any upload in any order keeps active rows single iff no row it deactivated has been replaced since |
| ProjectRuns.OutOfOrderBreaksOneActive | src/database/migrations/1781720913455-update-projects-upload-evaluators.ts:443-457 | Two files loaded in order and the first one rolled back: a professor is active twice |
| ProjectRuns.OutOfOrderLosesEvaluator | src/database/migrations/1781720913455-update-projects-upload-evaluators.ts:443-457 | Two files that name the same professor: rolling back the first breaks no rule, and the evaluator of the second is lost |
| Projects.ProjectTables.ReconcileSlot | src/database/migrations/1781806379373-remove-section-code-from-projects-upload.ts:340-368 | UPDATE and the INSERT, professor by professor, are the reconciliation of one type |
| Projects.ProjectTables.LoadOne | src/database/migrations/1781806379373-remove-section-code-from-projects-upload.ts:271-370 | One turn of the outer loop; it fails iff the code belongs to a project outside the period |
| ProjectEffects.GroupLoaded | src/database/migrations/1781806379373-remove-section-code-from-projects-upload.ts:271-370 | It fails iff the code belongs to a project without a student in the period; otherwise exactly the professors in the cell of each of the five types evaluate, rows of other projects and types stay, and the project is found, or created with its names and students |
| ProjectEffects.FileLoaded | src/database/migrations/1781806379373-remove-section-code-from-projects-upload.ts:259-371 | After a whole file the last group of a project decides who evaluates it, for each of the five types |
| ProjectEffects.FileElsewhere | src/database/migrations/1781806379373-remove-section-code-from-projects-upload.ts:259-371 | Projects that no group names, and types beyond the five, keep their evaluators |
| Projects.ProjectTables.LoadAll | src/database/migrations/1781806379373-remove-section-code-from-projects-upload.ts:259-371 | The outer loop over the projects, which stops where UNIQUE (code) is violated |
| Projects.ProjectTables.UploadFile | src/database/migrations/1781806379373-remove-section-code-from-projects-upload.ts:244-371 | The whole upload is one transaction: on errors or a violated UNIQUE nothing changes |
| Projects.ProjectTables.RollbackUpload | src/database/migrations/1781720913455-update-projects-upload-evaluators.ts:427-468 | The five statements of the rollback have the effect of the model's rollback; it is refused for unknown logs and evaluated projects only |
| StudyPlans.RowLoadedIff | src/database/migrations/1779582362000-harden-upload-length-validations-and-remove-staff-email.ts:167-194 | A row reaches the table iff its course code, as spelled, was there before or is the spelling that DISTINCT ON picked |
| StudyPlans.LoadExact | src/database/migrations/1779582362000-harden-upload-length-validations-and-remove-staff-email.ts:117-196 | Plans and picked courses that are there stay and the others are new; every plan is offered in the period; plan courses are added for exactly the rows whose course is stored as spelled |
| StudyPlans.LostToAnotherSpelling | src/database/migrations/1779582362000-harden-upload-length-validations-and-remove-staff-email.ts:167-194 | A lost row always has another row in the file that spells the same course differently and was picked instead |
| StudyPlans.CaseVariantIsLost | src/database/migrations/1779582362000-harden-upload-length-validations-and-remove-staff-email.ts:167-194 | A validated file spelling a course in two ways that agree after lower loses a row that is reported as loaded |
| StudyPlans.RollbackIsSafe | src/database/migrations/1778372762000-initial-migration.ts:813-834 | An accepted rollback violates no foreign key and removes offerings only of plans that go with it |
| StudyPlans.UploadThenRollback | src/database/migrations/1778372762000-initial-migration.ts:829-834 | Directly after its upload a rollback is accepted and restores plans, courses and plan courses, leaving at most empty offerings of older plans |
| StudyPlans.AcceptsAfterLoad | src/database/migrations/1778372762000-initial-migration.ts:816-827 | After one more upload the guard holds iff it held before and no loaded row hangs off a course or plan of the older upload |
| StudyPlans.RollbackCommutes | src/database/migrations/1778372762000-initial-migration.ts:816-834 | An accepted rollback commutes with a later upload iff that file names none of its plans |
| StudyPlans.PlanOfLostRowTaken | src/database/migrations/1778372762000-initial-migration.ts:816-834 | A later upload whose only row for a plan was lost to another spelling does not protect the plan: the rollback takes it |
| StudyPlans.PlansApart | src/database/migrations/1778372762000-initial-migration.ts:820-825 | When each plan of a file keeps a row, by a picked or an already stored spelling, an accepted rollback shares no plan with it |
| StudyPlans.ErasesExactly | src/database/migrations/1778372762000-initial-migration.ts:829-834 | An accepted rollback of any upload gives what the others alone would have given, but for empty offerings, iff no later file names one of its plans |
| StudyPlans.RollbackErases | src/database/migrations/1778372762000-initial-migration.ts:829-834 | The same with the history that is left, which is one of validated files again |
| StudyPlans.StepKeepsOk | src/database/migrations/1778372762000-initial-migration.ts:801-834 | Every step that takes no plan of a later file keeps the foreign keys and the replay of the survivors |
| StudyPlans.StudyPlanReplay | src/database/migrations/1778372762000-initial-migration.ts:801-834 | The same over every run |
| StudyPlans.StudyPlanTables.UploadFile | src/database/migrations/1779582362000-harden-upload-length-validations-and-remove-staff-email.ts:117-196 | The four INSERT statements are one upload of the model |
| StudyPlans.StudyPlanTables.RollbackUpload | src/database/migrations/1778372762000-initial-migration.ts:801-834 | The four DELETE statements, in their order, are the rollback of the model; refused exactly by the guards |
| Rubrics.CheckRows | src/database/migrations/1781701447802-add-program-code-to-rubrics-upload.ts:101-107 | The loop reports exactly the rows whose numeric minimum exceeds their numeric maximum |
| Rubrics.Sweep | src/database/migrations/1781701447802-add-program-code-to-rubrics-upload.ts:256-282 | The loop with the previous maximum reports the adjacent overlaps of a scan |
| Rubrics.SweepSound | src/database/migrations/1781701447802-add-program-code-to-rubrics-upload.ts:261-282 | A scan without a finding has pairwise disjoint intervals, whatever bounds are missing |
| Rubrics.SweepExact | src/database/migrations/1781701447802-add-program-code-to-rubrics-upload.ts:261-282 | Whatever bounds are missing: no finding iff every criterion of the scan ends before each later one begins |
| Rubrics.WronglyReportedExactly | src/database/migrations/1781701447802-add-program-code-to-rubrics-upload.ts:264-275 | Disjoint criteria are reported as overlapping iff the later one begins no higher than the earlier one ends, and either of the two ends before it begins once missing bounds count as 0, or the later one lacks its minimum and lies below |
| Rubrics.DisjointRefused | src/database/migrations/1781701447802-add-program-code-to-rubrics-upload.ts:261-282 | A scan of disjoint intervals is refused iff it has such a pair |
| Rubrics.SweepOfTidy | src/database/migrations/1781701447802-add-program-code-to-rubrics-upload.ts:261-282 | With all minima given and no hollow interval: no finding iff the intervals are pairwise disjoint |
| Rubrics.OrderIndependent | src/database/migrations/1781701447802-add-program-code-to-rubrics-upload.ts:256-260 | An accepted scan would be accepted in every order the query may choose iff rows that tie, but the first, are hollow |
| Rubrics.OrderDecides | src/database/migrations/1781701447802-add-program-code-to-rubrics-upload.ts:256-282 | Two rows without a minimum that are accepted in one order of the query and reported in the other |
| Rubrics.MissingMinimumMisjudged | src/database/migrations/1781701447802-add-program-code-to-rubrics-upload.ts:264-275 | A missing minimum sorts last but counts as 0, so disjoint criteria are reported |
| Rubrics.MissingMaximumMisjudged | src/database/migrations/1781701447802-add-program-code-to-rubrics-upload.ts:101-107 | A missing maximum escapes the row check, counts as 0, and is reported as an overlap |
| Rubrics.NegativeBefore | src/database/migrations/1781701447802-add-program-code-to-rubrics-upload.ts:264-275 | Before a row without minimum an accepted scan has only negative maxima |
| Rubrics.ChoiceBounded | src/database/migrations/1781701447802-add-program-code-to-rubrics-upload.ts:286-295 | No choice of one criterion for each question scores more than the total |
| Rubrics.BestChoice | src/database/migrations/1781701447802-add-program-code-to-rubrics-upload.ts:286-295 | Some choice scores the total |
| Rubrics.RoundsTo20 | src/database/migrations/1781701447802-add-program-code-to-rubrics-upload.ts:297 | ROUND to six places gives 20 exactly on [19.9999995, 20.0000005) |
| Rubrics.TotalExact | src/database/migrations/1781701447802-add-program-code-to-rubrics-upload.ts:286-300 | The total passes iff the best possible score rounds to 20 |
| Rubrics.SixDecimalsExact | src/database/migrations/1781701447802-add-program-code-to-rubrics-upload.ts:286-300 | With at most six decimals, iff it is 20 |
| Rubrics.Judge | src/database/migrations/1781701447802-add-program-code-to-rubrics-upload.ts:101-302 | Validation in its order: row checks, missing outcome or question, aborting cast, then overlaps and total |
| RubricVerdicts.CapstoneExactly | src/database/migrations/1781701447802-add-program-code-to-rubrics-upload.ts:101-243 | A capstone EB rubric is accepted iff no row has its minimum above its maximum, every row has an outcome and no minimum is empty, whatever the questions, the intervals and the total |
| RubricVerdicts.RaisedMeans | src/database/migrations/1781701447802-add-program-code-to-rubrics-upload.ts:200-434 | The upload aborts iff no row is inverted, none lacks its outcome (capstone EB) or question (the others), and some minimum is empty |
| RubricVerdicts.FindingsMean | src/database/migrations/1781701447802-add-program-code-to-rubrics-upload.ts:101-302 | Unless it aborts, a rubric of either kind gets exactly the findings it deserves, with their rows |
| Rubrics.AcceptedSound | src/database/migrations/1781701447802-add-program-code-to-rubrics-upload.ts:245-283 | No accepted file has overlapping intervals under one question or outcome |
| Rubrics.AcceptedExactly | src/database/migrations/1781701447802-add-program-code-to-rubrics-upload.ts:245-302 | A rubric is accepted iff every row has a question and ordered bounds, no criterion of a scan reaches to where a later one begins, and the best score rounds to 20 |
| Rubrics.AcceptedTidy | src/database/migrations/1781701447802-add-program-code-to-rubrics-upload.ts:245-302 | With all minima given, no hollow interval and six decimals: iff every row has a question, intervals picked for a question are disjoint, and 20 is the best score |
| Rubrics.RubricTables.Upload | src/database/migrations/1781701447802-add-program-code-to-rubrics-upload.ts:245-447 | A judged-clean rubric stores one question for each group with the criteria of its query; any other stores nothing |
| RubricVerdicts.StoredExact | src/database/migrations/1781701447802-add-program-code-to-rubrics-upload.ts:369-447 | One question for each group, in order and with the upload, and as its criteria, each as often, the rows that share its question or its outcome |
| Rubrics.StoredTotalExact | src/database/migrations/1781701447802-add-program-code-to-rubrics-upload.ts:369-447 | The stored maxima add up to at least the checked total, and to exactly it iff no question picks a row that ends above all of its own |
| Rubrics.GuestsOfTidy | src/database/migrations/1781701447802-add-program-code-to-rubrics-upload.ts:369-447 | With all minima given and no hollow interval: iff no two questions share an outcome or a text |
| Rubrics.StoredTotalCanExceed20 | src/database/migrations/1781701447802-add-program-code-to-rubrics-upload.ts:418-445 | A file that passes with 20 and whose stored questions add up to 24 |
| Charts.Validate | src/database/migrations/1781649412764-reject-chart-upload-email-mismatch-for-linked-user.ts:41-180 | The validation loops report exactly the findings of the file |
| Charts.ValidExactly | src/database/migrations/1781649412764-reject-chart-upload-email-mismatch-for-linked-user.ts:41-180 | No finding iff codes differ after trim and lower, every named parent is in the file, professors are known, and the checks of emails and entities found nothing |
| ChartColumns.FindingsMean | src/database/migrations/1781649412764-reject-chart-upload-email-mismatch-for-linked-user.ts:41-180 | A file gets exactly the findings that its cells deserve, each with its row |
| Charts.ParentUnique | src/database/migrations/1781649412764-reject-chart-upload-email-mismatch-for-linked-user.ts:41-55 | In a valid file a parent code names exactly one row |
| Charts.CodeFindsNode | src/database/migrations/1781649412764-reject-chart-upload-email-mismatch-for-linked-user.ts:231-256 | While the passes run, the code in extra finds the node of its row and no other |
| Charts.WireRow | src/database/migrations/1781649412764-reject-chart-upload-email-mismatch-for-linked-user.ts:247-256 | One row of the second pass sets the root of that row's node only |
| Charts.LastPasses | src/database/migrations/1781649412764-reject-chart-upload-email-mismatch-for-linked-user.ts:258-265 | The third pass and the removal of the code leave one node for each row, under its parent or the school |
| Charts.ParentsExact | src/database/migrations/1781649412764-reject-chart-upload-email-mismatch-for-linked-user.ts:216-265 | Each row has one node; its root is the school iff the parent code is blank, and otherwise the one node of this upload with that code |
| ChartColumns.NodeColumns | src/database/migrations/1781649412764-reject-chart-upload-email-mismatch-for-linked-user.ts:216-265 | Each node belongs to the staff of the professor that its row names, holds the content and the upload, keeps no code, and hangs under the node of the row whose code its parent cell reads, or under the school; nodes from before stay |
| Charts.ChartTable.Upload | src/database/migrations/1781649412764-reject-chart-upload-email-mismatch-for-linked-user.ts:41-267 | No finding iff the file is valid; then the passes give the final table directly, and otherwise nothing changes |
| Charts.ChartTable.InsertNodes | src/database/migrations/1781649412764-reject-chart-upload-email-mismatch-for-linked-user.ts:216-245 | The first pass gives every row of a valid file one new node, with its code and without a root |
| Charts.ChartTable.WireParents | src/database/migrations/1781649412764-reject-chart-upload-email-mismatch-for-linked-user.ts:247-256 | The second pass, row by row through the codes, wires every node to its parent |
| Charts.ChartTable.Rollback | src/database/migrations/1778372762000-initial-migration.ts:1304-1315 | Clearing links and deleting removes exactly the upload's nodes, or nothing when refused |
| Charts.UploadThenRollback | src/database/migrations/1778372762000-initial-migration.ts:1313-1315 | A rollback straight after the upload restores the table |
| Charts.RollbackCommutes | src/database/migrations/1778372762000-initial-migration.ts:1313-1315 | Rolling back one upload and making another commute |
| Charts.UnderSchool | src/database/migrations/1781649412764-reject-chart-upload-email-mismatch-for-linked-user.ts:174-180 | A node hangs under the school, over some number of links, iff its parent codes lead to a top-level row |
| Charts.CycleNeverEnds | src/database/migrations/1781649412764-reject-chart-upload-email-mismatch-for-linked-user.ts:174-180 | A file in which every row has a parent leads nowhere |
| Charts.CycleAccepted | src/database/migrations/1781649412764-reject-chart-upload-email-mismatch-for-linked-user.ts:174-180 | Two rows that are each other's parents pass the checks and never reach the school |
| FormulaTokens.Tokenize | src/libs/formula.functions.ts:28-91 | The loop gives the tokens of the string, or fails where they are undefined |
| FormulaTokens.DecimalValue | src/libs/formula.functions.ts:66-77 | A decimal numeral is its whole part plus its fraction over a power of ten |
| FormulaTokens.DigitAppended | src/libs/formula.functions.ts:66-77 | A digit counts what it says, and one more digit of a whole number counts the number before ten times |
| FormulaTokens.FractionAppended | src/libs/formula.functions.ts:66-77 | A point after a whole number changes nothing, and one more digit after the point counts a tenth of the place before |
| FormulaTokens.BareName | src/libs/formula.functions.ts:79-85 | A maximal run of name characters is one reference |
| FormulaTokens.HyphenIsPartOfAName | src/libs/formula.functions.ts:79-85 | A-B is one reference |
| FormulaLexemes.Skipped | src/libs/formula.functions.ts:35-38 | The 25 characters of white space are skipped |
| FormulaLexemes.SignsRead | src/libs/formula.functions.ts:40-50 | The four operators and the two parentheses are tokens of their own |
| FormulaLexemes.BracketedName | src/libs/formula.functions.ts:52-64 | A bracketed reference is read without the white space around it, whatever else it holds |
| FormulaLexemes.BadBrackets | src/libs/formula.functions.ts:52-60 | Blank brackets and unclosed ones are errors |
| FormulaLexemes.NumeralRead | src/libs/formula.functions.ts:66-77 | A longest run of digits and points is one number, or an error iff it has two points or no digit |
| FormulaLexemes.NameRead | src/libs/formula.functions.ts:79-85 | A longest run of letters, digits, underscores and hyphens that starts with a letter or underscore is one reference |
| FormulaLexemes.Unexpected | src/libs/formula.functions.ts:87 | Any other character is an error |
| FormulaGrammar.ParseExact | src/libs/formula.functions.ts:101-176 | The parser returns a tree iff the whole token sequence is derived by that tree, with left-associative operators and precedence |
| FormulaGrammar.Unambiguous | src/libs/formula.functions.ts:113-138 | No token sequence has two derivations |
| FormulaParser.Parser.Parse | src/libs/formula.functions.ts:101-107 | parse returns the value of the one tree of all the tokens, and fails if there is none, a reference is unresolved or a divisor is zero |
| FormulaParser.Parser.ParseExpression | src/libs/formula.functions.ts:113-122 | The loop over sums evaluates the tree it reads and stops at the right token |
| FormulaParser.Parser.ParseTerm | src/libs/formula.functions.ts:124-138 | The same for products, failing on a zero divisor |
| FormulaParser.Parser.ParseFactor | src/libs/formula.functions.ts:140-148 | The same for signs |
| FormulaParser.Parser.ParsePrimary | src/libs/formula.functions.ts:150-176 | The same for numbers, references and parentheses |
| FormulaParser.EvaluateFormula | src/libs/formula.functions.ts:201-215 | evaluateFormula is the value of the formula's tree in the scope |
| FormulaPrinter.Arithmetic | src/libs/formula.functions.ts:113-138 | The strings [a] + [b], [a] - [b], [a] * [b] and [a] / [b] have the sum, difference, product and quotient of the two grades, and the last fails for a zero divisor |
| FormulaPrinter.Precedence | src/libs/formula.functions.ts:113-138 | [a] - [b] * [c] subtracts the product, [a] * [b] - [c] subtracts from it, and [a] - [b] - [c] groups to the left |
| FormulaParser.AssertValidFormula | src/libs/formula.functions.ts:192-194 | assertValidFormula accepts iff the formula has a value with every reference 1 |
| FormulaParser.ExtractFormulaReferences | src/libs/formula.functions.ts:184-189 | The references of the tokens, or a failure of the tokenizer |
| FormulaParser.DistinctMembers | src/libs/formula.functions.ts:184-189 | The list has exactly the names that occur |
| FormulaParser.DistinctOrdered | src/libs/formula.functions.ts:184-189 | No name twice, and names in the order of their first occurrences |
| FormulaParser.Locality | src/libs/formula.functions.ts:184-215 | A successful evaluation binds every listed reference, and only listed references matter |
| FormulaParser.OnlyZeroDivisorFails | src/libs/formula.functions.ts:131-132 | With all references bound, evaluation fails iff some divisor is zero |
| FormulaParser.AcceptedExactly | src/libs/formula.functions.ts:192-194 | Validation accepts iff the formula parses and has no zero divisor in any scope that gives each of its references 1, and it computes the value that the formula has there |
| FormulaParser.ValidationSound | src/libs/formula.functions.ts:192-215 | An accepted formula with all references bound fails iff a divisor is zero in that scope |
| FormulaParser.ValidationIncomplete | src/libs/formula.functions.ts:192-194 | A derivation that evaluates and is not accepted |
| FormulaPrinter.RejectedThoughDefined | src/libs/formula.functions.ts:192-215 | The string [A] / ([B] - [C]) has its value wherever B and C differ, and is always rejected |
| FormulaPrinter.ShapeDerives | src/libs/formula.functions.ts:113-176 | Parentheses only where precedence needs them give a tree of the grammar |
| FormulaPrinter.ShapeMeans | src/libs/formula.functions.ts:113-176 | That tree has the value of the abstract syntax |
| FormulaPrinter.LexPrint | src/libs/formula.functions.ts:28-91 | Tokenizing a printed formula gives the tokens of that tree, whatever follows |
| FormulaPrinter.PrintThenEvaluate | src/libs/formula.functions.ts:28-215 | Printing any abstract syntax tree and evaluating the string gives the tree's value |
| Gate.DropAt | src/libs/concurrency-gate.ts:107-110 | Dropping removes the first occurrence and nothing else |
| Gate.ConcurrencyGate.constructor | src/libs/concurrency-gate.ts:49-54 | The three bounds are clamped and the gate starts empty |
| Gate.ConcurrencyGate.AcquirePermit | src/libs/concurrency-gate.ts:69-93 | Enter, overflow or queue a new waiter, as the model says |
| Gate.ConcurrencyGate.ReleasePermit | src/libs/concurrency-gate.ts:95-105 | Hands the permit to the first waiter that is not settled, or returns it |
| Gate.ConcurrencyGate.DropWaiter | src/libs/concurrency-gate.ts:107-110 | indexOf and splice remove exactly that waiter |
| Gate.ConcurrencyGate.TimerFires | src/libs/concurrency-gate.ts:83-88 | A settled waiter is left alone; any other is settled, dropped and rejected |
| GateRuns.StepKeepsInv | src/libs/concurrency-gate.ts:69-110 | Every enabled step keeps the invariant and is a step of a FIFO counting semaphore |
| GateRuns.DropIsRemove | src/libs/concurrency-gate.ts:107-110 | On a queue without repetitions, dropping the first occurrence removes the caller |
| GateRuns.HandOff | src/libs/concurrency-gate.ts:95-103 | With a queue, a task that ends hands its permit to the head, which was waiting and unsettled |
| GateRuns.TimeoutFifo | src/libs/concurrency-gate.ts:83-88 | A timeout keeps grants and queue in the order of arrival of the others |
| GateRuns.GateRefinesSemaphore | src/libs/concurrency-gate.ts:56-110 | Over every interleaving the gate is that semaphore: counts, bounds, order of arrival, answers in time |
| GateRuns.OneAnswer | src/libs/concurrency-gate.ts:83-101 | An answer is never replaced: granted or timed out, once |
| GateRuns.Quiescence | src/libs/concurrency-gate.ts:95-105 | When no task runs, no permit is held and nobody waits |
| CaseKeys.CamelRoundTrip | src/libs/case.functions.ts:15-21 | snakeToCamel undoes camelToSnake on a key iff no underscore is directly followed by an ASCII letter or digit |
| CaseKeys.SnakeRoundTrip | src/libs/case.functions.ts:15-21 | camelToSnake undoes snakeToCamel iff the key has no capital, and underscores only singly before lower-case letters |
| CaseKeys.CamelFixpoint | src/libs/case.functions.ts:12-17 | snakeToCamel changes a key iff it has an underscore before a lower-case letter or digit |
| CaseKeys.SnakeFixpoint | src/libs/case.functions.ts:19-21 | camelToSnake changes a key iff it has a capital |
| CaseKeys.CamelIdempotent | src/libs/case.functions.ts:15-17 | snakeToCamel is idempotent |
| CaseKeys.SnakeIdempotent | src/libs/case.functions.ts:19-21 | camelToSnake is idempotent |
| CaseKeys.SnakeCharacters | src/libs/case.functions.ts:13-21 | camelToSnake writes an underscore and the small letter for each ASCII capital, wherever it stands, and keeps every other character |
| CaseKeys.CamelOfSegments | src/libs/case.functions.ts:12-17 | snakeToCamel drops a run of underscores before a small letter or digit, makes the letter a capital, and keeps anything else |
| CaseKeys.CamelSplit | src/libs/case.functions.ts:15-17 | snakeToCamel converts piece by piece, and keeps underscores at the end |
| CaseKeys.SqlAgrees | src/database/migrations/1781188404691-normalize-upload-extra-keys-to-snake-case.ts:1867-1872 | The SQL helper renames an ASCII key as camelToSnake does |
| CaseKeys.CamelizeKeys | src/libs/case.functions.ts:30-44 | The walker renames every key at every depth, in insertion order, later collisions overwriting |
| CaseKeys.SnakeizeKeys | src/libs/case.functions.ts:55-69 | The same for snake_case |
| CaseKeys.WalkKeys | src/libs/case.functions.ts:36-40 | What holds of all renamed keys holds throughout the result, and no object has a key twice |
| CaseKeys.LastWins | src/libs/case.functions.ts:36-40 | Where renamed keys collide the last entry wins: an object has an entry exactly for each renamed key, with the walked value of the last entry renamed to it |
| CaseKeys.FirstPlaces | src/libs/case.functions.ts:36-40 | Keys stand in the order of the first entries renamed to them |
| CaseKeys.WalkBack | src/libs/case.functions.ts:30-69 | If one renaming inverts another on all keys of a value, the walkers invert each other on it |
| CaseKeys.NestedRoundTrip | src/libs/case.functions.ts:30-69 | camelizeKeys undoes snakeizeKeys on a nested value iff every key at every depth survives its own round trip |
| CaseKeys.NestedWriteBack | src/libs/case.functions.ts:30-69 | snakeizeKeys undoes camelizeKeys on a nested value iff every key at every depth has no capital, no underscore before a digit, and only single underscores before lower-case letters |
| CaseKeys.WalkersIdempotent | src/libs/case.functions.ts:30-69 | Both walkers are idempotent, also where keys have collided |

## Left out

- Redefinitions of these functions by later migrations (study-plan identity by program and period, unique enrollment per period, section checks against study plans, the consolidated evaluation feature, chart ancestors): the model follows the versions cited above.
- Outcomes, articulation and grades uploads: they use the generic table of `UndoReplay`; their own joins and validations are not written out.
- Validation messages of single fields, except those of sections, rubric rows and charts: other files are valid or not as a whole.
- Email consistency, title and entity checks of charts, and `staff_email` stamped by a chart upload, which its rollback does not restore: findings and flags are inputs.
- The queries that group a project file and pick a section for each student: their result is an input.
- Rubrics of several courses in one file, the lookup of capstone rubrics, translated texts, and the rollback of a rubric: one rubric is taken at a time. Stored bounds are exact, without the column's rounding to six decimals.
- Staff undo entries written before emails were recorded, and professors re-pointed by older uploads.
- Serial row ids beyond staff, chart nodes, project students and evaluators: other rows are named by business key.
- Timestamps, `is_active` flags outside evaluators, upload status types, and edits by other services between uploads.
- Log ids that undone transactions use up: counted for student uploads only, elsewhere the sequence stays; ids are fresh either way.
- Concurrent transactions: uploads and rollbacks run one after another.
- References from other tables that block a rollback: one boolean for each rollback.
- Floating-point rounding, overflow and non-finite numbers in formulas: numbers are reals, so the checks for finite values never fail.
- Case folding outside ASCII, collations, and strings as UTF-16 code units: `lower` and `upper` are arbitrary functions, and strings are sequences of characters.
- Integer-like keys, which JavaScript moves to the front of an object, the key `__proto__`, and jsonb's own key order: objects keep insertion order.
- `snake_case_jsonb_keys` and `camel_case_jsonb_keys` as walkers over jsonb values: only how the first renames a key is modelled.
- Promises of the gate beyond grant, overflow and timeout: the task itself, its result, and `unref` of timers.
- FormulaParser.EvaluateFormula: a scope holds reals only, so a null or non-finite entry is an absent one.
- ProjectRuns.AnyOrderTheorem: leaves out rollbacks of uploads that a later one depends on; `ProjectRuns.UndoExact` says that the others then cannot be loaded without it or give other tables.
- StudyPlans.RollbackErases: asks that no later file names a plan of the upload; `StudyPlans.ErasesExactly` says that this is exact.
- StudyPlans.StepKeepsOk: leaves out the same rollbacks as the run.
- StudyPlans.StudyPlanReplay: leaves out accepted rollbacks that take a plan of a later file; `StudyPlans.ErasesExactly` says that they leave something else.
- Staff.StaffReplay: leaves out accepted files that reach one staff row twice, whose effect is no single upload of a batch; `StaffFiles.StaffFilesReplay` covers them.
- StaffFiles.StaffFilesReplay: leaves out accepted rollbacks of such files; `StaffFiles.UndoneExact` says that they leave something else.
- Students.EnrolledStudents.UploadFile: the order in which one statement writes its rows is not modelled, so whether UNIQUE (email) fails midway through it is the input `aborts`; `StudentEmails.AnyOrderClashesIff` says when it cannot.
- Students.EnrolledStudents.RollbackUpload: the same for the pops, where the input is `blocked`; `EmailRollbacks.AnyOrderRestoresIff` says when it cannot.
- Rubrics.Judge: the lookups of program, course, existing rubric and outcomes are left out; the rows are those of one rubric.
- Rubrics.RubricTables.Upload: stores the questions of one rubric with their criteria, without its header row, translated texts and outcome ids.
- Charts.Validate: findings on emails, titles and entities are inputs of each row.
- Charts.ValidExactly: findings on emails, titles and entities are inputs of each row.
- Charts.ChartTable.Upload: the `staff_email` stamp on staff rows is left out.
- Projects.ProjectTables.LoadOne: the section chosen for each student and the cells are inputs; `ProjectCells` says what the cells are.
- Projects.ProjectTables.LoadAll: the grouping of the rows into projects is an input.
- Projects.ProjectTables.UploadFile: grouping and validation are inputs.
- StudyPlans.StudyPlanTables.UploadFile: which spelling of a course DISTINCT ON picks comes with the file, as the query leaves it open.
