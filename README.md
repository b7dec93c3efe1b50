# Academic records: a verified model of the service layer

The system keeps courses (Curso), subjects (Disciplina) and students (Aluno) in
four tables: CURSO, DISCIPLINA, ALUNO and the CURSO_DISCIPLINA join table. Three
services guard every change:

- course and subject names are exactly unique on create and on rename;
- a course with enrolled students cannot be removed;
- a subject still offered by a course cannot be removed;
- a student is created or transferred only into an existing course;
- a repeated student name only raises a warning.

The model has three layers.

- `AcademicStores.AcademicStore` (academic_store.dfy) holds the four tables as maps and a set,
  plus the identity counters. Its ghost `Valid()` states the integrity rules. Every
  service operation is a method that keeps `Valid()`. It returns a `Result`
  (`Ok | NotFound | DuplicateName | HasDependents`), standing in for the exceptions
  the Java code throws. Its `ensures` give the complete new state on success and an
  unchanged store on failure. Its `modifies` clause names the only tables it may touch.
  The read helpers are methods without a `modifies` clause. Each one returns the
  meaning of the repository query it calls.
- The repository queries are pure functions of the tables, each with lemmas that state
  what the query means:
  - `NameQueries` holds findByNome, ...ContainingIgnoreCase and findAllByOrderByNomeAsc,
    shared by the three repositories;
  - `CourseRepository`, `SubjectRepository` and `StudentRepository` hold the rest.
- `Entities` is the in-memory object graph. Courses, subjects and students are classes
  whose set fields the helper methods update in place. Two ghost predicates state the
  graph invariants: `Mirrored` (the two sides of CURSO_DISCIPLINA agree) and
  `Enrolled` (Curso.alunos agrees with Aluno.curso).

`Text` supplies the string semantics the queries and validators rely on:

- Java's `trim`;
- the `@NotBlank`/`@Size(max = 80)` constraint;
- substring matching;
- case folding;
- the lexicographic order;
- decimal rendering for the report.

`Scenarios` chains short sequences of service calls and proves their outcome from the contracts:

- adding a subject to a course twice has the same effect as adding it once;
- a course with students and a subject offered by a course are both protected;
- after a transfer the emptied course can be removed.

Only the service layer validates against the store. Name validation (`@Valid` on the
controllers) happens before a service is called, so the service methods place no
requirement on names. `Text.ValidName` and the entities' `HasValidName`/`Persistable`
state the column constraints on their own.

## Model

| member | source | states |
|---|---|---|
| AcademicStores.AcademicStore.Valid | sistema-academico/src/main/java/com/exemplo/sistemaacademico/service/CursoService.java:80-141 | The integrity rules the services keep: course names are pairwise distinct, subject names are pairwise distinct, every student's course exists, every link joins an existing course and an existing subject, and every id lies below its identity counter. |
| AcademicStores.AcademicStore.CreateCourse | sistema-academico/src/main/java/com/exemplo/sistemaacademico/service/CursoService.java:80-88 | Fails with DuplicateName exactly when some course already has that exact name, and then nothing changes. Otherwise it inserts one course under a fresh id (the old counter) and leaves every other course and table as it was. Name uniqueness is preserved. |
| AcademicStores.AcademicStore.UpdateCourse | sistema-academico/src/main/java/com/exemplo/sistemaacademico/service/CursoService.java:102-116 | NotFound exactly when the id is absent. DuplicateName exactly when the name changes and another course holds the new name. An unchanged name always succeeds. On success only that course's name changes. Uniqueness is preserved. |
| AcademicStores.AcademicStore.DeleteCourse | sistema-academico/src/main/java/com/exemplo/sistemaacademico/service/CursoService.java:128-141 | NotFound when absent. HasDependents exactly when countAlunosPorCurso(id) > 0. Otherwise the course goes, together with its association rows, and the students are untouched. |
| AcademicStores.AcademicStore.AddSubjectToCourse | sistema-academico/src/main/java/com/exemplo/sistemaacademico/service/CursoService.java:153-167 | NotFound exactly when either id is missing. Otherwise the pair is associated afterwards. An existing association leaves the store unchanged. |
| AcademicStores.AcademicStore.RemoveSubjectFromCourse | sistema-academico/src/main/java/com/exemplo/sistemaacademico/service/CursoService.java:177-186 | NotFound exactly when either id is missing. Otherwise the pair is not associated afterwards, whether or not it was, and no other link changes. |
| AcademicStores.AcademicStore.ListCourses | sistema-academico/src/main/java/com/exemplo/sistemaacademico/service/CursoService.java:43-45 | Returns findAllByOrderByNomeAsc of the course table, without changing the store. |
| AcademicStores.AcademicStore.GetCourse | sistema-academico/src/main/java/com/exemplo/sistemaacademico/service/CursoService.java:54-56 | Finds a course exactly when the id is present, and returns its name. |
| AcademicStores.AcademicStore.SearchCourses | sistema-academico/src/main/java/com/exemplo/sistemaacademico/service/CursoService.java:66-68 | Returns findByNomeContainingIgnoreCase over courses. |
| AcademicStores.AcademicStore.CoursesWithSubject | sistema-academico/src/main/java/com/exemplo/sistemaacademico/service/CursoService.java:195-197 | Returns findCursosComDisciplina. |
| AcademicStores.AcademicStore.CountStudentsOfCourse | sistema-academico/src/main/java/com/exemplo/sistemaacademico/service/CursoService.java:206-208 | Returns countAlunosPorCurso, the same count AlunoService.contarAlunosPorCurso gives. |
| AcademicStores.AcademicStore.CoursesWithoutStudents | sistema-academico/src/main/java/com/exemplo/sistemaacademico/service/CursoService.java:217-219 | Returns findCursosSemAlunos. |
| AcademicStores.AcademicStore.CreateSubject | sistema-academico/src/main/java/com/exemplo/sistemaacademico/service/DisciplinaService.java:77-84 | Fails with DuplicateName exactly when a subject with that exact name exists, and then nothing changes. Otherwise it inserts exactly one subject under a fresh id. Uniqueness is preserved. |
| AcademicStores.AcademicStore.UpdateSubject | sistema-academico/src/main/java/com/exemplo/sistemaacademico/service/DisciplinaService.java:99-113 | NotFound exactly when absent. A changed name held by another subject is rejected. An unchanged name always succeeds. On success only that subject's name changes. |
| AcademicStores.AcademicStore.DeleteSubject | sistema-academico/src/main/java/com/exemplo/sistemaacademico/service/DisciplinaService.java:126-139 | NotFound when absent. HasDependents exactly when countCursosPorDisciplina(id) > 0. Otherwise only that subject is removed. |
| AcademicStores.AcademicStore.ListSubjects | sistema-academico/src/main/java/com/exemplo/sistemaacademico/service/DisciplinaService.java:39-41 | Returns findAllByOrderByNomeAsc of the subject table. |
| AcademicStores.AcademicStore.GetSubject | sistema-academico/src/main/java/com/exemplo/sistemaacademico/service/DisciplinaService.java:50-52 | Finds a subject exactly when the id is present. |
| AcademicStores.AcademicStore.SearchSubjects | sistema-academico/src/main/java/com/exemplo/sistemaacademico/service/DisciplinaService.java:63-65 | Returns findByNomeContainingIgnoreCase over subjects. |
| AcademicStores.AcademicStore.SubjectsOfCourse | sistema-academico/src/main/java/com/exemplo/sistemaacademico/service/DisciplinaService.java:149-151 | Returns findDisciplinasPorCurso, without changing the store. |
| AcademicStores.AcademicStore.CountCoursesOfSubject | sistema-academico/src/main/java/com/exemplo/sistemaacademico/service/DisciplinaService.java:162-164 | Returns countCursosPorDisciplina. |
| AcademicStores.AcademicStore.SubjectsWithoutCourses | sistema-academico/src/main/java/com/exemplo/sistemaacademico/service/DisciplinaService.java:174-176 | Returns findDisciplinasSemCursos. |
| AcademicStores.AcademicStore.SubjectsWithManyCourses | sistema-academico/src/main/java/com/exemplo/sistemaacademico/service/DisciplinaService.java:186-188 | Returns findDisciplinasComMultiplosCursos. |
| AcademicStores.AcademicStore.CreateStudent | sistema-academico/src/main/java/com/exemplo/sistemaacademico/service/AlunoService.java:110-126 | NotFound exactly when the course is absent, and then nothing is saved. Otherwise one student with the resolved course is inserted under a fresh id. A name already in use is never rejected: it only sets the warning flag, and the flag is set exactly in that case. |
| AcademicStores.AcademicStore.UpdateStudent | sistema-academico/src/main/java/com/exemplo/sistemaacademico/service/AlunoService.java:139-145 | NotFound exactly when absent. Otherwise only the student's name changes and the course is kept. |
| AcademicStores.AcademicStore.TransferStudent | sistema-academico/src/main/java/com/exemplo/sistemaacademico/service/AlunoService.java:159-169 | NotFound exactly when the student or the destination is absent. On success the student's course is the destination, the name is kept, and the student belongs to exactly one course. |
| AcademicStores.AcademicStore.DeleteStudent | sistema-academico/src/main/java/com/exemplo/sistemaacademico/service/AlunoService.java:181-186 | NotFound when absent. Otherwise exactly that student is removed and nothing else changes. |
| AcademicStores.AcademicStore.ListStudents | sistema-academico/src/main/java/com/exemplo/sistemaacademico/service/AlunoService.java:43-45 | Returns AlunoRepository.findAllByOrderByNomeAsc. |
| AcademicStores.AcademicStore.GetStudent | sistema-academico/src/main/java/com/exemplo/sistemaacademico/service/AlunoService.java:54-56 | Finds a student exactly when the id is present, with its row. |
| AcademicStores.AcademicStore.SearchStudents | sistema-academico/src/main/java/com/exemplo/sistemaacademico/service/AlunoService.java:67-69 | Returns findByNomeContainingIgnoreCase over student names. |
| AcademicStores.AcademicStore.StudentsOfCourse | sistema-academico/src/main/java/com/exemplo/sistemaacademico/service/AlunoService.java:80-82 | Returns findByCurso_IdCursoOrderByNomeAsc. |
| AcademicStores.AcademicStore.StudentsByCourseName | sistema-academico/src/main/java/com/exemplo/sistemaacademico/service/AlunoService.java:93-95 | Returns findAlunosPorNomeCurso. |
| AcademicStores.AcademicStore.SearchByStudentAndCourse | sistema-academico/src/main/java/com/exemplo/sistemaacademico/service/AlunoService.java:214-220 | Runs findByNomeAlunoAndNomeCurso on the two normalised filters. |
| AcademicStores.AcademicStore.CanEnroll | sistema-academico/src/main/java/com/exemplo/sistemaacademico/service/AlunoService.java:233-247 | validarMatricula is true exactly when the course exists. |
| AcademicStores.AcademicStore.StudentsPerCourseReport | sistema-academico/src/main/java/com/exemplo/sistemaacademico/service/AlunoService.java:258-270 | The report is the header followed by one line per course, in findAllByOrderByNomeAsc order, each with that course's student count. |
| AcademicStores.AcademicStore.AppendCourseLines | sistema-academico/src/main/java/com/exemplo/sistemaacademico/service/AlunoService.java:263-267 | The loop body appends, in order, exactly the line of each listed course. |
| AcademicStores.SearchPattern | sistema-academico/src/main/java/com/exemplo/sistemaacademico/service/AlunoService.java:216-217 | A null filter, or one that trims to "", becomes ""; any other filter becomes its trimmed text. |
| AcademicStores.ReportHeader | sistema-academico/src/main/java/com/exemplo/sistemaacademico/service/AlunoService.java:261 | The report's first line, followed by an empty line. |
| AcademicStores.ReportLine | sistema-academico/src/main/java/com/exemplo/sistemaacademico/service/AlunoService.java:265-266 | The line "Curso: <name> - <count> aluno(s)" followed by a newline. The count is in decimal. |
| AcademicStores.Concat | sistema-academico/src/main/java/com/exemplo/sistemaacademico/service/AlunoService.java:259-268 | The text the StringBuilder holds after the lines are appended in order. |
| AcademicStores.ReportLines | sistema-academico/src/main/java/com/exemplo/sistemaacademico/service/AlunoService.java:263-267 | Gives one line per listed course. Line k names course k and carries countAlunosPorCurso of that course. |
| AcademicStores.ConcatSnoc | sistema-academico/src/main/java/com/exemplo/sistemaacademico/service/AlunoService.java:265-266 | Appending a line to the builder yields the concatenation of one more line. |
| AcademicStores.SearchPatternMeaning | sistema-academico/src/main/java/com/exemplo/sistemaacademico/service/AlunoService.java:216-217 | A filter becomes its trimmed text. A null filter, or one made only of blanks, becomes "". |
| Scenarios.AddSubjectTwiceIsOnce | sistema-academico/src/main/java/com/exemplo/sistemaacademico/service/CursoService.java:153-167 | Calling adicionarDisciplina twice leaves the association table as one call does. |
| Scenarios.EnrolOne | sistema-academico/src/main/java/com/exemplo/sistemaacademico/service/AlunoService.java:110-126 | Creating a course, a subject, their link and a student yields exactly the expected four tables. |
| Scenarios.InUseIsProtected | sistema-academico/src/main/java/com/exemplo/sistemaacademico/service/CursoService.java:128-141 | A course with a student, a subject offered by a course and a reused course name are all refused, and the store is unchanged. |
| Scenarios.TransferFreesCourse | sistema-academico/src/main/java/com/exemplo/sistemaacademico/service/AlunoService.java:159-169 | After a transfer the old course can be removed, taking its links with it, and then the subject can be removed too. |
| NameQueries.Named | sistema-academico/src/main/java/com/exemplo/sistemaacademico/repository/CursoRepository.java:32 | findByNome returns the ids whose name equals the argument exactly. |
| NameQueries.NamedNonEmptyIff | sistema-academico/src/main/java/com/exemplo/sistemaacademico/repository/DisciplinaRepository.java:32 | findByNome finds something exactly when some row has that name. |
| NameQueries.NamedAtMostOne | sistema-academico/src/main/java/com/exemplo/sistemaacademico/repository/CursoRepository.java:32 | Under unique names, findByNome finds at most one row, which is why it can return Optional. |
| NameQueries.MatchingIgnoreCase | sistema-academico/src/main/java/com/exemplo/sistemaacademico/repository/CursoRepository.java:42 | A row is returned exactly when its name contains the argument after case folding. |
| NameQueries.NamedIsMatching | sistema-academico/src/main/java/com/exemplo/sistemaacademico/repository/CursoRepository.java:32-42 | An exact match is also a case-insensitive substring match. |
| NameQueries.MatchingEmpty | sistema-academico/src/main/java/com/exemplo/sistemaacademico/repository/AlunoRepository.java:43 | The empty pattern matches every row. |
| NameQueries.Before | sistema-academico/src/main/java/com/exemplo/sistemaacademico/repository/CursoRepository.java:86 | The listing order is ascending by name. Rows with equal names are taken in ascending id order. |
| NameQueries.BeforeAsymmetric | sistema-academico/src/main/java/com/exemplo/sistemaacademico/repository/CursoRepository.java:86 | The listing order (name, then id) is asymmetric. |
| NameQueries.BeforeTransitive | sistema-academico/src/main/java/com/exemplo/sistemaacademico/repository/CursoRepository.java:86 | The listing order is transitive. |
| NameQueries.BeforeTotal | sistema-academico/src/main/java/com/exemplo/sistemaacademico/repository/CursoRepository.java:86 | Any two distinct rows are ordered one way or the other. |
| NameQueries.BeforeOnRestriction | sistema-academico/src/main/java/com/exemplo/sistemaacademico/repository/CursoRepository.java:86 | Removing a row does not change the order of the rest. |
| NameQueries.FirstExists | sistema-academico/src/main/java/com/exemplo/sistemaacademico/repository/CursoRepository.java:86 | A non-empty table has a first row in name order. |
| NameQueries.FirstUnique | sistema-academico/src/main/java/com/exemplo/sistemaacademico/repository/CursoRepository.java:86 | At most one row comes first, so the listing is determined. |
| NameQueries.PrependFirst | sistema-academico/src/main/java/com/exemplo/sistemaacademico/repository/CursoRepository.java:86 | The first row followed by an ordered listing of the rest is an ordered listing of the whole table. |
| NameQueries.SortedByName | sistema-academico/src/main/java/com/exemplo/sistemaacademico/repository/CursoRepository.java:86 | findAllByOrderByNomeAsc lists every row of the table, with length equal to the table's size, in strictly ascending (name, id) order. |
| NameQueries.SortedByNameDistinct | sistema-academico/src/main/java/com/exemplo/sistemaacademico/repository/DisciplinaRepository.java:88 | Each row is listed once. |
| NameQueries.SortedByNameAscending | sistema-academico/src/main/java/com/exemplo/sistemaacademico/repository/DisciplinaRepository.java:88 | Names never descend along the listing. |
| CourseRepository.WithSubject | sistema-academico/src/main/java/com/exemplo/sistemaacademico/repository/CursoRepository.java:54-55 | Returns exactly the courses associated with the subject. |
| CourseRepository.WithoutStudents | sistema-academico/src/main/java/com/exemplo/sistemaacademico/repository/CursoRepository.java:76-77 | Returns exactly the courses whose student count is 0. |
| SubjectRepository.OfCourse | sistema-academico/src/main/java/com/exemplo/sistemaacademico/repository/DisciplinaRepository.java:54-55 | Returns exactly the subjects associated with the course. |
| SubjectRepository.OfCourseMirrorsWithSubject | sistema-academico/src/main/java/com/exemplo/sistemaacademico/repository/DisciplinaRepository.java:54-55 | d is among the course's subjects exactly when the course is among d's courses. |
| SubjectRepository.RowsOf | sistema-academico/src/main/java/com/exemplo/sistemaacademico/repository/DisciplinaRepository.java:66-67 | The join rows of the subject. |
| SubjectRepository.CourseCount | sistema-academico/src/main/java/com/exemplo/sistemaacademico/repository/DisciplinaRepository.java:66-67 | countCursosPorDisciplina counts the subject's join rows. It is 0 exactly when no course offers the subject. |
| SubjectRepository.ProjectionCard | sistema-academico/src/main/java/com/exemplo/sistemaacademico/repository/DisciplinaRepository.java:66-67 | Rows of one subject are as many as their distinct courses. |
| SubjectRepository.CourseCountIsCourses | sistema-academico/src/main/java/com/exemplo/sistemaacademico/repository/DisciplinaRepository.java:66-67 | countCursosPorDisciplina equals the number of courses linked to the subject. |
| SubjectRepository.WithoutCourses | sistema-academico/src/main/java/com/exemplo/sistemaacademico/repository/DisciplinaRepository.java:77-78 | Returns exactly the subjects with zero linked courses. |
| SubjectRepository.WithManyCourses | sistema-academico/src/main/java/com/exemplo/sistemaacademico/repository/DisciplinaRepository.java:98-99 | Returns exactly the subjects with more than one linked course. |
| SubjectRepository.WithoutAndManyDisjoint | sistema-academico/src/main/java/com/exemplo/sistemaacademico/repository/DisciplinaRepository.java:77-99 | No subject is both without courses and with several. |
| StudentRepository.Names | sistema-academico/src/main/java/com/exemplo/sistemaacademico/repository/AlunoRepository.java:43 | The student name column, keyed by the same ids. |
| StudentRepository.HasStudentNamed | sistema-academico/src/main/java/com/exemplo/sistemaacademico/service/AlunoService.java:116-117 | findByNome(nome).isPresent(): the exact-name lookup over student names finds some row. |
| StudentRepository.HasStudentNamedIff | sistema-academico/src/main/java/com/exemplo/sistemaacademico/repository/AlunoRepository.java:32 | findByNome finds something exactly when some student has the name. |
| StudentRepository.OfCourse | sistema-academico/src/main/java/com/exemplo/sistemaacademico/repository/AlunoRepository.java:54 | Returns exactly the students whose course id is the argument. |
| StudentRepository.CountOfCourse | sistema-academico/src/main/java/com/exemplo/sistemaacademico/repository/AlunoRepository.java:76 | The count is 0 exactly when no student is in the course. |
| StudentRepository.NamesOfCourse | sistema-academico/src/main/java/com/exemplo/sistemaacademico/repository/AlunoRepository.java:95 | Maps exactly the course's students, each to its own name. |
| StudentRepository.OfCourseByName | sistema-academico/src/main/java/com/exemplo/sistemaacademico/repository/AlunoRepository.java:95 | findByCurso_IdCursoOrderByNomeAsc is the name-ordered listing of the course's students. |
| StudentRepository.OfCourseByNameMeaning | sistema-academico/src/main/java/com/exemplo/sistemaacademico/repository/AlunoRepository.java:54-95 | findByCurso_IdCursoOrderByNomeAsc holds the same students as findByCurso_IdCurso, each once, so its length equals countByCurso_IdCurso. It is ascending by name. |
| StudentRepository.AllByName | sistema-academico/src/main/java/com/exemplo/sistemaacademico/repository/AlunoRepository.java:85 | findAllByOrderByNomeAsc is the name-ordered listing of all students. |
| StudentRepository.AllByNameMeaning | sistema-academico/src/main/java/com/exemplo/sistemaacademico/repository/AlunoRepository.java:85 | Every student is listed exactly once, ascending by name. |
| StudentRepository.ByCourseName | sistema-academico/src/main/java/com/exemplo/sistemaacademico/repository/AlunoRepository.java:64-65 | Returns exactly the students whose course's name equals the argument. |
| StudentRepository.ByCourseNameMeaning | sistema-academico/src/main/java/com/exemplo/sistemaacademico/repository/AlunoRepository.java:64-65 | Under unique course names, it equals findByCurso_IdCurso of the course with that name, or nothing when no course has it. |
| StudentRepository.ByNameAndCourseName | sistema-academico/src/main/java/com/exemplo/sistemaacademico/repository/AlunoRepository.java:107-109 | A student is returned exactly when its name contains the first pattern and its course's name contains the second. The match is case-sensitive. |
| StudentRepository.ByNameAndCourseNameEmpty | sistema-academico/src/main/java/com/exemplo/sistemaacademico/repository/AlunoRepository.java:107-109 | Two empty patterns match every student. |
| StudentRepository.ByNameAndCourseNameEmptyCourse | sistema-academico/src/main/java/com/exemplo/sistemaacademico/repository/AlunoRepository.java:107-109 | An empty course pattern leaves only the name filter. |
| Entities.Course.constructor | sistema-academico/src/main/java/com/exemplo/sistemaacademico/entity/Curso.java:65-68 | A new course is unsaved (null id) and has both sets empty. |
| Entities.Course.HasValidName | sistema-academico/src/main/java/com/exemplo/sistemaacademico/entity/Curso.java:34-37 | The NM column accepts the name: it is not blank and has at most 80 characters. |
| Entities.Course.Equals | sistema-academico/src/main/java/com/exemplo/sistemaacademico/entity/Curso.java:120-126 | Curso.equals holds for the same object, or for another course with the same non-null id. |
| Entities.Course.AddSubject | sistema-academico/src/main/java/com/exemplo/sistemaacademico/entity/Curso.java:102-105 | d joins this.disciplinas and this joins d.cursos. Set semantics make a repeat a no-op. Mirroring is preserved. |
| Entities.Course.RemoveSubject | sistema-academico/src/main/java/com/exemplo/sistemaacademico/entity/Curso.java:106-109 | d leaves this.disciplinas and this leaves d.cursos. Mirroring is preserved. |
| Entities.Course.AddStudent | sistema-academico/src/main/java/com/exemplo/sistemaacademico/entity/Curso.java:111-114 | a joins alunos and a.curso is this course. Consistency is preserved when a had no course or this one. |
| Entities.Course.RemoveStudent | sistema-academico/src/main/java/com/exemplo/sistemaacademico/entity/Curso.java:115-118 | a leaves alunos and a.curso becomes null, which the non-null ID_CURSO column rejects. |
| Entities.Subject.constructor | sistema-academico/src/main/java/com/exemplo/sistemaacademico/entity/Disciplina.java:53-56 | A new subject is unsaved and offered by no course. |
| Entities.Subject.HasValidName | sistema-academico/src/main/java/com/exemplo/sistemaacademico/entity/Disciplina.java:34-37 | The NM column accepts the name: it is not blank and has at most 80 characters. |
| Entities.Subject.Equals | sistema-academico/src/main/java/com/exemplo/sistemaacademico/entity/Disciplina.java:93-99 | Disciplina.equals holds for the same object, or for another subject with the same non-null id. |
| Entities.Subject.AddCourse | sistema-academico/src/main/java/com/exemplo/sistemaacademico/entity/Disciplina.java:84-87 | c joins this.cursos and this joins c.disciplinas. Mirroring is preserved. |
| Entities.Subject.RemoveCourse | sistema-academico/src/main/java/com/exemplo/sistemaacademico/entity/Disciplina.java:88-91 | c leaves this.cursos and this leaves c.disciplinas. Mirroring is preserved. |
| Entities.Student.constructor | sistema-academico/src/main/java/com/exemplo/sistemaacademico/entity/Aluno.java:56-59 | A new student is unsaved and has the given name and course. |
| Entities.Student.Persistable | sistema-academico/src/main/java/com/exemplo/sistemaacademico/entity/Aluno.java:32-47 | ALUNO accepts the row: the name is valid and ID_CURSO is not null. |
| Entities.Student.Equals | sistema-academico/src/main/java/com/exemplo/sistemaacademico/entity/Aluno.java:100-106 | Aluno.equals holds for the same object, or for another student with the same non-null id. |
| Entities.Student.EnrollIn | sistema-academico/src/main/java/com/exemplo/sistemaacademico/entity/Aluno.java:88-98 | The student leaves the previous course's set, if there was one and it differs from c. this.curso becomes c, and the student is a member of c's set when c is not null. Re-enrolling in the same course keeps the student a member. The other fields of both courses are untouched, and Enrolled is preserved. |
| Entities.Mirrored | sistema-academico/src/main/java/com/exemplo/sistemaacademico/entity/Curso.java:102-109 | Within the given courses and subjects, d is in c.disciplinas exactly when c is in d.cursos, and neither side points outside the universe. |
| Entities.Enrolled | sistema-academico/src/main/java/com/exemplo/sistemaacademico/entity/Aluno.java:88-98 | Within the given courses and students, a is in c.alunos exactly when a.curso is c, and no reference leaves the universe. |
| Entities.CourseEqualsMeaning | sistema-academico/src/main/java/com/exemplo/sistemaacademico/entity/Curso.java:120-126 | An unsaved course equals only itself, and equals is symmetric and transitive. |
| Entities.SubjectEqualsMeaning | sistema-academico/src/main/java/com/exemplo/sistemaacademico/entity/Disciplina.java:93-99 | An unsaved subject equals only itself, and equals is symmetric and transitive. |
| Entities.StudentEqualsMeaning | sistema-academico/src/main/java/com/exemplo/sistemaacademico/entity/Aluno.java:100-106 | An unsaved student equals only itself, and equals is symmetric and transitive. |
| Entities.EnrolledInExactlyOne | sistema-academico/src/main/java/com/exemplo/sistemaacademico/entity/Aluno.java:44-47 | In a consistent graph an enrolled student is in exactly one course's alunos set: its own. |
| Entities.UnenrolledInNone | sistema-academico/src/main/java/com/exemplo/sistemaacademico/entity/Aluno.java:88-98 | In a consistent graph a student with no course is in no course's set. |
| Text.TrimStart | sistema-academico/src/main/java/com/exemplo/sistemaacademico/service/AlunoService.java:216-217 | Drops exactly the leading characters <= ' ', as String.trim does. |
| Text.TrimEnd | sistema-academico/src/main/java/com/exemplo/sistemaacademico/service/AlunoService.java:216-217 | Drops exactly the trailing characters <= ' '. |
| Text.Trim | sistema-academico/src/main/java/com/exemplo/sistemaacademico/service/AlunoService.java:216-217 | The result is a contiguous part of the input. Everything before it and everything after it is <= ' '. When the result is non-empty, it starts and ends with a character above ' '. |
| Text.TrimStartOfTrimmable | sistema-academico/src/main/java/com/exemplo/sistemaacademico/service/AlunoService.java:216-217 | An all-blank string trims to "". |
| Text.TrimEmptyIff | sistema-academico/src/main/java/com/exemplo/sistemaacademico/service/AlunoService.java:216-217 | trim().isEmpty() holds exactly when every character is <= ' '. |
| Text.TrimIsSlice | sistema-academico/src/main/java/com/exemplo/sistemaacademico/service/AlunoService.java:216-217 | The trimmed text occurs inside the input. |
| Text.NotBlank | sistema-academico/src/main/java/com/exemplo/sistemaacademico/entity/Curso.java:34 | @NotBlank: the name does not trim to "". |
| Text.ValidName | sistema-academico/src/main/java/com/exemplo/sistemaacademico/entity/Curso.java:34-37 | @NotBlank together with @Size(max = 80). |
| Text.ValidNameMeaning | sistema-academico/src/main/java/com/exemplo/sistemaacademico/entity/Curso.java:34-37 | @NotBlank plus @Size(max = 80) means at least one non-blank character and at most 80 characters. |
| Text.Contains | sistema-academico/src/main/java/com/exemplo/sistemaacademico/repository/AlunoRepository.java:107-109 | LIKE %q%: q is a prefix of s or of some suffix of s. |
| Text.ContainsIff | sistema-academico/src/main/java/com/exemplo/sistemaacademico/repository/AlunoRepository.java:107-109 | LIKE %q% holds exactly when q occurs at some position. |
| Text.ContainsEmpty | sistema-academico/src/main/java/com/exemplo/sistemaacademico/repository/AlunoRepository.java:107-109 | LIKE %% matches every string. |
| Text.ContainsSelf | sistema-academico/src/main/java/com/exemplo/sistemaacademico/repository/AlunoRepository.java:107-109 | Every string contains itself. |
| Text.LowerChar | sistema-academico/src/main/java/com/exemplo/sistemaacademico/repository/CursoRepository.java:42 | Maps each upper-case letter A to Z to the lower-case letter 32 code points above it, and leaves every other character as it is. |
| Text.Lower | sistema-academico/src/main/java/com/exemplo/sistemaacademico/repository/CursoRepository.java:42 | Folds each character in place, keeping the length. |
| Text.ContainsIgnoreCase | sistema-academico/src/main/java/com/exemplo/sistemaacademico/repository/CursoRepository.java:42 | ContainingIgnoreCase: the folded pattern occurs in the folded name. |
| Text.LowerIdempotent | sistema-academico/src/main/java/com/exemplo/sistemaacademico/repository/CursoRepository.java:42 | Folding twice is folding once. |
| Text.ContainsIgnoreCaseOfCaseVariant | sistema-academico/src/main/java/com/exemplo/sistemaacademico/repository/CursoRepository.java:42 | A case-insensitive match does not depend on the case of the stored name. |
| Text.Less | sistema-academico/src/main/java/com/exemplo/sistemaacademico/repository/CursoRepository.java:86 | ORDER BY nome ASC: strict lexicographic order on character codes, where a proper prefix comes first. |
| Text.LessIrreflexive | sistema-academico/src/main/java/com/exemplo/sistemaacademico/repository/CursoRepository.java:86 | The name order is irreflexive. |
| Text.LessAsymmetric | sistema-academico/src/main/java/com/exemplo/sistemaacademico/repository/CursoRepository.java:86 | The name order is asymmetric. |
| Text.LessTransitive | sistema-academico/src/main/java/com/exemplo/sistemaacademico/repository/CursoRepository.java:86 | The name order is transitive. |
| Text.LessTotal | sistema-academico/src/main/java/com/exemplo/sistemaacademico/repository/CursoRepository.java:86 | Two distinct names are ordered one way or the other. |
| Text.DigitChar | sistema-academico/src/main/java/com/exemplo/sistemaacademico/service/AlunoService.java:265-266 | Renders a decimal digit as its character. |
| Text.NatToString | sistema-academico/src/main/java/com/exemplo/sistemaacademico/service/AlunoService.java:265-266 | The %d rendering is a non-empty run of decimal digits. |
| Text.NatToStringRoundTrip | sistema-academico/src/main/java/com/exemplo/sistemaacademico/service/AlunoService.java:265-266 | Reading the rendered digits back gives the count. |

## Left out

- Controllers (HTTP routing and mapping exceptions to status codes), SwaggerConfig and the application class: these are glue. DisciplinaController.java is not part of this model, so its swapped calls between listarTodas and buscarDisciplinasSemCursos are not reflected.
- `@Transactional`, rollback and concurrent uniqueness races: each service call is one atomic method on the store.
- JPA mechanics are not modelled: derived-query generation, lazy loading, cascades, JSON references, and the mapping between the entity object graph and the tables. The two layers are separate models.
- AlunoRepository.findByNome on duplicate student names: Spring raises an exception when more than one row matches. `StudentRepository.HasStudentNamed` models it as "some student has this name", so CreateStudent sets the warning where the real call could fail.
- Text.LowerChar: folds ASCII letters only, not the full Unicode lower-casing of IgnoreCase queries or the database's case folding.
- Text.Less: plain code-point order. The database collation is not modelled. Ties between equal names are broken by id so that every listing is determined.
- Text.ValidName: counts characters of `seq<char>`, not UTF-16 code units.
- StudentRepository.ByNameAndCourseName: `%` and `_` inside a filter are matched literally, not as LIKE wildcards.
- Identity columns are counters starting at 1. AcademicStore ids are naturals rather than 64-bit longs.
- AcademicStores.AcademicStore.CreateStudent: the console warning is returned as a boolean flag. The `@throws IllegalArgumentException` in that method's Javadoc (AlunoService.java:108) contradicts the code, and the model follows the code.
- AcademicStores.AcademicStore.CanEnroll: validarMatricula's unused student parameter is dropped.
- Entities: the entity sets are reference sets. Java's id-based `equals`/`hashCode` is modelled on its own by `Equals`. Before a save, the two notions agree (the persistence context keeps one object per id). The `instanceof` tests cannot fail between classes of the same type here.
- Entities.Course.AddStudent, as in Curso.java:111-114: the student stays in the previous course's alunos set. Its preservation clause therefore only covers a student that had no course or this one.
- AcademicStores.AcademicStore.CreateCourse, AcademicStores.AcademicStore.CreateSubject, AcademicStores.AcademicStore.CreateStudent: the argument is taken to be an unsaved entity that carries only a name. If the request body carries an id, `save` would merge it into that row. If it carries related sets (the disciplinas of a course), `save` would persist them. Both cases are outside the model.
- Bean Validation runtime and the controllers' `@Valid`: only the predicate is kept.
- Start-up banners and any SQL scripts that load sample data are not part of this model.
