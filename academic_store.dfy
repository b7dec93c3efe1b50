/** The domain service layer (CursoService, DisciplinaService, AlunoService)
    over the four tables, with the integrity rules the services enforce. */
module AcademicStores {
  import opened Rows
  import opened Outcomes
  import opened Text
  import NameQueries
  import CourseRepository
  import SubjectRepository
  import StudentRepository

  /** The first line of gerarRelatorioAlunosPorCurso, followed by an empty line. */
  const ReportHeader: string := "=== RELAT\U{00D3}RIO DE ALUNOS POR CURSO ===\n\n"

  /** "Curso: %s - %d aluno(s)\n". */
  function ReportLine(name: string, count: nat): string {
    "Curso: " + name + " - " + NatToString(count) + " aluno(s)\n"
  }

  /** One report line per listed course, carrying that course's student count. */
  function ReportLines(courses: map<Id, string>, students: map<Id, StudentRow>, ids: seq<Id>): (r: seq<string>)
    requires forall i :: 0 <= i < |ids| ==> ids[i] in courses
    ensures |r| == |ids|
    ensures forall k :: 0 <= k < |ids| ==>
      r[k] == ReportLine(courses[ids[k]], StudentRepository.CountOfCourse(students, ids[k]))
  {
    seq(|ids|, k requires 0 <= k < |ids| =>
      ReportLine(courses[ids[k]], StudentRepository.CountOfCourse(students, ids[k])))
  }

  /** The text a StringBuilder holds after appending the lines in order. */
  function Concat(lines: seq<string>): string {
    if lines == [] then [] else Concat(lines[..|lines| - 1]) + lines[|lines| - 1]
  }

  /** Appending one more line to the builder. */
  lemma ConcatSnoc(lines: seq<string>, i: nat)
    requires i < |lines|
    ensures Concat(lines[..i + 1]) == Concat(lines[..i]) + lines[i]
  {
    assert lines[..i + 1][..i] == lines[..i];
  }

  /** buscarPorNomeAlunoECurso's filter: null or blank becomes "", anything else is trimmed. */
  function SearchPattern(filter: Option<string>): string {
    if filter.None? || Trim(filter.value) == [] then [] else Trim(filter.value)
  }

  /** The blank test is subsumed by trim: a filter is the trimmed text, and a null filter or
      one made only of spaces and control chars is the wildcard "". */
  lemma SearchPatternMeaning(filter: Option<string>)
    ensures filter.Some? ==> SearchPattern(filter) == Trim(filter.value)
    ensures filter.None? || (forall i :: 0 <= i < |filter.value| ==> IsTrimmable(filter.value[i]))
      ==> SearchPattern(filter) == []
  {
    if filter.Some? {
      TrimEmptyIff(filter.value);
    }
  }

  /** The store behind the three services: CURSO, DISCIPLINA, ALUNO, CURSO_DISCIPLINA,
      and the next value of each identity column. */
  class AcademicStore {
    var courses: map<Id, string>
    var subjects: map<Id, string>
    var students: map<Id, StudentRow>
    var links: set<Link>
    var nextCourseId: Id
    var nextSubjectId: Id
    var nextStudentId: Id

    /** The integrity rules: unique course and subject names, every student
        in an existing course, every link between an existing course and an
        existing subject, and every id below its identity counter. */
    ghost predicate Valid()
      reads this
    {
      && NameQueries.UniqueNames(courses)
      && NameQueries.UniqueNames(subjects)
      && (forall s :: s in students ==> students[s].courseId in courses)
      && (forall l :: l in links ==> l.0 in courses && l.1 in subjects)
      && (forall c :: c in courses ==> c < nextCourseId)
      && (forall d :: d in subjects ==> d < nextSubjectId)
      && (forall s :: s in students ==> s < nextStudentId)
    }

    /** An empty database; identity columns start at 1. */
    constructor ()
      ensures Valid()
      ensures courses == map[] && subjects == map[] && students == map[] && links == {}
      ensures nextCourseId == 1 && nextSubjectId == 1 && nextStudentId == 1
    {
      courses, subjects, students, links := map[], map[], map[], {};
      nextCourseId, nextSubjectId, nextStudentId := 1, 1, 1;
    }

    // ---------------------------------------------------------------- CursoService

    /** criarCurso: rejects a name some course already has exactly; otherwise
        inserts one course under a fresh id. */
    method CreateCourse(name: string) returns (r: Result<Id>)
      requires Valid()
      modifies this`courses, this`nextCourseId
      ensures Valid()
      ensures r.Ok? || r.DuplicateName?
      ensures r.DuplicateName? <==> NameQueries.Named(old(courses), name) != {}
      ensures r.DuplicateName? ==> unchanged(this)
      ensures r.Ok? ==> r.value !in old(courses) && courses == old(courses)[r.value := name]
      ensures r.Ok? ==> r.value == old(nextCourseId) && nextCourseId == r.value + 1
    {
      if NameQueries.Named(courses, name) != {} {
        return DuplicateName;
      }
      forall b | b in courses
        ensures courses[b] != name
      {
        assert b !in NameQueries.Named(courses, name);
      }
      var id := nextCourseId;
      courses := courses[id := name];
      nextCourseId := id + 1;
      r := Ok(id);
    }

    /** atualizarCurso: a changed name held by another course is rejected; an
        unchanged name always succeeds; only that course's name changes. */
    method UpdateCourse(id: Id, newName: string) returns (r: Result<()>)
      requires Valid()
      modifies this`courses
      ensures Valid()
      ensures r.Ok? || r.NotFound? || r.DuplicateName?
      ensures r.NotFound? <==> id !in old(courses)
      ensures r.DuplicateName? <==>
        id in old(courses) && old(courses)[id] != newName && NameQueries.Named(old(courses), newName) - {id} != {}
      ensures id in old(courses) && old(courses)[id] == newName ==> r.Ok?
      ensures r.Ok? ==> courses == old(courses)[id := newName]
      ensures !r.Ok? ==> unchanged(this)
    {
      if id !in courses {
        return NotFound;
      }
      var holders := NameQueries.Named(courses, newName);
      if courses[id] != newName && holders - {id} != {} {
        return DuplicateName;
      }
      forall b | b in courses && b != id
        ensures courses[b] != newName
      {
        if courses[id] != newName {
          assert b !in holders - {id};
        }
      }
      courses := courses[id := newName];
      r := Ok(());
    }

    /** removerCurso: blocked while countAlunosPorCurso(id) > 0; otherwise the
        course and its CURSO_DISCIPLINA rows go. */
    method DeleteCourse(id: Id) returns (r: Result<()>)
      requires Valid()
      modifies this`courses, this`links
      ensures Valid()
      ensures r.Ok? || r.NotFound? || r.HasDependents?
      ensures r.NotFound? <==> id !in old(courses)
      ensures r.HasDependents? <==> id in old(courses) && StudentRepository.CountOfCourse(old(students), id) > 0
      ensures r.Ok? ==> courses == old(courses) - {id} && links == (set l | l in old(links) && l.0 != id)
      ensures !r.Ok? ==> unchanged(this)
    {
      if id !in courses {
        return NotFound;
      }
      var count := StudentRepository.CountOfCourse(students, id);
      if count > 0 {
        return HasDependents;
      }
      courses := courses - {id};
      links := set l | l in links && l.0 != id;
      r := Ok(());
    }

    /** adicionarDisciplina: both must exist; an existing association is left
        as it is, without a save. */
    method AddSubjectToCourse(courseId: Id, subjectId: Id) returns (r: Result<()>)
      requires Valid()
      modifies this`links
      ensures Valid()
      ensures r.Ok? || r.NotFound?
      ensures r.NotFound? <==> courseId !in old(courses) || subjectId !in old(subjects)
      ensures r.Ok? ==> links == old(links) + {(courseId, subjectId)}
      ensures !r.Ok? || (courseId, subjectId) in old(links) ==> unchanged(this)
    {
      if courseId !in courses || subjectId !in subjects {
        return NotFound;
      }
      if (courseId, subjectId) !in links {
        links := links + {(courseId, subjectId)};
      }
      r := Ok(());
    }

    /** removerDisciplina: both must exist; afterwards they are not associated,
        whether or not they were. */
    method RemoveSubjectFromCourse(courseId: Id, subjectId: Id) returns (r: Result<()>)
      requires Valid()
      modifies this`links
      ensures Valid()
      ensures r.Ok? || r.NotFound?
      ensures r.NotFound? <==> courseId !in old(courses) || subjectId !in old(subjects)
      ensures r.Ok? ==> links == old(links) - {(courseId, subjectId)}
      ensures !r.Ok? ==> unchanged(this)
    {
      if courseId !in courses || subjectId !in subjects {
        return NotFound;
      }
      links := links - {(courseId, subjectId)};
      r := Ok(());
    }

    /** listarTodos: every course once, ascending by name. */
    method ListCourses() returns (ids: seq<Id>)
      ensures ids == NameQueries.SortedByName(courses)
    {
      ids := NameQueries.SortedByName(courses);
    }

    /** buscarPorId: the course's name, or nothing. */
    method GetCourse(id: Id) returns (r: Option<string>)
      ensures r.Some? <==> id in courses
      ensures r.Some? ==> r.value == courses[id]
    {
      r := if id in courses then Some(courses[id]) else None;
    }

    /** buscarPorNome: findByNomeContainingIgnoreCase. */
    method SearchCourses(q: string) returns (ids: set<Id>)
      ensures ids == NameQueries.MatchingIgnoreCase(courses, q)
    {
      ids := NameQueries.MatchingIgnoreCase(courses, q);
    }

    /** buscarCursosComDisciplina. */
    method CoursesWithSubject(subjectId: Id) returns (ids: set<Id>)
      ensures ids == CourseRepository.WithSubject(links, subjectId)
    {
      ids := CourseRepository.WithSubject(links, subjectId);
    }

    /** contarAlunosPorCurso (of both CursoService and AlunoService). */
    method CountStudentsOfCourse(courseId: Id) returns (n: nat)
      ensures n == StudentRepository.CountOfCourse(students, courseId)
    {
      n := StudentRepository.CountOfCourse(students, courseId);
    }

    /** buscarCursosSemAlunos. */
    method CoursesWithoutStudents() returns (ids: set<Id>)
      ensures ids == CourseRepository.WithoutStudents(courses, students)
    {
      ids := CourseRepository.WithoutStudents(courses, students);
    }

    // ----------------------------------------------------------- DisciplinaService

    /** criarDisciplina: rejects a name some subject already has exactly;
        otherwise inserts one subject under a fresh id. */
    method CreateSubject(name: string) returns (r: Result<Id>)
      requires Valid()
      modifies this`subjects, this`nextSubjectId
      ensures Valid()
      ensures r.Ok? || r.DuplicateName?
      ensures r.DuplicateName? <==> NameQueries.Named(old(subjects), name) != {}
      ensures r.DuplicateName? ==> unchanged(this)
      ensures r.Ok? ==> r.value !in old(subjects) && subjects == old(subjects)[r.value := name]
      ensures r.Ok? ==> r.value == old(nextSubjectId) && nextSubjectId == r.value + 1
    {
      if NameQueries.Named(subjects, name) != {} {
        return DuplicateName;
      }
      forall b | b in subjects
        ensures subjects[b] != name
      {
        assert b !in NameQueries.Named(subjects, name);
      }
      var id := nextSubjectId;
      subjects := subjects[id := name];
      nextSubjectId := id + 1;
      r := Ok(id);
    }

    /** atualizarDisciplina: a changed name held by another subject is rejected;
        an unchanged name always succeeds; only that subject's name changes. */
    method UpdateSubject(id: Id, newName: string) returns (r: Result<()>)
      requires Valid()
      modifies this`subjects
      ensures Valid()
      ensures r.Ok? || r.NotFound? || r.DuplicateName?
      ensures r.NotFound? <==> id !in old(subjects)
      ensures r.DuplicateName? <==>
        id in old(subjects) && old(subjects)[id] != newName && NameQueries.Named(old(subjects), newName) - {id} != {}
      ensures id in old(subjects) && old(subjects)[id] == newName ==> r.Ok?
      ensures r.Ok? ==> subjects == old(subjects)[id := newName]
      ensures !r.Ok? ==> unchanged(this)
    {
      if id !in subjects {
        return NotFound;
      }
      var holders := NameQueries.Named(subjects, newName);
      if subjects[id] != newName && holders - {id} != {} {
        return DuplicateName;
      }
      forall b | b in subjects && b != id
        ensures subjects[b] != newName
      {
        if subjects[id] != newName {
          assert b !in holders - {id};
        }
      }
      subjects := subjects[id := newName];
      r := Ok(());
    }

    /** removerDisciplina: blocked while countCursosPorDisciplina(id) > 0. */
    method DeleteSubject(id: Id) returns (r: Result<()>)
      requires Valid()
      modifies this`subjects
      ensures Valid()
      ensures r.Ok? || r.NotFound? || r.HasDependents?
      ensures r.NotFound? <==> id !in old(subjects)
      ensures r.HasDependents? <==> id in old(subjects) && SubjectRepository.CourseCount(old(links), id) > 0
      ensures r.Ok? ==> subjects == old(subjects) - {id}
      ensures !r.Ok? ==> unchanged(this)
    {
      if id !in subjects {
        return NotFound;
      }
      var count := SubjectRepository.CourseCount(links, id);
      if count > 0 {
        return HasDependents;
      }
      assert SubjectRepository.RowsOf(links, id) == {};
      subjects := subjects - {id};
      r := Ok(());
    }

    /** listarTodas: every subject once, ascending by name. */
    method ListSubjects() returns (ids: seq<Id>)
      ensures ids == NameQueries.SortedByName(subjects)
    {
      ids := NameQueries.SortedByName(subjects);
    }

    /** buscarPorId. */
    method GetSubject(id: Id) returns (r: Option<string>)
      ensures r.Some? <==> id in subjects
      ensures r.Some? ==> r.value == subjects[id]
    {
      r := if id in subjects then Some(subjects[id]) else None;
    }

    /** buscarPorNome: findByNomeContainingIgnoreCase. */
    method SearchSubjects(q: string) returns (ids: set<Id>)
      ensures ids == NameQueries.MatchingIgnoreCase(subjects, q)
    {
      ids := NameQueries.MatchingIgnoreCase(subjects, q);
    }

    /** buscarDisciplinasPorCurso. */
    method SubjectsOfCourse(courseId: Id) returns (ids: set<Id>)
      ensures ids == SubjectRepository.OfCourse(links, courseId)
    {
      ids := SubjectRepository.OfCourse(links, courseId);
    }

    /** contarCursosPorDisciplina. */
    method CountCoursesOfSubject(subjectId: Id) returns (n: nat)
      ensures n == SubjectRepository.CourseCount(links, subjectId)
    {
      n := SubjectRepository.CourseCount(links, subjectId);
    }

    /** buscarDisciplinasSemCursos. */
    method SubjectsWithoutCourses() returns (ids: set<Id>)
      ensures ids == SubjectRepository.WithoutCourses(subjects, links)
    {
      ids := SubjectRepository.WithoutCourses(subjects, links);
    }

    /** buscarDisciplinasComMultiplosCursos. */
    method SubjectsWithManyCourses() returns (ids: set<Id>)
      ensures ids == SubjectRepository.WithManyCourses(subjects, links)
    {
      ids := SubjectRepository.WithManyCourses(subjects, links);
    }

    // ---------------------------------------------------------------- AlunoService

    /** criarAluno: the course must exist; a student name already in use only
        raises the warning, and the student is saved in the resolved course. */
    method CreateStudent(name: string, courseId: Id) returns (r: Result<Id>, duplicateWarning: bool)
      requires Valid()
      modifies this`students, this`nextStudentId
      ensures Valid()
      ensures r.Ok? || r.NotFound?
      ensures r.NotFound? <==> courseId !in old(courses)
      ensures duplicateWarning <==> r.Ok? && StudentRepository.HasStudentNamed(old(students), name)
      ensures r.NotFound? ==> unchanged(this)
      ensures r.Ok? ==> r.value !in old(students) && students == old(students)[r.value := StudentRow(name, courseId)]
      ensures r.Ok? ==> r.value == old(nextStudentId) && nextStudentId == r.value + 1
    {
      if courseId !in courses {
        return NotFound, false;
      }
      duplicateWarning := StudentRepository.HasStudentNamed(students, name);
      var id := nextStudentId;
      students := students[id := StudentRow(name, courseId)];
      nextStudentId := id + 1;
      r := Ok(id);
    }

    /** atualizarAluno: renames only; the course stays. */
    method UpdateStudent(id: Id, newName: string) returns (r: Result<()>)
      requires Valid()
      modifies this`students
      ensures Valid()
      ensures r.Ok? || r.NotFound?
      ensures r.NotFound? <==> id !in old(students)
      ensures r.Ok? ==> students == old(students)[id := StudentRow(newName, old(students)[id].courseId)]
      ensures !r.Ok? ==> unchanged(this)
    {
      if id !in students {
        return NotFound;
      }
      students := students[id := StudentRow(newName, students[id].courseId)];
      r := Ok(());
    }

    /** transferirAluno: student and destination must exist; afterwards the
        student belongs to the destination and to no other course. */
    method TransferStudent(id: Id, courseId: Id) returns (r: Result<()>)
      requires Valid()
      modifies this`students
      ensures Valid()
      ensures r.Ok? || r.NotFound?
      ensures r.NotFound? <==> id !in old(students) || courseId !in old(courses)
      ensures r.Ok? ==> students == old(students)[id := StudentRow(old(students)[id].name, courseId)]
      ensures r.Ok? ==> forall c :: id in StudentRepository.OfCourse(students, c) <==> c == courseId
      ensures !r.Ok? ==> unchanged(this)
    {
      if id !in students {
        return NotFound;
      }
      if courseId !in courses {
        return NotFound;
      }
      students := students[id := StudentRow(students[id].name, courseId)];
      r := Ok(());
    }

    /** removerAluno: removes exactly that student. */
    method DeleteStudent(id: Id) returns (r: Result<()>)
      requires Valid()
      modifies this`students
      ensures Valid()
      ensures r.Ok? || r.NotFound?
      ensures r.NotFound? <==> id !in old(students)
      ensures r.Ok? ==> students == old(students) - {id}
      ensures !r.Ok? ==> unchanged(this)
    {
      if id !in students {
        return NotFound;
      }
      students := students - {id};
      r := Ok(());
    }

    /** listarTodos: every student once, ascending by name. */
    method ListStudents() returns (ids: seq<Id>)
      ensures ids == StudentRepository.AllByName(students)
    {
      ids := StudentRepository.AllByName(students);
    }

    /** buscarPorId. */
    method GetStudent(id: Id) returns (r: Option<StudentRow>)
      ensures r.Some? <==> id in students
      ensures r.Some? ==> r.value == students[id]
    {
      r := if id in students then Some(students[id]) else None;
    }

    /** buscarPorNome: findByNomeContainingIgnoreCase. */
    method SearchStudents(q: string) returns (ids: set<Id>)
      ensures ids == NameQueries.MatchingIgnoreCase(StudentRepository.Names(students), q)
    {
      ids := NameQueries.MatchingIgnoreCase(StudentRepository.Names(students), q);
    }

    /** buscarAlunosPorCurso: the class list, ascending by name. */
    method StudentsOfCourse(courseId: Id) returns (ids: seq<Id>)
      ensures ids == StudentRepository.OfCourseByName(students, courseId)
    {
      ids := StudentRepository.OfCourseByName(students, courseId);
    }

    /** buscarAlunosPorNomeCurso. */
    method StudentsByCourseName(courseName: string) returns (ids: set<Id>)
      ensures ids == StudentRepository.ByCourseName(students, courses, courseName)
    {
      ids := StudentRepository.ByCourseName(students, courses, courseName);
    }

    /** buscarPorNomeAlunoECurso: both filters normalised, then the LIKE search. */
    method SearchByStudentAndCourse(studentFilter: Option<string>, courseFilter: Option<string>) returns (ids: set<Id>)
      ensures ids == StudentRepository.ByNameAndCourseName(students, courses,
                       SearchPattern(studentFilter), SearchPattern(courseFilter))
    {
      var a := SearchPattern(studentFilter);
      var c := SearchPattern(courseFilter);
      ids := StudentRepository.ByNameAndCourseName(students, courses, a, c);
    }

    /** validarMatricula: true exactly when the course exists. */
    method CanEnroll(courseId: Id) returns (ok: bool)
      ensures ok <==> courseId in courses
    {
      if courseId !in courses {
        return false;
      }
      return true;
    }

    /** gerarRelatorioAlunosPorCurso: the header, then one line per course in
        name order with its student count. */
    method StudentsPerCourseReport() returns (report: string)
      ensures report == ReportHeader + Concat(ReportLines(courses, students, NameQueries.SortedByName(courses)))
    {
      var ordered := NameQueries.SortedByName(courses);
      report := AppendCourseLines(ReportHeader, ordered);
    }

    /** The report's loop: appends, for each listed course in turn, its line. */
    method AppendCourseLines(header: string, ordered: seq<Id>) returns (text: string)
      requires forall i :: 0 <= i < |ordered| ==> ordered[i] in courses
      ensures text == header + Concat(ReportLines(courses, students, ordered))
    {
      ghost var lines := ReportLines(courses, students, ordered);
      text := header;
      for i := 0 to |ordered|
        invariant text == header + Concat(lines[..i])
      {
        var count := StudentRepository.CountOfCourse(students, ordered[i]);
        var line := ReportLine(courses[ordered[i]], count);
        ConcatSnoc(lines, i);
        text := text + line;
      }
      assert lines[..|ordered|] == lines;
    }
  }
}
