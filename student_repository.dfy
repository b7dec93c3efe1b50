/** The queries AlunoRepository declares, as functions of the ALUNO and CURSO tables. */
module StudentRepository {
  import opened Rows
  import opened Text
  import NameQueries

  /** The NM column of ALUNO. */
  function Names(students: map<Id, StudentRow>): (r: map<Id, string>)
    ensures r.Keys == students.Keys
    ensures forall s :: s in students ==> r[s] == students[s].name
  {
    map s | s in students :: students[s].name
  }

  /** findByNome(nome).isPresent(): some student carries exactly this name. */
  predicate HasStudentNamed(students: map<Id, StudentRow>, n: string) {
    NameQueries.Named(Names(students), n) != {}
  }

  lemma HasStudentNamedIff(students: map<Id, StudentRow>, n: string)
    ensures HasStudentNamed(students, n) <==> exists s :: s in students && students[s].name == n
  {
    if exists s :: s in students && students[s].name == n {
      var s :| s in students && students[s].name == n;
      assert s in NameQueries.Named(Names(students), n);
    }
  }

  /** findByCurso_IdCurso: the students whose ID_CURSO is c. */
  function OfCourse(students: map<Id, StudentRow>, c: Id): (r: set<Id>)
    ensures forall s :: s in r <==> s in students && students[s].courseId == c
  {
    set s | s in students && students[s].courseId == c
  }

  /** countByCurso_IdCurso, and CursoRepository.countAlunosPorCurso, which runs the same count. */
  function CountOfCourse(students: map<Id, StudentRow>, c: Id): (n: nat)
    ensures n == 0 <==> forall s :: s in students ==> students[s].courseId != c
  {
    var r := OfCourse(students, c);
    assert r != {} ==> exists s :: s in r;
    |r|
  }

  /** The students of course c, as a table of their names. */
  function NamesOfCourse(students: map<Id, StudentRow>, c: Id): (r: map<Id, string>)
    ensures r.Keys == OfCourse(students, c)
    ensures forall s :: s in r ==> r[s] == students[s].name
  {
    map s | s in students && students[s].courseId == c :: students[s].name
  }

  /** findByCurso_IdCursoOrderByNomeAsc. */
  function OfCourseByName(students: map<Id, StudentRow>, c: Id): seq<Id> {
    NameQueries.SortedByName(NamesOfCourse(students, c))
  }

  /** The ordered class list holds the same students as findByCurso_IdCurso, each once, so its
      length is the count; it is ascending by name. */
  lemma OfCourseByNameMeaning(students: map<Id, StudentRow>, c: Id)
    ensures forall s :: s in OfCourseByName(students, c) <==> s in OfCourse(students, c)
    ensures |OfCourseByName(students, c)| == CountOfCourse(students, c)
    ensures forall i, j :: 0 <= i < j < |OfCourseByName(students, c)| ==>
      OfCourseByName(students, c)[i] != OfCourseByName(students, c)[j] &&
      !Less(students[OfCourseByName(students, c)[j]].name, students[OfCourseByName(students, c)[i]].name)
  {
    var names := NamesOfCourse(students, c);
    NameQueries.SortedByNameDistinct(names);
    NameQueries.SortedByNameAscending(names);
  }

  /** findAllByOrderByNomeAsc. */
  function AllByName(students: map<Id, StudentRow>): seq<Id> {
    NameQueries.SortedByName(Names(students))
  }

  /** Every student appears in the full listing exactly once, ascending by name. */
  lemma AllByNameMeaning(students: map<Id, StudentRow>)
    ensures forall s :: s in AllByName(students) <==> s in students
    ensures |AllByName(students)| == |students.Keys|
    ensures forall i, j :: 0 <= i < j < |AllByName(students)| ==>
      AllByName(students)[i] != AllByName(students)[j] &&
      !Less(students[AllByName(students)[j]].name, students[AllByName(students)[i]].name)
  {
    NameQueries.SortedByNameDistinct(Names(students));
    NameQueries.SortedByNameAscending(Names(students));
  }

  /** findAlunosPorNomeCurso: a.curso.nome = :nomeCurso, an inner join on the course. */
  function ByCourseName(students: map<Id, StudentRow>, courses: map<Id, string>, n: string): (r: set<Id>)
    ensures forall s :: s in r <==>
      s in students && students[s].courseId in courses && courses[students[s].courseId] == n
  {
    set s | s in students && students[s].courseId in courses && courses[students[s].courseId] == n
  }

  /** With unique course names, searching by a course's name finds exactly the students of that
      course, and a name no course has finds nobody. */
  lemma ByCourseNameMeaning(students: map<Id, StudentRow>, courses: map<Id, string>, n: string)
    requires NameQueries.UniqueNames(courses)
    ensures forall c :: c in courses && courses[c] == n ==> ByCourseName(students, courses, n) == OfCourse(students, c)
    ensures n !in courses.Values ==> ByCourseName(students, courses, n) == {}
  {
    if n !in courses.Values {
      forall s | s in students ensures s !in ByCourseName(students, courses, n) {
        if students[s].courseId in courses {
          assert courses[students[s].courseId] in courses.Values;
        }
      }
    }
  }

  /** findByNomeAlunoAndNomeCurso: a.nome LIKE %a% AND a.curso.nome LIKE %c%, case-sensitive. */
  function ByNameAndCourseName(students: map<Id, StudentRow>, courses: map<Id, string>, a: string, c: string): (r: set<Id>)
    ensures forall s :: s in r <==>
      s in students && Contains(students[s].name, a) &&
      students[s].courseId in courses && Contains(courses[students[s].courseId], c)
  {
    set s | s in students && Contains(students[s].name, a) &&
            students[s].courseId in courses && Contains(courses[students[s].courseId], c)
  }

  /** Two empty patterns match every student whose course exists. */
  lemma ByNameAndCourseNameEmpty(students: map<Id, StudentRow>, courses: map<Id, string>)
    requires forall s :: s in students ==> students[s].courseId in courses
    ensures ByNameAndCourseName(students, courses, [], []) == students.Keys
  {
    forall s | s in students ensures s in ByNameAndCourseName(students, courses, [], []) {
      ContainsEmpty(students[s].name);
      ContainsEmpty(courses[students[s].courseId]);
    }
  }

  /** An empty course pattern leaves only the student-name filter. */
  lemma ByNameAndCourseNameEmptyCourse(students: map<Id, StudentRow>, courses: map<Id, string>, a: string)
    requires forall s :: s in students ==> students[s].courseId in courses
    ensures forall s :: s in ByNameAndCourseName(students, courses, a, []) <==>
      s in students && Contains(students[s].name, a)
  {
    forall s | s in students {
      ContainsEmpty(courses[students[s].courseId]);
    }
  }
}
