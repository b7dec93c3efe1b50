/** The course-specific queries CursoRepository declares. findByNome,
    findByNomeContainingIgnoreCase and findAllByOrderByNomeAsc are the
    NameQueries over the CURSO table; countAlunosPorCurso is
    StudentRepository.CountOfCourse. */
module CourseRepository {
  import opened Rows
  import StudentRepository

  /** findCursosComDisciplina: the courses joined to subject d in CURSO_DISCIPLINA. */
  function WithSubject(links: set<Link>, d: Id): (r: set<Id>)
    ensures forall c :: c in r <==> (c, d) in links
  {
    set l | l in links && l.1 == d :: l.0
  }

  /** findCursosSemAlunos: c.alunos IS EMPTY, that is no ALUNO row points at c. */
  function WithoutStudents(courses: map<Id, string>, students: map<Id, StudentRow>): (r: set<Id>)
    ensures r <= courses.Keys
    ensures forall c :: c in r <==> c in courses && StudentRepository.CountOfCourse(students, c) == 0
  {
    set c | c in courses && forall s :: s in students ==> students[s].courseId != c
  }
}
