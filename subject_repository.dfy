/** The subject-specific queries DisciplinaRepository declares. findByNome,
    findByNomeContainingIgnoreCase and findAllByOrderByNomeAsc are the
    NameQueries over the DISCIPLINA table. */
module SubjectRepository {
  import opened Rows
  import CourseRepository

  /** findDisciplinasPorCurso: the subjects joined to course c in CURSO_DISCIPLINA. */
  function OfCourse(links: set<Link>, c: Id): (r: set<Id>)
    ensures forall d :: d in r <==> (c, d) in links
  {
    set l | l in links && l.0 == c :: l.1
  }

  /** Both directions of the association read the same join rows. */
  lemma OfCourseMirrorsWithSubject(links: set<Link>, c: Id, d: Id)
    ensures d in OfCourse(links, c) <==> c in CourseRepository.WithSubject(links, d)
  {
  }

  /** The join rows of subject d. */
  function RowsOf(links: set<Link>, d: Id): (r: set<Link>)
    ensures forall l :: l in r <==> l in links && l.1 == d
  {
    set l | l in links && l.1 == d
  }

  /** countCursosPorDisciplina: COUNT(c) over Curso c JOIN c.disciplinas d, one per join row. */
  function CourseCount(links: set<Link>, d: Id): (n: nat)
    ensures n == 0 <==> forall c :: (c, d) !in links
  {
    var rows := RowsOf(links, d);
    assert forall c :: (c, d) in links ==> (c, d) in rows;
    |rows|
  }

  lemma {:induction false} ProjectionCard(rows: set<Link>, d: Id)
    requires forall l :: l in rows ==> l.1 == d
    ensures |set l | l in rows :: l.0| == |rows|
    decreases rows
  {
    if rows != {} {
      var x :| x in rows;
      var rest := rows - {x};
      ProjectionCard(rest, d);
      assert (set l | l in rows :: l.0) == (set l | l in rest :: l.0) + {x.0};
    }
  }

  /** The count is the number of courses that offer d, since the join table's key is the pair. */
  lemma CourseCountIsCourses(links: set<Link>, d: Id)
    ensures CourseCount(links, d) == |CourseRepository.WithSubject(links, d)|
  {
    ProjectionCard(RowsOf(links, d), d);
    assert CourseRepository.WithSubject(links, d) == set l | l in RowsOf(links, d) :: l.0;
  }

  /** findDisciplinasSemCursos: d.cursos IS EMPTY. */
  function WithoutCourses(subjects: map<Id, string>, links: set<Link>): (r: set<Id>)
    ensures r <= subjects.Keys
    ensures forall d :: d in r <==> d in subjects && CourseCount(links, d) == 0
  {
    var r := set d | d in subjects && forall l :: l in links ==> l.1 != d;
    assert forall d :: RowsOf(links, d) != {} ==> exists l :: l in RowsOf(links, d);
    r
  }

  /** findDisciplinasComMultiplosCursos: SIZE(d.cursos) > 1. */
  function WithManyCourses(subjects: map<Id, string>, links: set<Link>): (r: set<Id>)
    ensures r <= subjects.Keys
    ensures forall d :: d in r <==> d in subjects && |CourseRepository.WithSubject(links, d)| > 1
  {
    set d | d in subjects && |CourseRepository.WithSubject(links, d)| > 1
  }

  /** No subject is both unoffered and offered by several courses. */
  lemma WithoutAndManyDisjoint(subjects: map<Id, string>, links: set<Link>)
    ensures WithoutCourses(subjects, links) !! WithManyCourses(subjects, links)
  {
    forall d | d in WithoutCourses(subjects, links) ensures d !in WithManyCourses(subjects, links) {
      CourseCountIsCourses(links, d);
    }
  }
}
