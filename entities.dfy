/** The entity classes Curso, Disciplina and Aluno as an in-memory object graph:
    the HashSet fields are reference sets the helper methods change in place. */
module Entities {
  import opened Rows
  import opened Outcomes
  import opened Text

  /** A Curso: id (null until saved), name, the subjects it offers (owning side of
      CURSO_DISCIPLINA) and the students enrolled in it. */
  class Course {
    var id: Option<Id>
    var name: string
    var subjects: set<Subject>
    var students: set<Student>

    /** new Curso(nome): unsaved, with both sets empty. */
    constructor (name: string)
      ensures this.id == None && this.name == name
      ensures subjects == {} && students == {}
    {
      this.id := None;
      this.name := name;
      subjects := {};
      students := {};
    }

    /** The column constraints on NM (@NotBlank, @Size(max = 80)). */
    predicate HasValidName()
      reads this
    {
      ValidName(name)
    }

    /** Curso.equals: the same object, or another course with the same non-null id. */
    predicate Equals(other: Course)
      reads this, other
    {
      this == other || (id.Some? && id == other.id)
    }

    /** adicionarDisciplina: add d here and this course to d.cursos. */
    method AddSubject(d: Subject, ghost cs: set<Course>, ghost ds: set<Subject>)
      modifies this`subjects, d`courses
      ensures subjects == old(subjects) + {d}
      ensures d.courses == old(d.courses) + {this}
      ensures old(Mirrored(cs, ds)) && this in cs && d in ds ==> Mirrored(cs, ds)
    {
      subjects := subjects + {d};
      d.courses := d.courses + {this};
    }

    /** removerDisciplina: remove d here and this course from d.cursos. */
    method RemoveSubject(d: Subject, ghost cs: set<Course>, ghost ds: set<Subject>)
      modifies this`subjects, d`courses
      ensures subjects == old(subjects) - {d}
      ensures d.courses == old(d.courses) - {this}
      ensures old(Mirrored(cs, ds)) && this in cs && d in ds ==> Mirrored(cs, ds)
    {
      subjects := subjects - {d};
      d.courses := d.courses - {this};
    }

    /** adicionarAluno: add a here and point a at this course. The previous
        course of a keeps a in its set. */
    method AddStudent(a: Student, ghost cs: set<Course>, ghost ss: set<Student>)
      modifies this`students, a`course
      ensures students == old(students) + {a}
      ensures a.course == this
      ensures old(Enrolled(cs, ss)) && this in cs && a in ss && (old(a.course) == null || old(a.course) == this)
        ==> Enrolled(cs, ss)
    {
      students := students + {a};
      a.course := this;
    }

    /** removerAluno: remove a here and set a.curso to null, a state the non-null
        ID_CURSO column does not admit. */
    method RemoveStudent(a: Student, ghost cs: set<Course>, ghost ss: set<Student>)
      modifies this`students, a`course
      ensures students == old(students) - {a}
      ensures a.course == null
      ensures old(Enrolled(cs, ss)) && this in cs && a in ss && old(a.course) == this ==> Enrolled(cs, ss)
      ensures !a.Persistable()
    {
      students := students - {a};
      a.course := null;
    }
  }

  /** A Disciplina: id, name and the courses that offer it (inverse side). */
  class Subject {
    var id: Option<Id>
    var name: string
    var courses: set<Course>

    constructor (name: string)
      ensures this.id == None && this.name == name && courses == {}
    {
      this.id := None;
      this.name := name;
      courses := {};
    }

    predicate HasValidName()
      reads this
    {
      ValidName(name)
    }

    /** Disciplina.equals: the same object, or another subject with the same non-null id. */
    predicate Equals(other: Subject)
      reads this, other
    {
      this == other || (id.Some? && id == other.id)
    }

    /** adicionarCurso: add c here and this subject to c.disciplinas. */
    method AddCourse(c: Course, ghost cs: set<Course>, ghost ds: set<Subject>)
      modifies this`courses, c`subjects
      ensures courses == old(courses) + {c}
      ensures c.subjects == old(c.subjects) + {this}
      ensures old(Mirrored(cs, ds)) && c in cs && this in ds ==> Mirrored(cs, ds)
    {
      courses := courses + {c};
      c.subjects := c.subjects + {this};
    }

    /** removerCurso: remove c here and this subject from c.disciplinas. */
    method RemoveCourse(c: Course, ghost cs: set<Course>, ghost ds: set<Subject>)
      modifies this`courses, c`subjects
      ensures courses == old(courses) - {c}
      ensures c.subjects == old(c.subjects) - {this}
      ensures old(Mirrored(cs, ds)) && c in cs && this in ds ==> Mirrored(cs, ds)
    {
      courses := courses - {c};
      c.subjects := c.subjects - {this};
    }
  }

  /** An Aluno: id, name and its course (null only before it is enrolled). */
  class Student {
    var id: Option<Id>
    var name: string
    var course: Course?

    constructor (name: string, course: Course?)
      ensures this.id == None && this.name == name && this.course == course
    {
      this.id := None;
      this.name := name;
      this.course := course;
    }

    /** What ALUNO admits: a valid name and a non-null ID_CURSO. */
    predicate Persistable()
      reads this
    {
      ValidName(name) && course != null
    }

    /** Aluno.equals: the same object, or another student with the same non-null id. */
    predicate Equals(other: Student)
      reads this, other
    {
      this == other || (id.Some? && id == other.id)
    }

    /** matricularEmCurso: leave the previous course's set, if any, then point at c
        and join c's set, if c is not null. */
    method EnrollIn(c: Course?, ghost cs: set<Course>, ghost ss: set<Student>)
      modifies this`course, (if course == null then {} else {course}), (if c == null then {} else {c})
      ensures course == c
      ensures c != null ==> c.students == old(c.students) + {this}
      ensures old(course) != null && old(course) != c ==> old(course).students == old(course.students) - {this}
      ensures c != null ==> unchanged(c`id, c`name, c`subjects)
      ensures old(course) != null ==> unchanged(old(course)`id, old(course)`name, old(course)`subjects)
      ensures old(Enrolled(cs, ss)) && this in ss && (c == null || c in cs) ==> Enrolled(cs, ss)
    {
      if course != null {
        course.students := course.students - {this};
      }
      course := c;
      if c != null {
        c.students := c.students + {this};
      }
    }
  }

  /** The two sides of Curso-Disciplina are mirror images within the universe cs, ds. */
  ghost predicate Mirrored(cs: set<Course>, ds: set<Subject>)
    reads cs, ds
  {
    && (forall c, d :: c in cs && d in ds ==> (d in c.subjects <==> c in d.courses))
    && (forall c :: c in cs ==> c.subjects <= ds)
    && (forall d :: d in ds ==> d.courses <= cs)
  }

  /** Curso.alunos and Aluno.curso agree within the universe cs, ss. */
  ghost predicate Enrolled(cs: set<Course>, ss: set<Student>)
    reads cs, ss
  {
    && (forall c, s :: c in cs && s in ss ==> (s in c.students <==> s.course == c))
    && (forall s :: s in ss && s.course != null ==> s.course in cs)
    && (forall c :: c in cs ==> c.students <= ss)
  }

  /** An unsaved course (null id) equals only itself; equals is symmetric and transitive,
      so it is an equivalence that HashSet membership can rely on. */
  lemma CourseEqualsMeaning(c: Course, o: Course, p: Course)
    ensures c.id == None ==> (c.Equals(o) <==> c == o)
    ensures c.Equals(o) <==> o.Equals(c)
    ensures c.Equals(o) && o.Equals(p) ==> c.Equals(p)
  {
  }

  lemma SubjectEqualsMeaning(d: Subject, o: Subject, p: Subject)
    ensures d.id == None ==> (d.Equals(o) <==> d == o)
    ensures d.Equals(o) <==> o.Equals(d)
    ensures d.Equals(o) && o.Equals(p) ==> d.Equals(p)
  {
  }

  lemma StudentEqualsMeaning(a: Student, o: Student, p: Student)
    ensures a.id == None ==> (a.Equals(o) <==> a == o)
    ensures a.Equals(o) <==> o.Equals(a)
    ensures a.Equals(o) && o.Equals(p) ==> a.Equals(p)
  {
  }

  /** In a consistent graph an enrolled student is in exactly one course's set: its own. */
  lemma EnrolledInExactlyOne(cs: set<Course>, ss: set<Student>, s: Student)
    requires Enrolled(cs, ss) && s in ss && s.course != null
    ensures (set c | c in cs && s in c.students) == {s.course}
  {
    assert s.course in cs;
  }

  /** In a consistent graph a student with no course is in no course's set. */
  lemma UnenrolledInNone(cs: set<Course>, ss: set<Student>, s: Student)
    requires Enrolled(cs, ss) && s in ss && s.course == null
    ensures (set c | c in cs && s in c.students) == {}
  {
    forall c | c in cs ensures s !in c.students {
    }
  }
}
