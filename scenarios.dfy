/** Sequences of service calls whose outcome follows from the contracts alone. */
module Scenarios {
  import opened Rows
  import opened Outcomes
  import AcademicStores
  import NameQueries
  import StudentRepository
  import SubjectRepository

  /** adicionarDisciplina twice leaves the association table as once does. */
  method AddSubjectTwiceIsOnce(store: AcademicStores.AcademicStore, courseId: Id, subjectId: Id)
    requires store.Valid()
    modifies store`links
    ensures store.Valid()
    ensures courseId in store.courses && subjectId in store.subjects ==>
      store.links == old(store.links) + {(courseId, subjectId)}
    ensures courseId !in store.courses || subjectId !in store.subjects ==> store.links == old(store.links)
  {
    var first := store.AddSubjectToCourse(courseId, subjectId);
    ghost var once := store.links;
    var second := store.AddSubjectToCourse(courseId, subjectId);
    assert first.Ok? <==> second.Ok?;
    assert store.links == once;
  }

  /** One course with one subject and one enrolled student. */
  method EnrolOne() returns (store: AcademicStores.AcademicStore)
    ensures fresh(store) && store.Valid()
    ensures store.courses == map[1 := "Rob\U{00F3}tica"] && store.subjects == map[1 := "Sensores"]
    ensures store.students == map[1 := StudentRow("Zoe", 1)] && store.links == {(1, 1)}
    ensures store.nextCourseId == 2 && store.nextSubjectId == 2 && store.nextStudentId == 2
  {
    store := new AcademicStores.AcademicStore();
    var robotics := store.CreateCourse("Rob\U{00F3}tica");
    assert robotics == Ok(1);
    var sensors := store.CreateSubject("Sensores");
    assert sensors == Ok(1);
    var linked := store.AddSubjectToCourse(1, 1);
    var zoe, warned := store.CreateStudent("Zoe", 1);
    assert zoe == Ok(1) && !warned;
  }

  /** While a student is enrolled and a subject offered, neither the course nor
      the subject can be removed, and the course name cannot be reused. */
  method InUseIsProtected(store: AcademicStores.AcademicStore)
    requires store.Valid()
    requires store.courses == map[1 := "Rob\U{00F3}tica"] && store.subjects == map[1 := "Sensores"]
    requires store.students == map[1 := StudentRow("Zoe", 1)] && store.links == {(1, 1)}
    modifies store
    ensures unchanged(store)
  {
    var again := store.CreateCourse("Rob\U{00F3}tica");
    assert 1 in NameQueries.Named(store.courses, "Rob\U{00F3}tica");
    assert again == DuplicateName;
    var dropCourse := store.DeleteCourse(1);
    assert 1 in StudentRepository.OfCourse(store.students, 1);
    assert dropCourse == HasDependents;
    var dropSubject := store.DeleteSubject(1);
    assert (1, 1) in SubjectRepository.RowsOf(store.links, 1);
    assert dropSubject == HasDependents;
  }

  /** After the student moves to a new course, the old course can be removed,
      taking its association rows with it, and then the subject too; a
      student of the same name is only flagged. */
  method TransferFreesCourse(store: AcademicStores.AcademicStore)
    requires store.Valid()
    requires store.courses == map[1 := "Rob\U{00F3}tica"] && store.subjects == map[1 := "Sensores"]
    requires store.students == map[1 := StudentRow("Zoe", 1)] && store.links == {(1, 1)}
    requires store.nextCourseId == 2 && store.nextStudentId == 2
    modifies store
    ensures store.courses == map[2 := "Mecatr\U{00F4}nica"] && store.subjects == map[] && store.links == {}
  {
    var mechatronics := store.CreateCourse("Mecatr\U{00F4}nica");
    assert "Mecatr\U{00F4}nica" != "Rob\U{00F3}tica";
    assert mechatronics == Ok(2);
    var moved := store.TransferStudent(1, 2);
    assert moved.Ok?;
    var dropped := store.DeleteCourse(1);
    assert dropped.Ok?;
    assert store.links == {};
    var orphan := store.DeleteSubject(1);
    assert orphan.Ok?;
    var twin, twinWarned := store.CreateStudent("Zoe", 2);
    assert 1 in store.students && store.students[1].name == "Zoe";
    assert twin == Ok(2) && twinWarned;
  }
}
