/** The roster store itself: one object owning the class-name-to-students map. */
module Repository {
  import opened Wrappers
  import opened IgnoreCase
  import opened Roster

  class StudentRepository {
    /** Class name to the students of that class, in insertion order. */
    var classes: Classes

    /** A new store knows no class. */
    constructor()
      ensures classes == map[]
    {
      classes := map[];
    }

    /** Appends the student to the class, creating the class first when it is new. */
    method AddStudent(className: string, student: Student)
      modifies this
      ensures classes == AddTo(old(classes), className, student)
    {
      if className !in classes {
        classes := classes[className := []];
      }
      classes := classes[className := classes[className] + [student]];
    }

    /** The students of the class in insertion order, or nothing when the class is unknown. */
    method GetAllStudentsByClass(className: string) returns (r: Option<seq<Student>>)
      ensures r.None? <==> className !in classes
      ensures r.Some? ==> r.value == classes[className]
    {
      if className in classes {
        r := Some(classes[className]);
      } else {
        r := None;
      }
    }

    /**
     * Nothing when the class is unknown; otherwise the first student, in
     * list order, whose name equals studentName ignoring case, if any.
     */
    method GetStudentByNameAndClass(className: string, studentName: string) returns (r: Option<Student>)
      ensures r == FindIn(classes, className, studentName)
    {
      if className !in classes {
        return None;
      }
      var students := classes[className];
      var i := 0;
      while i < |students|
        invariant 0 <= i <= |students|
        invariant forall j :: 0 <= j < i ==> !Matches(students[j], studentName)
      {
        if Matches(students[i], studentName) {
          FirstMatchUnique(students, studentName, i);
          return Some(students[i]);
        }
        i := i + 1;
      }
      return None;
    }

    /**
     * Deletes the first student of the class whose name equals studentName
     * ignoring case; leaves the store as it was when the class is unknown or
     * no student answers to the name.
     */
    method RemoveStudent(className: string, studentName: string)
      modifies this
      ensures classes == RemoveFrom(old(classes), className, studentName)
    {
      if className !in classes {
        return;
      }
      var student := GetStudentByNameAndClass(className, studentName);
      if student.None? {
        return;
      }
      RemoveMatchedStudent(classes[className], studentName, FirstMatch(classes[className], studentName).value);
      // List<T>.Remove: the first element equal to the one found
      classes := classes[className := RemoveFirst(classes[className], student.value)];
    }
  }

  /**
   * A caller of the store: two students of the same name, then one removal
   * that leaves the class known, then another that empties it.
   */
  method RemovalScenario()
  {
    var bob10, bob12 := Student("Bob", 10), Student("Bob", 12);
    var store := new StudentRepository();
    store.AddStudent("A1", bob10);
    assert store.classes == map["A1" := [bob10]];
    store.AddStudent("A1", bob12);
    AddToSingleClass("A1", [bob10], bob12);
    assert [bob10] + [bob12] == [bob10, bob12];
    var unknown := store.GetAllStudentsByClass("a1");
    assert unknown == None by {
      assert "a1" != "A1" by { assert "a1"[0] != "A1"[0]; }
    }
    NameExamples();
    FirstMatchUnique([bob10, bob12], "bob", 0);
    RemoveFromSingleClass("A1", [bob10, bob12], "bob", 0);
    assert DeleteAt([bob10, bob12], 0) == [bob12];
    store.RemoveStudent("A1", "bob");
    var rest := store.GetAllStudentsByClass("A1");
    assert rest == Some([bob12]);
    FirstMatchUnique([bob12], "bob", 0);
    RemoveFromSingleClass("A1", [bob12], "bob", 0);
    store.RemoveStudent("A1", "bob");
    var emptied := store.GetAllStudentsByClass("A1");
    assert emptied == Some([]);
    var none := store.GetStudentByNameAndClass("A1", "bob");
    assert none == None;
  }
}
