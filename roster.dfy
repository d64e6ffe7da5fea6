/**
 * The abstract state of the roster store and the meaning of its four
 * operations, as functions of a map from class name to the ordered list of
 * the students of that class.
 */
module Roster {
  import opened Wrappers
  import opened IgnoreCase

  /** A C# `int`. */
  newtype Int32 = x: int | -0x8000_0000 <= x < 0x8000_0000

  /** A student: a name, kept with its original casing, and an age. */
  datatype Student = Student(name: string, age: Int32)

  /** Class name (compared exactly) to the students of that class, in insertion order. */
  type Classes = map<string, seq<Student>>

  /** A student answers to a name when the names are equal ignoring case. */
  predicate Matches(st: Student, studentName: string): (r: bool)
    ensures studentName == st.name ==> r
    ensures r ==> |st.name| == |studentName|
  {
    EqualsIgnoreCase(st.name, studentName)
  }

  /** The list a class holds, or the empty list a new class starts from. */
  function Students(m: Classes, className: string): seq<Student> {
    if className in m then m[className] else []
  }

  /** The index of the first student, in list order, that answers to the name. */
  function FirstMatch(s: seq<Student>, studentName: string): (r: Option<nat>)
    ensures r.None? <==> forall j :: 0 <= j < |s| ==> !Matches(s[j], studentName)
    ensures r.Some? ==> r.value < |s| && Matches(s[r.value], studentName)
    ensures r.Some? ==> forall j :: 0 <= j < r.value ==> !Matches(s[j], studentName)
  {
    if s == [] then None
    else if Matches(s[0], studentName) then Some(0)
    else match FirstMatch(s[1..], studentName)
      case None => None
      case Some(i) => Some(i + 1)
  }

  /** The first index holding a match is unique: any index that matches with no match before it is that index. */
  lemma FirstMatchUnique(s: seq<Student>, studentName: string, i: nat)
    requires i < |s| && Matches(s[i], studentName)
    requires forall j :: 0 <= j < i ==> !Matches(s[j], studentName)
    ensures FirstMatch(s, studentName) == Some(i)
  {
    var r := FirstMatch(s, studentName);
    assert r.Some?;
    assert !(r.value < i);
    assert !(i < r.value);
  }

  /** Deletion of the element at index i; every other element keeps its relative order. */
  function DeleteAt<T>(s: seq<T>, i: nat): (r: seq<T>)
    requires i < |s|
    ensures |r| == |s| - 1
    ensures forall j :: 0 <= j < i ==> r[j] == s[j]
    ensures forall j :: i <= j < |r| ==> r[j] == s[j + 1]
  {
    s[..i] + s[i + 1..]
  }

  /** Deletion at an index removes one occurrence of the element there and keeps all others. */
  lemma DeleteAtMultiset<T>(s: seq<T>, i: nat)
    requires i < |s|
    ensures multiset(DeleteAt(s, i)) + multiset{s[i]} == multiset(s)
  {
    assert s == s[..i] + [s[i]] + s[i + 1..];
  }

  /** `List<T>.IndexOf`: the index of the first element equal to x. */
  function IndexOf<T(==)>(s: seq<T>, x: T): (r: Option<nat>)
    ensures r.None? <==> x !in s
    ensures r.Some? ==> r.value < |s| && s[r.value] == x
    ensures r.Some? ==> forall j :: 0 <= j < r.value ==> s[j] != x
  {
    if s == [] then None
    else if s[0] == x then Some(0)
    else match IndexOf(s[1..], x)
      case None => None
      case Some(i) => Some(i + 1)
  }

  /**
   * `List<T>.Remove`: delete the element at the index of the first one equal
   * to x, or leave the list unchanged when x does not occur in it.
   */
  function RemoveFirst<T(==)>(s: seq<T>, x: T): (r: seq<T>)
    ensures x !in s ==> r == s
    ensures x in s ==> |r| == |s| - 1 && multiset(r) + multiset{x} == multiset(s)
    ensures x in s ==>
      var i := IndexOf(s, x).value;
      && (forall j :: 0 <= j < i ==> r[j] == s[j])
      && (forall j :: i <= j < |r| ==> r[j] == s[j + 1])
  {
    match IndexOf(s, x)
    case None => s
    case Some(i) => DeleteAtMultiset(s, i); DeleteAt(s, i)
  }

  /**
   * Removing the student found by name deletes the first name match: no
   * student before it answers to the name, so none of them equals it.
   */
  lemma RemoveMatchedStudent(s: seq<Student>, studentName: string, i: nat)
    requires FirstMatch(s, studentName) == Some(i)
    ensures IndexOf(s, s[i]) == Some(i)
    ensures RemoveFirst(s, s[i]) == DeleteAt(s, i)
  {
    forall j | 0 <= j < i
      ensures s[j] != s[i]
    {
      assert !Matches(s[j], studentName);
    }
    var k := IndexOf(s, s[i]);
    assert k.Some? && !(k.value < i) && !(i < k.value);
  }

  /** AddStudent: create the class when it is new, then append the student at its end. */
  function AddTo(m: Classes, className: string, student: Student): (r: Classes)
    ensures r.Keys == m.Keys + {className}
    ensures |r[className]| == |Students(m, className)| + 1
    ensures r[className][|r[className]| - 1] == student
    ensures r[className][..|r[className]| - 1] == Students(m, className)
    ensures forall c :: c in m && c != className ==> r[c] == m[c]
  {
    m[className := Students(m, className) + [student]]
  }

  /**
   * GetStudentByNameAndClass: nothing when the class is unknown, otherwise the
   * first student of the class that answers to the name, if any.
   */
  function FindIn(m: Classes, className: string, studentName: string): (r: Option<Student>)
    ensures className !in m ==> r.None?
    ensures className in m ==>
      (r.None? <==> forall j :: 0 <= j < |m[className]| ==> !Matches(m[className][j], studentName))
    ensures r.Some? ==> className in m && Matches(r.value, studentName)
    ensures r.Some? ==>
      FirstMatch(m[className], studentName).Some? &&
      r.value == m[className][FirstMatch(m[className], studentName).value]
  {
    if className !in m then None
    else match FirstMatch(m[className], studentName)
      case None => None
      case Some(i) => Some(m[className][i])
  }

  /**
   * RemoveStudent: nothing changes when the class is unknown or no student of
   * it answers to the name; otherwise exactly the first match is deleted.
   * No class key is ever removed.
   */
  function RemoveFrom(m: Classes, className: string, studentName: string): (r: Classes)
    ensures r.Keys == m.Keys
    ensures forall c :: c in m && c != className ==> r[c] == m[c]
    ensures className !in m ==> r == m
    ensures className in m && FirstMatch(m[className], studentName).None? ==> r == m
    ensures className in m && FirstMatch(m[className], studentName).Some? ==>
      var s, i := m[className], FirstMatch(m[className], studentName).value;
      && |r[className]| == |s| - 1
      && (forall j :: 0 <= j < i ==> r[className][j] == s[j])
      && (forall j :: i <= j < |r[className]| ==> r[className][j] == s[j + 1])
  {
    if className !in m then m
    else match FirstMatch(m[className], studentName)
      case None => m
      case Some(i) => m[className := DeleteAt(m[className], i)]
  }

  /**
   * Appending never changes which student a name finds when some student
   * already answered to it; otherwise the new student is found when its name
   * matches, and still nothing is found when it does not.
   */
  lemma {:induction false} FindAfterAdd(m: Classes, className: string, student: Student, studentName: string)
    ensures FindIn(m, className, studentName).Some? ==>
      FindIn(AddTo(m, className, student), className, studentName) == FindIn(m, className, studentName)
    ensures FindIn(m, className, studentName).None? ==>
      FindIn(AddTo(m, className, student), className, studentName)
      == if Matches(student, studentName) then Some(student) else None
  {
    var s := Students(m, className);
    var s' := AddTo(m, className, student)[className];
    assert s' == s + [student];
    match FindIn(m, className, studentName)
    case Some(st) =>
      var i := FirstMatch(s, studentName).value;
      FirstMatchUnique(s', studentName, i);
    case None =>
      assert forall j :: 0 <= j < |s| ==> !Matches(s[j], studentName);
      if Matches(student, studentName) {
        FirstMatchUnique(s', studentName, |s|);
      }
  }

  /** In particular a student just added to a class is found by its own name with the case changed. */
  lemma AddedStudentIsFound(m: Classes, className: string)
    requires className !in m
    ensures FindIn(AddTo(m, className, Student("Alice", 10)), className, "aLICE") == Some(Student("Alice", 10))
  {
    NameExamples();
    FindAfterAdd(m, className, Student("Alice", 10), "aLICE");
  }

  /** Adding to the one class of a single-class store. */
  lemma AddToSingleClass(className: string, s: seq<Student>, student: Student)
    ensures AddTo(map[className := s], className, student) == map[className := s + [student]]
  {
    assert AddTo(map[className := s], className, student).Keys == {className};
  }

  /** Removing the first match from the one class of a single-class store. */
  lemma RemoveFromSingleClass(className: string, s: seq<Student>, studentName: string, i: nat)
    requires FirstMatch(s, studentName) == Some(i)
    ensures RemoveFrom(map[className := s], className, studentName) == map[className := DeleteAt(s, i)]
  {
    assert RemoveFrom(map[className := s], className, studentName).Keys == {className};
  }

  /** The number of students in a list that answer to a name. */
  function CountMatches(s: seq<Student>, studentName: string): nat {
    if s == [] then 0
    else (if Matches(s[0], studentName) then 1 else 0) + CountMatches(s[1..], studentName)
  }

  lemma {:induction false} CountMatchesAppend(a: seq<Student>, b: seq<Student>, studentName: string)
    ensures CountMatches(a + b, studentName) == CountMatches(a, studentName) + CountMatches(b, studentName)
  {
    if a == [] {
      assert a + b == b;
    } else {
      assert (a + b)[1..] == a[1..] + b;
      CountMatchesAppend(a[1..], b, studentName);
    }
  }

  /**
   * Removal takes away exactly one of the students that answer to the name:
   * when two share it, the other stays.
   */
  lemma RemoveFromDropsOneMatch(m: Classes, className: string, studentName: string)
    requires className in m && FirstMatch(m[className], studentName).Some?
    ensures className in RemoveFrom(m, className, studentName)
    ensures CountMatches(RemoveFrom(m, className, studentName)[className], studentName)
         == CountMatches(m[className], studentName) - 1
  {
    CountMatchesDeleteAt(m[className], studentName, FirstMatch(m[className], studentName).value);
  }

  /** Deleting a student that answers to the name lowers the number of such students by one. */
  lemma CountMatchesDeleteAt(s: seq<Student>, studentName: string, i: nat)
    requires i < |s| && Matches(s[i], studentName)
    ensures CountMatches(DeleteAt(s, i), studentName) == CountMatches(s, studentName) - 1
  {
    assert s == s[..i] + ([s[i]] + s[i + 1..]);
    CountMatchesAppend(s[..i], [s[i]] + s[i + 1..], studentName);
    CountMatchesAppend([s[i]], s[i + 1..], studentName);
    CountMatchesAppend(s[..i], s[i + 1..], studentName);
    assert CountMatches([s[i]], studentName) == 1 by {
      assert [s[i]][1..] == [];
    }
  }

  /** Removal keeps every student but the removed one, as a multiset. */
  lemma RemoveFromIsPermutationMinusOne(m: Classes, className: string, studentName: string)
    requires className in m && FirstMatch(m[className], studentName).Some?
    ensures className in RemoveFrom(m, className, studentName)
    ensures multiset(RemoveFrom(m, className, studentName)[className])
              + multiset{m[className][FirstMatch(m[className], studentName).value]}
         == multiset(m[className])
  {
    DeleteAtMultiset(m[className], FirstMatch(m[className], studentName).value);
  }

  /**
   * A class whose last student is removed stays known, with an empty list,
   * rather than becoming unknown.
   */
  lemma RemoveLastStudentKeepsClass(m: Classes, className: string, student: Student)
    requires className in m && m[className] == [student]
    ensures className in RemoveFrom(m, className, student.name)
    ensures RemoveFrom(m, className, student.name)[className] == []
  {
    EqualsIgnoreCaseIsEquivalence(student.name, student.name, student.name);
    assert Matches(m[className][0], student.name);
  }

  /** Class names are compared exactly: adding to "a1" leaves "A1" as it was. */
  lemma ClassNamesAreCaseSensitive(m: Classes, student: Student)
    ensures "A1" in AddTo(m, "a1", student) <==> "A1" in m
    ensures "A1" in m ==> AddTo(m, "a1", student)["A1"] == m["A1"]
  {
    assert "a1" != "A1" by { assert "a1"[0] != "A1"[0]; }
  }
}
