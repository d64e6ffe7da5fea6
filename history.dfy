/**
 * Sequences of store operations, as the single caller issues them one after
 * another, and the invariants that hold over every such sequence.
 */
module History {
  import opened Wrappers
  import opened IgnoreCase
  import opened Roster

  /** One mutating call into the store. */
  datatype Command =
    | AddCommand(className: string, student: Student)
    | RemoveCommand(className: string, studentName: string)

  function Apply(m: Classes, cmd: Command): Classes {
    match cmd
    case AddCommand(c, st) => AddTo(m, c, st)
    case RemoveCommand(c, n) => RemoveFrom(m, c, n)
  }

  /** The state after issuing the commands in order. */
  function Run(m: Classes, cmds: seq<Command>): Classes
    decreases |cmds|
  {
    if cmds == [] then m else Run(Apply(m, cmds[0]), cmds[1..])
  }

  /** The classes some command of the sequence adds a student to. */
  function AddedClasses(cmds: seq<Command>): set<string>
    decreases |cmds|
  {
    if cmds == [] then {}
    else (if cmds[0].AddCommand? then {cmds[0].className} else {}) + AddedClasses(cmds[1..])
  }

  /** The students a sequence of commands adds to one class, in the order they are added. */
  function AddedTo(cmds: seq<Command>, className: string): seq<Student>
    decreases |cmds|
  {
    if cmds == [] then []
    else (if cmds[0].AddCommand? && cmds[0].className == className then [cmds[0].student] else [])
         + AddedTo(cmds[1..], className)
  }

  predicate OnlyAdds(cmds: seq<Command>) {
    forall k :: 0 <= k < |cmds| ==> cmds[k].AddCommand?
  }

  /**
   * Keys are never deleted: after any sequence of commands the known classes
   * are those known before plus those some student was added to.
   */
  lemma {:induction false} KeysAreAddedClasses(m: Classes, cmds: seq<Command>)
    ensures Run(m, cmds).Keys == m.Keys + AddedClasses(cmds)
    decreases |cmds|
  {
    if cmds != [] {
      KeysAreAddedClasses(Apply(m, cmds[0]), cmds[1..]);
    }
  }

  /** From an empty store, a class is known exactly when some student was added to it. */
  lemma KnownIffEverAdded(cmds: seq<Command>, className: string)
    ensures className in Run(map[], cmds) <==> className in AddedClasses(cmds)
  {
    KeysAreAddedClasses(map[], cmds);
  }

  /** One addition extends the class it names by the student and leaves every other class as it was. */
  lemma StudentsAfterAdd(m: Classes, className: string, student: Student, c: string)
    ensures Students(AddTo(m, className, student), c)
         == Students(m, c) + (if c == className then [student] else [])
  {
  }

  /** The tail of an add-only sequence is add-only (a separate lemma keeps the inductive step small). */
  lemma OnlyAddsTail(cmds: seq<Command>)
    requires cmds != [] && OnlyAdds(cmds)
    ensures cmds[0].AddCommand? && OnlyAdds(cmds[1..])
  {
    forall k | 0 <= k < |cmds| - 1 ensures cmds[1..][k].AddCommand? {
      assert cmds[1..][k] == cmds[k + 1];
    }
  }

  /** Associativity of concatenation, stated apart so the inductive step below stays cheap to check. */
  lemma ConcatAssoc(a: seq<Student>, b: seq<Student>, c: seq<Student>)
    ensures a + b + c == a + (b + c)
  {
  }

  /** Adding only: every class lists what it held followed by the students added to it, in insertion order. */
  lemma {:induction false} AddsKeepInsertionOrder(m: Classes, cmds: seq<Command>, className: string)
    requires OnlyAdds(cmds)
    ensures Students(Run(m, cmds), className) == Students(m, className) + AddedTo(cmds, className)
    decreases |cmds|
  {
    if cmds != [] {
      var cmd, rest := cmds[0], cmds[1..];
      OnlyAddsTail(cmds);
      var m' := Apply(m, cmd);
      var added := if cmd.className == className then [cmd.student] else [];
      assert AddedTo(cmds, className) == added + AddedTo(rest, className);
      AddsKeepInsertionOrder(m', rest, className);
      StudentsAfterAdd(m, cmd.className, cmd.student, className);
      ConcatAssoc(Students(m, className), added, AddedTo(rest, className));
    }
  }

  /** Starting empty and only adding, a class lists exactly the students added to it in insertion order. */
  lemma ListingIsInsertionOrder(cmds: seq<Command>, className: string)
    requires OnlyAdds(cmds)
    ensures className in Run(map[], cmds) <==> className in AddedClasses(cmds)
    ensures className in Run(map[], cmds) ==> Run(map[], cmds)[className] == AddedTo(cmds, className)
  {
    KnownIffEverAdded(cmds, className);
    AddsKeepInsertionOrder(map[], cmds, className);
  }

  /** f lists, in increasing order, the positions of b at which the elements of a stand. */
  ghost predicate Embeds(a: seq<Student>, b: seq<Student>, f: seq<nat>) {
    && |f| == |a|
    && (forall k :: 0 <= k < |f| ==> f[k] < |b| && a[k] == b[f[k]])
    && (forall k, l :: 0 <= k < l < |f| ==> f[k] < f[l])
  }

  /** a is b with some elements left out, the others in their original order. */
  ghost predicate IsSubsequence(a: seq<Student>, b: seq<Student>) {
    exists f :: Embeds(a, b, f)
  }

  lemma SubsequenceReflexive(a: seq<Student>)
    ensures IsSubsequence(a, a)
  {
    var f := seq(|a|, k requires 0 <= k < |a| => k);
    assert Embeds(a, a, f);
  }

  lemma SubsequenceTransitive(a: seq<Student>, b: seq<Student>, c: seq<Student>)
    requires IsSubsequence(a, b) && IsSubsequence(b, c)
    ensures IsSubsequence(a, c)
  {
    var f :| Embeds(a, b, f);
    var g :| Embeds(b, c, g);
    var h := seq(|f|, k requires 0 <= k < |f| => g[f[k]]);
    assert Embeds(a, c, h);
  }

  /** Deleting one element leaves a subsequence. */
  lemma DeleteAtIsSubsequence(s: seq<Student>, i: nat)
    requires i < |s|
    ensures IsSubsequence(DeleteAt(s, i), s)
  {
    var d := DeleteAt(s, i);
    var f := seq(|d|, k requires 0 <= k < |d| => if k < i then k else k + 1);
    assert Embeds(d, s, f);
  }

  /** Appending the same list to both sides keeps a subsequence a subsequence. */
  lemma SubsequenceAppend(a: seq<Student>, b: seq<Student>, t: seq<Student>)
    requires IsSubsequence(a, b)
    ensures IsSubsequence(a + t, b + t)
  {
    var f :| Embeds(a, b, f);
    var g := f + seq(|t|, j requires 0 <= j < |t| => |b| + j);
    assert Embeds(a + t, b + t, g);
  }

  /** One command keeps a class's list a subsequence of its old list followed by what the command adds to it. */
  lemma StepKeepsOrder(m: Classes, cmd: Command, c: string)
    ensures IsSubsequence(Students(Apply(m, cmd), c),
                          Students(m, c) + AddedTo([cmd], c))
  {
    assert AddedTo([cmd], c) == (if cmd.AddCommand? && cmd.className == c then [cmd.student] else []) by {
      assert [cmd][1..] == [];
    }
    match cmd
    case AddCommand(className, student) =>
      StudentsAfterAdd(m, className, student, c);
      SubsequenceReflexive(Students(m, c) + AddedTo([cmd], c));
    case RemoveCommand(className, studentName) =>
      assert Students(m, c) + AddedTo([cmd], c) == Students(m, c);
      if className in m && className == c && FirstMatch(m[c], studentName).Some? {
        DeleteAtIsSubsequence(m[c], FirstMatch(m[c], studentName).value);
        assert Students(Apply(m, cmd), c) == DeleteAt(m[c], FirstMatch(m[c], studentName).value);
      } else {
        assert Students(Apply(m, cmd), c) == Students(m, c);
        SubsequenceReflexive(Students(m, c));
      }
  }

  /** The students a command sequence adds are those its first command adds, then those the rest add. */
  lemma AddedToCons(cmds: seq<Command>, c: string)
    requires cmds != []
    ensures AddedTo(cmds, c) == AddedTo([cmds[0]], c) + AddedTo(cmds[1..], c)
  {
    assert [cmds[0]][1..] == [];
  }

  /**
   * Over any sequence of adds and removes, each class lists a subsequence of
   * what it held followed by the students added to it: additions land at the
   * end and removals never reorder what stays.
   */
  lemma {:induction false} KeepsInsertionOrder(m: Classes, cmds: seq<Command>, c: string)
    ensures IsSubsequence(Students(Run(m, cmds), c), Students(m, c) + AddedTo(cmds, c))
    decreases |cmds|
  {
    if cmds == [] {
      assert Students(m, c) + AddedTo(cmds, c) == Students(m, c);
      SubsequenceReflexive(Students(m, c));
    } else {
      var cmd, rest := cmds[0], cmds[1..];
      var m' := Apply(m, cmd);
      KeepsInsertionOrder(m', rest, c);
      StepKeepsOrder(m, cmd, c);
      SubsequenceAppend(Students(m', c), Students(m, c) + AddedTo([cmd], c), AddedTo(rest, c));
      AddedToCons(cmds, c);
      ConcatAssoc(Students(m, c), AddedTo([cmd], c), AddedTo(rest, c));
      SubsequenceTransitive(Students(Run(m', rest), c), Students(m', c) + AddedTo(rest, c),
                            Students(m, c) + AddedTo(cmds, c));
    }
  }

  /** Starting empty, every class lists a subsequence of the students added to it, in insertion order. */
  lemma ListingFollowsInsertionOrder(cmds: seq<Command>, c: string)
    ensures c in Run(map[], cmds) ==> IsSubsequence(Run(map[], cmds)[c], AddedTo(cmds, c))
  {
    KeepsInsertionOrder(map[], cmds, c);
    assert Students(map[], c) + AddedTo(cmds, c) == AddedTo(cmds, c);
  }

  /**
   * Two students named Bob in class A1, aged 10 and 12; removing "bob" takes
   * away the first and leaves the one aged 12.
   */
  lemma DuplicateRemovalExample()
    ensures
      var m := AddTo(AddTo(map[], "A1", Student("Bob", 10)), "A1", Student("Bob", 12));
      RemoveFrom(m, "A1", "bob") == map["A1" := [Student("Bob", 12)]]
  {
    var bob10, bob12 := Student("Bob", 10), Student("Bob", 12);
    assert AddTo(map[], "A1", bob10) == map["A1" := [bob10]];
    AddToSingleClass("A1", [bob10], bob12);
    assert [bob10] + [bob12] == [bob10, bob12];
    NameExamples();
    FirstMatchUnique([bob10, bob12], "bob", 0);
    RemoveFromSingleClass("A1", [bob10, bob12], "bob", 0);
    assert DeleteAt([bob10, bob12], 0) == [bob12];
  }

  /**
   * Alice (10) and Bob (11) added to A1: the class lists them in that order,
   * "bob" finds Bob, and removing "alice" leaves only Bob.
   */
  lemma AliceAndBobExample()
    ensures
      var m := AddTo(AddTo(map[], "A1", Student("Alice", 10)), "A1", Student("Bob", 11));
      && m == map["A1" := [Student("Alice", 10), Student("Bob", 11)]]
      && FindIn(m, "A1", "bob") == Some(Student("Bob", 11))
      && RemoveFrom(m, "A1", "alice") == map["A1" := [Student("Bob", 11)]]
  {
    var alice, bob := Student("Alice", 10), Student("Bob", 11);
    assert AddTo(map[], "A1", alice) == map["A1" := [alice]];
    AddToSingleClass("A1", [alice], bob);
    assert [alice] + [bob] == [alice, bob];
    NameExamples();
    FirstMatchUnique([alice, bob], "bob", 1);
    FirstMatchUnique([alice, bob], "alice", 0);
    RemoveFromSingleClass("A1", [alice, bob], "alice", 0);
    assert DeleteAt([alice, bob], 0) == [bob];
  }
}
