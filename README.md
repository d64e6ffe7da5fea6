# Roster store in Dafny

A verified model of `StudentRepository`, the in-memory roster store of a
console student manager written in C#. The store keeps one dictionary from a
class name to the ordered list of the students of that class and offers four
operations: add a student to a class, list a class, find one student of a
class by name, and remove one student of a class by name. Class names are
compared exactly (the dictionary's default comparer); student names are
compared ordinally ignoring case (`StringComparison.OrdinalIgnoreCase`).

Files and modules:

- `wrappers.dfy` — `Wrappers.Option`, standing for the store's nullable
  results (`Student?`, `List<Student>?`).
- `ignore_case.dfy` — `IgnoreCase`: the ordinal case-insensitive comparison,
  with an ASCII case fold.
- `roster.dfy` — `Roster`: the `Student` value (Program.cs:5-9; `Age` is a C#
  `int`, so `Int32`), the abstract state `Classes = map<string, seq<Student>>`
  (the `_classes` field, Program.cs:37), and the meaning of each operation as
  a function of that map (`AddTo`, `FindIn`, `RemoveFrom`), with the lemmas
  about them. `IndexOf` and `RemoveFirst` model `List<T>.IndexOf` and
  `List<T>.Remove`; `FirstMatch` models the `FirstOrDefault` scan.
- `history.dfy` — `History`: sequences of add and remove calls issued one
  after another, and the invariants that hold over every such sequence
  (class keys are never deleted; a class lists its students in insertion
  order, exactly so when only adding and as a subsequence once removals are
  mixed in), plus the worked examples of the store's intended behaviour.
- `repository.dfy` — `Repository.StudentRepository`: the class itself, with
  the map as its field. `AddStudent` and `RemoveStudent` update the field
  (`modifies this`) and are proved to leave exactly `AddTo(old(classes), …)`
  and `RemoveFrom(old(classes), …)`. The two getters have no `modifies`
  clause, so they cannot change the store; `GetStudentByNameAndClass` scans
  the list with a loop, as `FirstOrDefault` does, and is proved to return
  `FindIn(classes, …)`. `RemoveStudent` calls that getter and then removes
  the found student the way `List<T>.Remove` does (first element equal to
  it), which `Roster.RemoveMatchedStudent` proves is the first name match.
  `RemovalScenario` is a caller that exercises the contracts: two students
  named Bob, two removals, the class still known with an empty list.

## Model

| member | source | states |
|---|---|---|
| `IgnoreCase.FoldChar` | Program.cs:75 | The folded character is never an ASCII lower-case letter; a lower-case letter folds to the upper-case letter at the fixed ASCII distance; every other character is unchanged. |
| `IgnoreCase.Fold` | Program.cs:75 | Folding a string keeps its length and folds each position independently. |
| `IgnoreCase.EqualsIgnoreCase` | Program.cs:75 | The comparison used for student names: equal lengths, and the ASCII-folded characters agree position by position. Its contract states that identical strings are equal ignoring case, that equal-ignoring-case strings have the same length, and that two strings are equal ignoring case exactly when their folds are equal. |
| `IgnoreCase.EqualsIgnoreCaseIsFoldEquality` | Program.cs:75 | Two names are equal ignoring case if and only if their folded forms are equal. |
| `IgnoreCase.FoldIdempotent` | Program.cs:75 | Folding an already folded name changes nothing. |
| `IgnoreCase.EqualsIgnoreCaseIsEquivalence` | Program.cs:75 | Comparison ignoring case is reflexive, symmetric and transitive. |
| `IgnoreCase.NameExamples` | Program.cs:75 | "Alice" matches "aLICE" and "alice", "Bob" matches "bob"; "Alice" does not match "Alise" or "bob". |
| `Roster.Matches` | Program.cs:75 | A student answers to a name when its stored name equals that name ignoring case. Its contract states that a student always answers to its own stored name, and only to names of the same length. |
| `Roster.FirstMatch` | Program.cs:75 | Nothing exactly when no student of the list answers to the name; otherwise an index in range whose student answers to the name and before which no student does. |
| `Roster.FirstMatchUnique` | Program.cs:75 | Any index whose student answers to the name, with no matching student before it, is the one the scan returns. |
| `Roster.DeleteAt` | Program.cs:94 | Deleting at an index shortens the list by one, keeps the elements before the index in place and shifts those after it down by one. |
| `Roster.DeleteAtMultiset` | Program.cs:94 | Deleting at an index removes exactly one occurrence of the element there and keeps every other element. |
| `Roster.IndexOf` | Program.cs:94 | Nothing exactly when the element does not occur; otherwise an index holding it with no equal element before it. |
| `Roster.RemoveFirst` | Program.cs:94 | Removing an element that does not occur leaves the list unchanged; removing one that occurs shortens the list by one, takes away exactly one occurrence of it (as a multiset), keeps every element before its first occurrence in place and shifts every element after it down by one. |
| `Roster.RemoveMatchedStudent` | Program.cs:86-94 | The first element equal to the student found by name is at the first name-match index, so removing that student deletes exactly that index. |
| `Roster.AddTo` | Program.cs:43-51 | After an add the keys are the old keys plus the class; the class's list is its old list (empty for a new class) with the student appended as its last element; every other class keeps its list. |
| `Roster.FindIn` | Program.cs:67-76 | Nothing for an unknown class; for a known class nothing exactly when no student answers to the name; otherwise the student at the first name-match index, which answers to the name. |
| `Roster.RemoveFrom` | Program.cs:78-96 | The keys never change; every other class is untouched; an unknown class or no name match leaves the store unchanged; otherwise the class's list loses exactly the first match, keeping the order of all the others. |
| `Roster.FindAfterAdd` | Program.cs:43-76 | Appending a student never changes which student a name already found; when nothing was found, the new student is found exactly when its name matches. |
| `Roster.AddedStudentIsFound` | Program.cs:43-76 | A student "Alice" just added to a new class is found by the query "aLICE". |
| `Roster.RemoveFromDropsOneMatch` | Program.cs:86-94 | A removal with a match reduces the number of students answering to the name by exactly one, so later same-named students stay. |
| `Roster.CountMatchesDeleteAt` | Program.cs:94 | Deleting a student that answers to the name lowers the number of students answering to it by exactly one. |
| `Roster.RemoveFromIsPermutationMinusOne` | Program.cs:86-94 | After a removal with a match the class holds the same students as before, as a multiset, minus the one at the first match. |
| `Roster.RemoveLastStudentKeepsClass` | Program.cs:78-96 | Removing the only student of a class leaves the class known with an empty list rather than unknown. |
| `Roster.ClassNamesAreCaseSensitive` | Program.cs:37-51 | Adding to class "a1" neither creates nor changes class "A1". |
| `History.StudentsAfterAdd` | Program.cs:43-51 | One add extends the list of the class it names by that student and leaves every other class's list as it was. |
| `History.KeysAreAddedClasses` | Program.cs:43-96 | After any sequence of adds and removes, the known classes are those known before plus every class a student was added to: no key is ever deleted. |
| `History.KnownIffEverAdded` | Program.cs:43-96 | Starting from an empty store, a class is known exactly when some student was ever added to it. |
| `History.AddsKeepInsertionOrder` | Program.cs:43-65 | Over a sequence of adds, each class lists what it held followed by the students added to it, in the order they were added. |
| `History.ListingIsInsertionOrder` | Program.cs:43-65 | Starting empty and only adding, a class is listed exactly when some student was added to it, and its list is those students in insertion order. |
| `History.DeleteAtIsSubsequence` | Program.cs:94 | Deleting one element of a list leaves a subsequence of it: the remaining elements keep their order. |
| `History.StepKeepsOrder` | Program.cs:43-96 | After one add or remove, each class's list is a subsequence of its old list followed by the student the command adds to that class, if any. |
| `History.KeepsInsertionOrder` | Program.cs:43-96 | Over any sequence of adds and removes, each class's list is a subsequence of its old list followed by the students added to it in insertion order: removals never reorder what stays. |
| `History.ListingFollowsInsertionOrder` | Program.cs:43-96 | Starting from an empty store, after any sequence of adds and removes each known class lists a subsequence of the students added to it, in insertion order. |
| `History.DuplicateRemovalExample` | Program.cs:43-96 | With Bob (10) and Bob (12) in A1, removing "bob" leaves A1 holding only Bob (12). |
| `History.AliceAndBobExample` | Program.cs:43-96 | After adding Alice (10) and Bob (11) to A1 the class lists them in that order, "bob" finds Bob (11), and removing "alice" leaves only Bob (11). |
| `Repository.StudentRepository.constructor` | Program.cs:37-41 | A new store knows no class. |
| `Repository.StudentRepository.AddStudent` | Program.cs:43-51 | The new state is `AddTo` of the old state: the class is created when new and the student appended at its end, nothing else changing. |
| `Repository.StudentRepository.GetAllStudentsByClass` | Program.cs:53-65 | Nothing exactly when the class is unknown; otherwise the class's full list in insertion order; the store is not changed. |
| `Repository.StudentRepository.GetStudentByNameAndClass` | Program.cs:67-76 | The scan returns `FindIn` of the current state: nothing for an unknown class, otherwise the first student answering to the name ignoring case, or nothing; the store is not changed. |
| `Repository.StudentRepository.RemoveStudent` | Program.cs:78-96 | The new state is `RemoveFrom` of the old state: unchanged for an unknown class or no name match, otherwise exactly the first name match deleted from that class. |

## Left out

- Console output: the messages written for an unknown class, an unknown student and after a removal (Program.cs:62, 71, 82, 90, 95) are diagnostics with no effect on the store. The store reports its two error cases only through these messages and through `null` results, so `RemoveStudent` returns nothing in the model either.
- `StudentService` and `StudentController` (Program.cs:103-165) only forward each call to the repository unchanged; the menu loop, input reading and age parsing of `StudentPresentation` and `Program.Main` (Program.cs:171-342) are console input handling. None of them is modelled.
- References: `Student` is a mutable class and `GetAllStudentsByClass` hands out the live list, so a caller could change the store through it. The model keeps students and lists as values. `List<T>.Remove` compares by reference; the model compares by value, and `Roster.RemoveMatchedStudent` shows that either way the element at the first name-match index is the one removed.
- Case folding: `OrdinalIgnoreCase` folds the whole Unicode range on UTF-16 code units; the model folds ASCII letters only and takes Dafny characters for .NET characters.
- Null arguments: a null class name (which makes the dictionary throw), a student whose name is null (which makes the name comparison throw) and a null `Student` passed to `AddStudent` (which the store accepts, after which any later find or remove in that class whose scan reaches it throws in the name comparison) are not modelled; strings and students are always present here.
- Collection internals (dictionary hashing, list capacity growth) are below the level of the model.
