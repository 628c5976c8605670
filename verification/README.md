# Verified model of four DogeChat core components

This project models four parts of the core of DogeChat, a chat client written in C, and proves
properties of them with Dafny 4.11. `dafny verify dfyconfig.toml` checks everything.

| component | files | source |
|---|---|---|
| array list | `ArrayListSpec`, `ArrayListOrder`, `ArrayListFloor`, `ArrayListCost`, `ArrayList` | src/core/doge-arraylist.c |
| condition evaluator, regex replacement | `EvalCompare`, `EvalMeaning`, `EvalOrder`, `EvalCondition`, `EvalTree`, `EvalSeams`, `EvalCorrect`, `EvalLoops`, `EvalRegex` | src/core/doge-eval.c |
| configuration options and their file | `ConfigValue`, `ConfigLaws`, `ConfigLookup`, `ConfigStore`, `ConfigFiles`, `ConfigText`, `ConfigLine`, `ConfigBuffer`, `ConfigReader`, `ConfigRoundTrip`, `ConfigReload` | src/core/doge-config-file.c |
| relative buffer jump | `BufferJump` | src/core/doge-command.c |

`CString` holds the C primitives they share: `strcmp`, `string_strcasecmp`, `strtol` in base 10
(section 7.22.1.4 of ISO/IEC 9899:2011), `%d`, the loop that skips spaces, and the search by name.

Each component is written twice: a specification on values (functions, transition systems), and
the imperative code that the C source has (classes whose fields change, linked lists, loops over
text, a line buffer cut by NULs). Every method is proved to compute or to step as its
specification does, and the main results are proved about the specification for all inputs and
all runs.

**Array list.** `ArrayList` keeps `size`, `size_alloc` and the slots as the C code does, and takes
the steps of the transition system `ArrayListSpec.Step`. Over every run the capacity stays within
exact bounds, reallocation copies at most 9/2 slots for each insertion and removal, whatever the
initial size and however often the list is cleared, and 9/2 is the best constant there is
(`ArrayListCost.CostPerOperationIff`), every stored pointer is in the list or has been handed to the
free callback, and additions make the stable sort of what was added, or the last element of each
class. The initial size is a floor of the allocated size exactly when it is at most 2 or the list
can never outgrow it: a list of 3 slots that takes a fourth element grows to 4 and then shrinks to
2. A list with duplicates can always outgrow it; one without can when, for one element more than the
initial size, there are pointers of which none is equal to a later one
(`ArrayListFloor.InitialSizeIsFloorIff`, for all four modes; a sorted list needs a comparator that
is a total preorder).

**Evaluator.** The C code rewrites strings and has no syntax tree. `EvalTree` defines trees, how
they are printed with spaces, and what they denote; `ConditionIsCorrect` shows that the evaluator
computes the denotation from the printed text, for any substitution of variables and any regex
engine. Truth and the operators are defined on texts in `EvalMeaning`, apart from the evaluator. Any
number of spaces may stand around an operator, and none when the operand does not touch it. On the
left of ||, && and == an operand touches when it ends in the operator's own character; on the right
it does when it begins with a character that makes an operator tried earlier: ~ after ==, !=, <= and
>=, or = after !=, <=, <, >= and >. That condition is exact: `EvalSeams.JoinSplitsIff` shows that
the text is cut into the operands of the tree if and only if it holds. So a==!x is read as intended
(`TouchingHarmless`), and a===b, with a= on the left, is cut into a and =b (`TouchingHarmful`).
Spaces after an operator without right operand belong to what surrounds it. Chains of || and of &&
may be printed without parentheses on either side; comparisons chain to the right and bind in the
order of their table. Evaluation ends whenever substitution never makes a text start with a
parenthesis (`Terminates`), and without that it need not (`Diverges`). The fuel of `EvalCond` makes
this a statement: any fuel above the length of the text gives the same result. Operands compare as
numbers when both are integer texts and as strings otherwise, so the order has cycles;
`EvalOrder.TransitiveExactly` says for which three texts it is transitive, and
`TransitiveWithAllIff` that two integer texts go together with all others exactly when their numbers
and their strings have the same order.

**Options.** Values are typed and may be null. `ConfigLaws` says what every text does to a value of
each type, what a reset leaves and what a new option is made from. A ranged integer can leave its
range, because after a relative step only one bound is tested; `SetKeepsValid` and `RunsStayValid`
say exactly when. Stepping an enumeration is an action of the integers modulo the number of names,
but for one case: a step of a negative number forward is refused when it would pass the first name,
though the same step backward is not (`EnumSteps`). Sections keep their options in a doubly linked
list sorted by name. Renaming an option updates the parent names in all files; `ParentAfterRename`
says exactly which parents still resolve as before: a parent that names the renamed option with
another case loses it (`CaseLosesParent`). A parent that is a full name to the letter follows its
option through any run of renames (`InheritanceSurvivesRenames`). Writing a file and reading it back
into the same options, with any current values, restores every value (`WriteThenReloadRestores`, and
`ConfigReload.WriteThenReload` on the linked lists), provided that names and values fit on a line as
`Writable` says. What a line can keep is exact: `ConfigLine.OptionReadsIff` shows that the line of
an option is read back as its name and its value if and only if `LineKept` holds. A string must have
no line break (a value of two lines, a and b, is read as a quote and an a, `BreakCutsValue`), other
values must not need quotes. A name must have no line break and no space followed by =, must not end
in a space before a value, and must not hide a # behind leading spaces: the escape looks at the
first character only, so an option whose name is a space and then #a is read as a comment
(`HiddenComment`). Also, a ranged integer that has left its range is refused when it is read
(`PlainNumber`).

**Buffer jump.** `+N` goes to the N-th distinct visible number in cyclic order, and `-N` comes back
exactly when the starting number has a visible buffer.

## Model

| member | source | states |
|---|---|---|
| `CString.StrCaseCmpPreorder` | src/core/doge-string.c:135-154 | comparison without case is antisymmetric, transitive (strictly when one step is strict), and 0 exactly for texts equal up to the case of A-Z |
| `CString.EqualWithoutCase` | src/core/doge-string.c:135-154 | two texts are equal without case exactly when they have the same length and differ at most in the case of A-Z |
| `CString.StrCmpIsLexicographic` | src/core/doge-eval.c:602-603 | `strcmp` is the order of the dictionary: the first difference decides, and a text comes after its beginnings |
| `CString.StrToLReads` | src/core/doge-eval.c:590-600 | white space, a sign or none, and digits are read as that number, brought to the nearest `long`, up to the first character that is no digit |
| `CString.StrToLReadsNothing` | src/core/doge-eval.c:590-600 | without digits the number is 0 and nothing is read |
| `CString.DecRoundTrip` | src/core/doge-config-file.c:2271-2275 | what `%d` prints, `strtol` reads back to the same number with nothing left, for every `long` |
| `CString.IndexOfIsFirst` | src/core/doge-config-file.c:1353-1362 | the search by name gives the first name equal without case, and -1 just when there is none; options, sections, files and values are all found by it |
| `ArrayListSpec.SearchHitIsExact` | src/core/doge-arraylist.c:216-369 | on a list sorted by a total preorder a hit returns the first equal index and the index past the last equal one, and agrees with linear search |
| `ArrayListSpec.SearchMissIsExact` | src/core/doge-arraylist.c:216-369 | a miss names the one position where the element keeps the order, -1 exactly for the end |
| `ArrayListSpec.SortedSplit` | src/core/doge-arraylist.c:216-369 | the two insertion bounds split a sorted list into elements before, equal to and after the one searched |
| `ArrayListSpec.FirstEqual` | src/core/doge-arraylist.c:384-413 | the linear search returns the first equal element, or -1 when there is none |
| `ArrayListSpec.ShrinkPays` | src/core/doge-arraylist.c:157-201 | one removal keeps the capacity bounds, and its copying is paid by 9 half slots and the potential released |
| `ArrayListSpec.GrowPays` | src/core/doge-arraylist.c:117-151 | one insertion keeps the capacity bounds, and its copying is paid by 9 half slots and the potential released |
| `ArrayListSpec.RunBooks` | src/core/doge-arraylist.c:464-638 | in every run capacity, cost account and ownership balance |
| `ArrayListSpec.CapacityBounds` | src/core/doge-arraylist.c:123-201 | in every reachable state size <= size_alloc <= max(initial, 2*size, 1), size_alloc is at least half the initial size plus one, and a clear restores the initial size |
| `ArrayListFloor.InitialSizeIsFloorIff` | src/core/doge-arraylist.c:163-201 | in every mode, over all runs, size_alloc never falls below its initial value exactly when that value is at most 2 or the list can never hold one element more |
| `ArrayListFloor.SizeIsBounded` | src/core/doge-arraylist.c:464-530 | a list without duplicates never holds more elements than there are pointers of which none is equal to a later one |
| `ArrayListFloor.AddAllKeeps` | src/core/doge-arraylist.c:464-530 | adding elements of which none is equal to a later one keeps them all, in every mode |
| `ArrayListSpec.AmortisedCost` | src/core/doge-arraylist.c:123-201 | over a run reallocation copies at most 9/2 slots for each insertion and removal, for every initial size; clears cost nothing |
| `ArrayListCost.CostPerOperationIff` | src/core/doge-arraylist.c:123-201 | over all settings and runs reallocation copies at most p/q slots for each insertion and removal if and only if p/q is at least 9/2 |
| `ArrayListCost.Approached` | src/core/doge-arraylist.c:123-201 | for every q there is a list and a run that comes within 1/(2q) of 9/2 copied slots per operation |
| `ArrayListCost.GivesAllBack` | src/core/doge-arraylist.c:163-201 | a list created without slots has none again after two insertions and two removals |
| `ArrayListSpec.OwnershipConserved` | src/core/doge-arraylist.c:554-666 | in every run with a free callback the pointers inserted are those in the list and those freed; a pointer inserted once is in exactly one of them; without a callback nothing is freed |
| `ArrayListOrder.SortedByClasses` | src/core/doge-arraylist.c:464-530 | a sorted list is determined by the order inside each class of equal elements |
| `ArrayListOrder.SortedInsertItems` | src/core/doge-arraylist.c:464-530 | a sorted insertion drops the equal element when duplicates are forbidden and puts the new one after every element it does not precede |
| `ArrayListOrder.UnsortedInsertItems` | src/core/doge-arraylist.c:464-530 | an unsorted insertion drops all equal elements when duplicates are forbidden and puts the new one at the index among those left, or at the end |
| `ArrayListOrder.AlwaysOrdered` | src/core/doge-arraylist.c:464-638 | in the sorted modes every reachable list is sorted, strictly without duplicates |
| `ArrayListOrder.AddsAreStableSort` | src/core/doge-arraylist.c:540-546 | sorted with duplicates, adding gives the stable sort of what was added |
| `ArrayListOrder.AddsKeepLastOfClass` | src/core/doge-arraylist.c:540-546 | sorted without duplicates, adding gives a strictly sorted list of the last element of each class |
| `ArrayListOrder.UnsortedAdds` | src/core/doge-arraylist.c:540-546 | unsorted, adding keeps the order of addition, and without duplicates keeps the elements no later one equals |
| `ArrayList.ArrayList.New` | src/core/doge-arraylist.c:41-85 | a negative initial size gives NULL, any other a fresh list in its initial state |
| `ArrayList.ArrayList.Get` | src/core/doge-arraylist.c:104-111 | the element at an index, NULL outside the list |
| `ArrayList.ArrayList.Grow` | src/core/doge-arraylist.c:123-151 | room for one more element, the elements kept, new slots null, the slots copied counted |
| `ArrayList.ArrayList.Shrink` | src/core/doge-arraylist.c:163-201 | the allocated size after a removal, with the remaining elements kept |
| `ArrayList.ArrayList.BinarySearch` | src/core/doge-arraylist.c:216-369 | the quick answers and the loop give the hit or the insertion point that the specification gives |
| `ArrayList.ArrayList.Expand` | src/core/doge-arraylist.c:324-361 | from any equal element the walks find the first and pass the last equal one |
| `ArrayList.ArrayList.StandardSearch` | src/core/doge-arraylist.c:384-413 | linear search as specified |
| `ArrayList.ArrayList.Search` | src/core/doge-arraylist.c:427-449 | the search of the mode, and the element found |
| `ArrayList.ArrayList.Remove` | src/core/doge-arraylist.c:554-585 | exactly the element at the index is gone and the others keep their order; with a callback it is the one released, without one nothing is; an index outside the list returns -1 and changes nothing |
| `ArrayList.ArrayList.RemoveEqualRun` | src/core/doge-arraylist.c:475-485 | removes the run of equal elements at the index found |
| `ArrayList.ArrayList.RemoveEqualAll` | src/core/doge-arraylist.c:489-507 | removes every element equal to the new one |
| `ArrayList.ArrayList.Insert` | src/core/doge-arraylist.c:464-530 | one insertion step of the specification: `IsInserted` says what the list becomes; the returned index holds the new element |
| `ArrayList.ArrayList.Add` | src/core/doge-arraylist.c:539-546 | insertion at the end, or where the order wants it |
| `ArrayList.ArrayList.Clear` | src/core/doge-arraylist.c:595-638 | the list is empty, with a callback every element has been released in order, and the initial allocation is restored |
| `ArrayList.ArrayList.Free` | src/core/doge-arraylist.c:644-666 | with a free callback everything ever stored has been released |
| `EvalCompare.ComparisonLaws` | src/core/doge-eval.c:549-635 | exactly one of <, ==, > holds, the others are the disjunctions, and swapping the operands flips the operator |
| `EvalMeaning.TrueIs` | src/core/doge-eval.c:67-71 | a value counts as true when it is a text other than the empty one and 0 |
| `EvalMeaning.OrderPrecedes` | src/core/doge-eval.c:578-607 | texts are ordered as numbers when both are integers and as strings otherwise |
| `EvalMeaning.CompareSays` | src/core/doge-eval.c:549-635 | each operator of the table gives 1 or 0 as `Says` defines it; of =~ and !~ the right operand is the pattern, both are 0 when it does not compile, and every comparison with a missing value is 0 |
| `EvalCompare.OrderOfIntegers` | src/core/doge-eval.c:578-607 | integer texts compare as their numbers |
| `EvalCompare.OrderTransitive` | src/core/doge-eval.c:578-607 | the order is transitive on three texts unless exactly two of them are integers |
| `EvalCompare.OrderHasCycle` | src/core/doge-eval.c:578-607 | with two integers it need not be: 9 < 10 < 1a < 9 |
| `EvalOrder.TransitiveExactly` | src/core/doge-eval.c:578-607 | three texts, in every arrangement, are compared transitively exactly when they are not two integers that numbers and strings order differently and a text between them that is no integer |
| `EvalOrder.TransitiveWithAllIff` | src/core/doge-eval.c:578-607 | two integer texts are compared transitively with every third text exactly when their numbers and their strings have the same order |
| `EvalOrder.TextBetween` | src/core/doge-eval.c:578-607 | between two different integer texts, as strings, there is always one that is no integer |
| `EvalCondition.MoreFuel` | src/core/doge-eval.c:690-908 | more fuel never changes an outcome |
| `EvalCondition.Terminates` | src/core/doge-eval.c:690-908 | when substitution keeps parentheses out of the front, every evaluation ends within the length of its text and no value starts with a parenthesis |
| `EvalCondition.LoopRunsOnce` | src/core/doge-eval.c:838-893 | then, on any text that starts with a closed parenthesis, the inner text has a value, and the loop ends after one pass: with that value, or, when text follows, with the substitution of the value, a space and that text |
| `EvalCondition.Diverges` | src/core/doge-eval.c:838-893 | when x stands for (x), the text (x) y has no value with any fuel |
| `EvalCondition.LogicMeans` | src/core/doge-eval.c:747-778 | for any two texts: when the value of the first decides, the second is not needed; else the second decides, and the result is 1 or 0 |
| `EvalCondition.ComparisonMeans` | src/core/doge-eval.c:789-836 | for any two texts: =~ and !~ compare the substituted operands, the others their values, as `Says` defines it |
| `EvalCondition.ExpressionMeans` | src/core/doge-eval.c:1171-1180 | a condition is 0 when its value is missing, empty or 0, and otherwise 1 |
| `EvalSeams.FindIsFirst` | src/core/doge-eval.c:648-680 | the level search finds the first place where the text stands outside parentheses, and nothing exactly when there is none |
| `EvalSeams.TakeApartIs` | src/core/doge-eval.c:704-836 | a trimmed text is cut at the first operator of the tables that is found behind the beginning, at the place found, into the trimmed texts on both sides; without one it is taken as it is |
| `EvalSeams.BracketIsExact` | src/core/doge-eval.c:842-862 | a text is taken apart into an inner text and a rest exactly when it is (, the inner text, ) and the rest, and the inner text is balanced |
| `EvalSeams.MissingParenthesis` | src/core/doge-eval.c:842-862 | a text without operators that starts with a parenthesis nothing closes has no value, and is 0 as a condition |
| `EvalTree.LooserNotInside` | src/core/doge-eval.c:46-50 | no operator of the tables contains one that is tried earlier, so <= is seen before < and >= before > |
| `EvalTree.FindInside` | src/core/doge-eval.c:648-680 | nothing is found between parentheses |
| `EvalTree.FindInJoin` | src/core/doge-eval.c:648-680 | the operator that joins two operands is found between them unless it straddles the end of the left one |
| `EvalTree.LooserNotInJoin` | src/core/doge-eval.c:648-680 | no looser operator is found in the text of a tighter expression whose operands do not make one at a seam |
| `EvalTree.PrintPiece` | src/core/doge-eval.c:690-908 | printed trees are balanced and show no operator looser than their own outside parentheses |
| `EvalTree.TakesJoinApart` | src/core/doge-eval.c:735-836 | the text of an operator node splits at that operator into the texts of its operands, without the spaces, when the operands do not touch it |
| `EvalSeams.JoinSplitsIff` | src/core/doge-eval.c:735-836 | the printed form of an operator and its operands is cut into exactly these operands if and only if neither operand touches the operator with a character listed in `Touching` |
| `EvalSeams.TouchingHarmless` | src/core/doge-eval.c:735-836 | a==!x is the printed form of a tree that is read back |
| `EvalSeams.TouchingHarmful` | src/core/doge-eval.c:735-836 | a===b, printed from a= and b, is cut into a and =b |
| `EvalCorrect.RotateKeeps` | src/core/doge-eval.c:735-778 | nesting a chain of one logical operator on the right keeps its text and its meaning |
| `EvalCorrect.ConditionIsCorrect` | src/core/doge-eval.c:690-908 | on the printed form of any tree, with any spaces that keep operands from touching operators as `Touching` says, the evaluator returns what the tree denotes, and as a condition 0 when that is empty or 0 and otherwise 1 |
| `EvalLoops.StrStrLevel` | src/core/doge-eval.c:648-680 | the loop finds the first occurrence outside parentheses |
| `EvalLoops.FindOperator` | src/core/doge-eval.c:735-738 | the loop over a table finds the first operator that occurs behind the beginning |
| `EvalLoops.TakeTextApart` | src/core/doge-eval.c:704-836 | trimming and the two table loops take a text apart as specified |
| `EvalLoops.TakeTextBracket` | src/core/doge-eval.c:844-862 | the level loop finds the closing parenthesis or reports that it is missing |
| `EvalLoops.EvalBothSides` | src/core/doge-eval.c:747-777 | the second operand is evaluated only if the first leaves the result open; what counts as true is said by `IsLogic` |
| `EvalLoops.CompareBothSides` | src/core/doge-eval.c:806-836 | regex comparisons substitute only, others evaluate both sides |
| `EvalLoops.EvalExpressionCondition` | src/core/doge-eval.c:690-908 | the whole evaluation is the specified one |
| `EvalLoops.ReplaceParens` | src/core/doge-eval.c:842-901 | the loop that replaces leading parentheses by their value, and the final substitution |
| `EvalRegex.LastMatch` | src/core/doge-eval.c:974-984 | the last group is one that took part, or 0, and no higher group took part |
| `EvalRegex.CapturesAre` | src/core/doge-eval.c:333-343 | what the replacement is given: each group by its own offsets in the text, empty when it took no part, up to the highest that took part |
| `EvalRegex.CapturesShift` | src/core/doge-eval.c:974-992 | groups read in the whole string through shifted offsets are the groups of the part scanned |
| `EvalRegex.AdjustOffsets` | src/core/doge-eval.c:974-984 | the loop shifts the offsets of the groups that took part and finds the last one |
| `EvalRegex.ReplaceOne` | src/core/doge-eval.c:974-1023 | one pass keeps the meaning, makes the part not scanned shorter, and notes the end |
| `EvalRegex.ReplaceRegex` | src/core/doge-eval.c:934-1027 | for any matcher the loop ends; the result is the original text with each match replaced: `Scanned` says where each search began, what it found there and what the replacement was given |
| `EvalRegex.ReplacesFound` | src/core/doge-eval.c:934-1027 | the matches that the replacement goes through, with offsets in the original text |
| `EvalRegex.ReplacedIsRendering` | src/core/doge-eval.c:934-1027 | the original text alone decides where it is cut, so replaced text is never scanned again |
| `EvalRegex.ReplaceByItself` | src/core/doge-eval.c:934-1027 | replacing every match by itself changes nothing |
| `ConfigValue.ToIntInRange` | src/core/doge-config-file.c:1392-1394 | the conversion to `int` is in range, keeps what is an `int`, and changes a number by a multiple of 2^32 |
| `ConfigValue.EnumTargetBounds` | src/core/doge-config-file.c:1330-1362 | no step reaches an index past the last name |
| `ConfigValue.SetKeepsValid` | src/core/doge-config-file.c:1241-1543 | a set keeps the value in range, and null out where it is forbidden, exactly when no relative step passes the bound that is not tested |
| `ConfigValue.ForwardStepsAreHarmless` | src/core/doge-config-file.c:1388-1409 | a relative step with a non-negative number, from a value in range and without overflow, stays in range |
| `ConfigValue.InitialIsNearest` | src/core/doge-config-file.c:759-793 | a new ranged integer is the number of the range nearest to the one in the text, or to 0 when the text is no number |
| `ConfigValue.NewOptionIsValid` | src/core/doge-config-file.c:662-794 | a new option is valid, and is refused only when null is forbidden and no value is given |
| `ConfigValue.RunsStayValid` | src/core/doge-config-file.c:1110-1594 | over any run of set, reset and set_null the value is always valid exactly when every set of the run is harmless |
| `ConfigValue.OtherKindsStayValid` | src/core/doge-config-file.c:1110-1594 | booleans, enumerations and strings stay valid over any run |
| `ConfigValue.RangeCanBeLeft` | src/core/doge-config-file.c:1388-1409 | two ways for a ranged integer to leave its range |
| `ConfigValue.EnumSteppingIsCyclic` | src/core/doge-config-file.c:1330-1352 | steps of an enumeration add up, a step back undoes a step, and exactly the multiples of the number of names do nothing |
| `ConfigValue.PlainNumber` | src/core/doge-config-file.c:1410-1421 | a plain number is accepted exactly when its conversion to `int` is in range, and is kept as written exactly when it is an `int` |
| `ConfigLaws.IntegerSteps` | src/core/doge-config-file.c:1388-1409 | for every text behind the signs: without a number the step is refused, ++n is refused exactly above the maximum and --n exactly below the minimum, and otherwise the value, 0 when null, moves by n as an `int` |
| `ConfigLaws.IntegerIsSet` | src/core/doge-config-file.c:1410-1421 | any other text is refused unless it is a number in range, which becomes the value |
| `ConfigLaws.IntegerStepsAddUp` | src/core/doge-config-file.c:1388-1409 | inside the range steps add up and a step back undoes a step |
| `ConfigLaws.EnumSteps` | src/core/doge-config-file.c:1330-1352 | for every text behind the signs a step goes round the circle of names by that number; back it is never refused, forward exactly when the number is negative and passes the first name |
| `ConfigLaws.EnumIsSet` | src/core/doge-config-file.c:1353-1384 | any other text sets the first name equal to it without case, and is refused when there is none |
| `ConfigLaws.BooleanIsSet` | src/core/doge-config-file.c:1268-1319 | toggle flips a value and makes null true; the six texts of each table set it; any other text is refused |
| `ConfigLaws.StringIsSet` | src/core/doge-config-file.c:1444-1456 | a string takes any text |
| `ConfigLaws.NullIsSet` | src/core/doge-config-file.c:1554-1594 | a NULL text and nulling make a value null where that is allowed and else leave it, an error only for nulling |
| `ConfigLaws.ResetGivesDefault` | src/core/doge-config-file.c:1110-1213 | after a reset the value is the default, or null without one, whatever it was; it stays, with an error, exactly when there is no default and null is forbidden |
| `ConfigLaws.ResetForgets` | src/core/doge-config-file.c:1110-1213 | over any run nothing is left of what came before a reset |
| `ConfigLaws.NewOptionIs` | src/core/doge-config-file.c:662-811 | a new option has the default of its default text and the value of its value text, each filled in from the other where null is forbidden; what a text gives is said by `IsFirstValue` |
| `ConfigLookup.SplitFullName` | src/core/doge-config-file.c:405-427 | a full name is cut back into its parts exactly when file and section have no dot |
| `ConfigLookup.LookupFullName` | src/core/doge-config-file.c:975-1042 | looking up the full name of an option finds that option |
| `ConfigLookup.InsertEntryAt` | src/core/doge-config-file.c:486-503 | the position searched is where the sorted insertion puts the option |
| `ConfigLookup.InsertKeepsSorted` | src/core/doge-config-file.c:509-549 | a new name keeps the options strictly sorted |
| `ConfigLookup.RenameKeepsSorted` | src/core/doge-config-file.c:1673-1712 | so does renaming to a free name |
| `ConfigLookup.RunsKeepTheList` | src/core/doge-config-file.c:597-876 | over every run of create, rename and free the options are sorted and unique by name, and are exactly those created and not freed |
| `ConfigLookup.LookupAfterRename` | src/core/doge-config-file.c:1673-1743 | after a rename the new name finds the option, the old one nothing, and every other text what it found before |
| `ConfigLookup.ParentAfterRename` | src/core/doge-config-file.c:1714-1743 | a parent resolves as before exactly when it is the old full name to the letter, or refers to neither the old nor the new name |
| `ConfigLookup.CaseLosesParent` | src/core/doge-config-file.c:1714-1743 | a parent written F.s.a finds option a of f.s, is left alone when that is renamed to b, and then finds nothing |
| `ConfigLookup.InheritanceSurvivesRename` | src/core/doge-config-file.c:1673-1743 | an option that inherits from a live option by its full name still does, from the same option, after any rename |
| `ConfigLookup.InheritanceSurvivesRenames` | src/core/doge-config-file.c:1673-1743 | over any run of renames lookups stay well defined, and a parent that is a full name goes on to name, and to find, the same option |
| `ConfigStore.FindText` | src/core/doge-config-file.c:1353-1362 | the loop over a table of texts finds the first one equal without case |
| `ConfigStore.BooleanTextIsValid` | src/core/doge-config-file.c:1052-1074 | a text is a boolean when one of the two tables has it |
| `ConfigStore.BooleanOfText` | src/core/doge-config-file.c:1084-1099 | the boolean that a text stands for |
| `ConfigStore.FirstValue` | src/core/doge-config-file.c:689-811 | the first value of an option from its text: the loops and the two bounds |
| `ConfigStore.ConfigOption.SetBoolean` | src/core/doge-config-file.c:1268-1319 | setting a boolean, null or not |
| `ConfigStore.ConfigOption.SetEnum` | src/core/doge-config-file.c:1320-1384 | setting an enumerated value; a value allocated for a null option is released when the text is refused |
| `ConfigStore.ConfigOption.SetInteger` | src/core/doge-config-file.c:1385-1443 | setting a ranged integer |
| `ConfigStore.ConfigOption.Set` | src/core/doge-config-file.c:1241-1543 | the specified outcome; CHANGED exactly when the value differs, ERROR leaves it alone, the callback runs exactly on a change |
| `ConfigStore.ConfigOption.Reset` | src/core/doge-config-file.c:1110-1230 | the value is the default, or null without one, whatever it was; without default and null it stays and the code is an error; CHANGED exactly when the value differs |
| `ConfigStore.ConfigOption.SetNull` | src/core/doge-config-file.c:1554-1594 | the specified outcome of nulling, with the same law of return codes |
| `ConfigStore.ConfigSection.FindPos` | src/core/doge-config-file.c:486-503 | the first option that the name precedes |
| `ConfigStore.ConfigSection.LinkIn` | src/core/doge-config-file.c:509-549 | the links forward and back stay inverse, and the list gains exactly the new option at its place |
| `ConfigStore.ConfigSection.Insert` | src/core/doge-config-file.c:509-549 | insertion by name, as lookups see it |
| `ConfigStore.ConfigSection.Unlink` | src/core/doge-config-file.c:1691-1702 | taking an option out for a rename keeps the links inverse and the others in order |
| `ConfigStore.ConfigSection.UnlinkFreed` | src/core/doge-config-file.c:2883-2897 | taking an option out to free it, likewise |
| `ConfigStore.ConfigSection.FreeOption` | src/core/doge-config-file.c:2868-2900 | the option leaves a list that stays linked, sorted and unique |
| `ConfigStore.ConfigSection.FreeOptions` | src/core/doge-config-file.c:2906-2916 | the loop ends with an empty list |
| `ConfigStore.ConfigSection.SearchOption` | src/core/doge-config-file.c:884-917 | the option of that name, without case, or NULL |
| `ConfigStore.ConfigSection.MakeOption` | src/core/doge-config-file.c:662-830 | the new option has the type, default and value that its texts give it |
| `ConfigStore.FirstPlaceIsFirst` | src/core/doge-config-file.c:628 | `strstr` finds the first occurrence, and nothing exactly when there is none |
| `ConfigStore.InheritsIff` | src/core/doge-config-file.c:628-637 | creating from a name, " << " and a parent gives that name and that parent if and only if no " << " begins inside the name |
| `ConfigStore.NamesOfText` | src/core/doge-config-file.c:628-637 | a text without " << " is a name without parent; otherwise the first one separates the two |
| `ConfigStore.ConfigSection.NewOption` | src/core/doge-config-file.c:597-876 | NULL exactly when the name is taken or a value is missing; otherwise the section gains the new option at its place, with the name and parent that its text has and the default and value that its texts give |
| `ConfigStore.ConfigSection.Relink` | src/core/doge-config-file.c:1691-1712 | renaming moves the option to the place of its new name |
| `ConfigStore.ConfigFile.SearchSection` | src/core/doge-config-file.c:379-397 | the section of that name, or NULL |
| `ConfigStore.ConfigFile.NewSection` | src/core/doge-config-file.c:299-371 | NULL exactly when the name is taken, otherwise an empty section at the end |
| `ConfigFiles.ViewsAreOk` | src/core/doge-config-file.c:975-1042 | valid sections with unique dot-free file and section names make lookups well defined |
| `ConfigFiles.SearchWithString` | src/core/doge-config-file.c:975-1042 | the option that a full name leads to, over files, sections and lists |
| `ConfigFiles.UpdateParents` | src/core/doge-config-file.c:1724-1736 | in one section exactly the parents that are the old full name are changed |
| `ConfigFiles.UpdateAllParents` | src/core/doge-config-file.c:1716-1737 | the same in all sections of all files |
| `ConfigFiles.RelinkIn` | src/core/doge-config-file.c:1691-1712 | a rename keeps every list of the program linked, sorted and unique |
| `ConfigFiles.Rename` | src/core/doge-config-file.c:1673-1743 | a taken or empty name changes nothing; otherwise the option is found by its new name and all parent names that were its full name follow |
| `ConfigFiles.RenameKeepsInheritance` | src/core/doge-config-file.c:1673-1743 | on the linked lists, whatever is renamed, every option with an exact parent name goes on to inherit from the same option |
| `ConfigReader.FirstLineAt` | src/core/doge-config-file.c:2577-2581 | a line that is read ends with the first end of line, at the end of the file, or where the buffer is full, whichever comes first |
| `ConfigBuffer.StrChr` | src/core/doge-config-file.c:2632-2637 | `strchr` on a string inside the buffer |
| `ConfigBuffer.StrStrEquals` | src/core/doge-config-file.c:2639-2640 | the first space followed by an equals sign |
| `ConfigBuffer.Trim` | src/core/doge-config-file.c:2645-2671 | spaces at the end are overwritten, never the first character, and nothing else |
| `ConfigBuffer.CutQuotes` | src/core/doge-config-file.c:2672-2680 | one pair of quotes is taken off by a NUL and a step |
| `ConfigBuffer.CutValue` | src/core/doge-config-file.c:2653-2683 | the value after the equals sign: null, or trimmed and without quotes |
| `ConfigBuffer.CutHeader` | src/core/doge-config-file.c:2598-2614 | the name between the brackets of a section |
| `ConfigBuffer.CutSetting` | src/core/doge-config-file.c:2627-2685 | the name and the value of an option |
| `ConfigBuffer.CutLine` | src/core/doge-config-file.c:2588-2685 | writing NULs into the buffer takes a line apart as specified |
| `ConfigReader.SetFromFile` | src/core/doge-config-file.c:2703-2710 | the option gets the value read and counts as loaded |
| `ConfigReader.SetAnywhere` | src/core/doge-config-file.c:884-917 | without a section the first option of that name in any section is set |
| `ConfigReader.ApplySetting` | src/core/doge-config-file.c:2697-2710 | one option changes as specified, all others keep their state |
| `ConfigReader.FGets` | src/core/doge-config-file.c:2577-2581 | the next line, or what fits, is in the buffer as a C string |
| `ConfigReader.Read` | src/core/doge-config-file.c:2574-2762 | the loop over the lines has the effect of reading the text |
| `ConfigReader.ClearLoaded` | src/core/doge-config-file.c:2808-2820 | every option of the list is marked as not loaded |
| `ConfigReader.ResetMissing` | src/core/doge-config-file.c:2825-2838 | exactly the options not loaded are reset |
| `ConfigReader.ReloadFile` | src/core/doge-config-file.c:2796-2841 | a reload of the file has its specified effect on every option |
| `ConfigRoundTrip.LineEffect` | src/core/doge-config-file.c:2598-2710 | a header makes the first section of that name current, or none when it is unknown; a setting sets exactly the option it finds; a comment, an incomplete header and an unknown name do nothing |
| `ConfigRoundTrip.LocateIsFirst` | src/core/doge-config-file.c:884-917 | without a section the first option of that name in the first section that has one is found |
| `ConfigRoundTrip.ReloadResetsMissing` | src/core/doge-config-file.c:2796-2841 | after a reload an option that no line sets has its default, or is null without one, and keeps its value only when it has neither |
| `ConfigReader.EscapeName` | src/core/doge-config-file.c:2221-2233 | taking the escape away gives the name back, and every line that begins with the escaped name is a setting exactly when the name is not blank and hides no # and no header behind leading spaces |
| `ConfigLine.EscapeProtectsIff` | src/core/doge-config-file.c:2588-2627 | the same for the reader: which escaped names make every line that begins with them a setting |
| `ConfigLine.HiddenComment` | src/core/doge-config-file.c:2588-2596 | a name of a space and #a is not escaped, and its line is read as a comment |
| `ConfigReader.WriteOption` | src/core/doge-config-file.c:2243-2301 | the line printed for an option |
| `ConfigReader.Write` | src/core/doge-config-file.c:2416-2457 | the loops over sections and options print the specified text |
| `ConfigLine.OptionReadsIff` | src/core/doge-config-file.c:2577-2685 | from the line printed for an option, of any type and null included, its name and the text of its value are read if and only if the line can keep both |
| `ConfigLine.StringReadsIff` | src/core/doge-config-file.c:2577-2685 | a string option is read back if and only if its value has no line break and its name is one that the reader keeps |
| `ConfigLine.ReadPlainIff` | src/core/doge-config-file.c:2653-2683 | without quotes a text is read as it is exactly when it is plain: not blank, no outer spaces, not null, not in quotes |
| `ConfigLine.BreakCuts` | src/core/doge-config-file.c:2631-2637 | of a string with a line break the part before it is read, with the quote that was printed first |
| `ConfigLine.BreakCutsValue` | src/core/doge-config-file.c:2631-2637 | so a value of two lines, a and b, is read as a quote and an a |
| `ConfigLine.SectionReadsIff` | src/core/doge-config-file.c:2598-2614 | the line printed for a section is read as its header if and only if the name has no ], no = and no end of line |
| `ConfigRoundTrip.OptionLineReads` | src/core/doge-config-file.c:2627-2685 | from the line printed for a valid option its name and the text of its value are read, null included |
| `ConfigLine.ReadQuoted` | src/core/doge-config-file.c:2653-2683 | quotes protect any text, the empty one and one in quotes included |
| `ConfigLine.HandWritten` | src/core/doge-config-file.c:2639-2683 | with any spaces before the equals sign and around the value: nothing is null, so is null at the very end of the line, a pair of single or double quotes is taken off, and any other text is the value |
| `ConfigRoundTrip.TextSetsValue` | src/core/doge-config-file.c:1241-1543 | setting an option to the text of a value gives that value, whatever it was before |
| `ConfigRoundTrip.WriteThenReloadRestores` | src/core/doge-config-file.c:2796-2841 | writing a store and reloading the file into the same options with any values restores every value |
| `ConfigReload.WriteThenReload` | src/core/doge-config-file.c:2416-2457 | on the linked lists, writing a file and reloading it into one with the same options gives every option the value of its counterpart |
| `ConfigLine.ReadHasNoBreak` | src/core/doge-config-file.c:2631-2637 | no name and no value that is read contains a line break |
| `BufferJump.JumpForward` | src/core/doge-command.c:1170-1210 | the loop stops within one lap and switches to the number the walk discovers as N-th, if any |
| `BufferJump.JumpBackward` | src/core/doge-command.c:1101-1141 | likewise backwards |
| `BufferJump.ForwardIsCyclic` | src/core/doge-command.c:1170-1210 | walking forward discovers the distinct visible numbers other than the current one in cyclic order |
| `BufferJump.BackwardIsCyclic` | src/core/doge-command.c:1101-1141 | walking backward discovers them in reverse cyclic order |
| `BufferJump.SwitchIsExact` | src/gui/gui-buffer.c:2711-2730 | switching to another number goes to the first active buffer that has it, and stays when there is none, and for the current or a negative number |
| `BufferJump.JumpAndReturn` | src/core/doge-command.c:1101-1210 | +N jumps exactly when there are N other visible numbers, and a following -N returns exactly when the starting number has a visible buffer |

## Left out

- Allocation failure: every allocation succeeds. After a failed allocation `arraylist_clear` leaves a stale size, which is not described here.
- The checks for NULL arguments at the beginning of most C functions: objects are never null in the model, and texts only where the C code gives NULL a meaning.
- Sizes and counters of the array list, levels of parentheses and counts of buffers are unbounded integers; values of options are 32-bit and `strtol` saturates at 64 bits.
- ConfigValue.SetKeepsValid: the sum of a number and the current value is converted to `int` by wrapping around; C leaves the overflow of the `long` sum itself undefined, and the model computes it exactly.
- Characters: one `char` is one code point. `string_strcasecmp` decodes UTF-8 first; invalid encodings are not modelled.
- Files: opening, the temporary file, permissions, renaming and character set conversion; a file is its text. Messages about unknown sections, options or values are not modelled, only their effect.
- ConfigReader.Read: sections without read, write or create callbacks, and options without check callbacks; with them the outcome depends on foreign code.
- Colour options, which depend on the table of colours.
- Configuration hooks, delete callbacks, descriptions, and options without a section; the string that names the type of a new option is already one of the types.
- ConfigStore.ConfigFile.NewSection: the links between files and between sections are sequences; only the options of a section are linked objects. Removing sections and files is not modelled.
- ConfigStore.ConfigSection.FreeOption: the memory of the option is not part of the model; the option is no longer in the list.
- Variable lookup and `string_replace_with_callback`: an arbitrary function from text to text stands for substitution, the same for every call.
- The POSIX regex engine: an arbitrary function that gives offsets within the text; for comparisons it says whether a text compiles and matches.
- EvalCondition.EvalCond: evaluation takes fuel, as it need not end; `MoreFuel` and `Terminates` say that it does not matter how much.
- EvalCorrect.ConditionIsCorrect: texts that are not the printed form of a tree, such as a parenthesis followed by other text or an operand that touches an operator, are evaluated by the model but not given a meaning.
- BufferJump.JumpAndReturn: switching finds a buffer only if one with that number is active, which is assumed for every number; the plain forms + and - and the parsing of N are not modelled.
- Everything else in the four files: displaying values, infolists, hdata and debug output.
