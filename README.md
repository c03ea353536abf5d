# A verified model of the VIT template engine core

PHP-VIT is a template engine. Templates use the directives `{{ name }}`, `{{ list[0][key] | upper }}`, `{{#if}}`, `{{#each}}`, the inline ternary and the null-coalesce. The engine is one class, `VIT` (`VIT/VIT.php`). It keeps a variable environment and expands the directives of a template, one rewrite pass after another.

This project models that class's core in Dafny. Each module follows a group of the class's methods:

- `Strings` holds the PHP string primitives the engine relies on:
  - `trim`, the `\s` class and `removeSpaces`;
  - `explode`/`implode`;
  - `str_replace` with an empty replacement;
  - the truthiness of strings.
- `Values` defines:
  - the values a variable holds: null, strings, integers, ordered arrays and host objects;
  - the build errors;
  - `objectToArray` and `isAssocArray`.
- `Helpers` covers the binder (the pair of directive markers, `{{`/`}}` by default), `escapeRegex`, and template file names.
- `Paths` covers:
  - `getArrayIndexes`, which splits `name[a][b]` into a root name and index tokens;
  - the walk of `compileArray`: strict mode fails on a missing index, silent mode yields 0.
- `Filters` covers the filter chain of `compileFilters`. The host's global functions are an abstract registry.
- `Conditions` covers:
  - the verdict of `getConditionStatus` and `hasOperator`;
  - branch selection in `parseConditions`;
  - the choice made by the ternary and by the null-coalesce.
- `EachLoop` covers how an each-header is read, the loop's target, and what iterating over the entries binds and renders.
- `TemplateEngine` holds the class `Vit`. Its `vars` field is updated in place by `SetVar`, `Assign` and the each-loop. Its methods carry the loops of `assign`, `compileArray` and `parseEach`, each proved against a specification function.

The steps that lie outside the model are parameters:
- a host expression run through `create_function`;
- the resolution of a statement to text;
- the rendering of a loop body.

Concretely:
- the condition of an operator statement is an `Oracle`;
- a body is a function `Env -> Rendering` that yields the rendered text and the environment it leaves behind.

Behaviour of the code that the model keeps:
- `objectToArray` converts an object with a single `(array)` cast (`VIT/VIT.php:834-836`). Objects nested inside an object's properties therefore stay objects (`Values.NestedObjectSurvives`). Arrays are converted entry by entry.
- An each-loop over an empty array renders nothing, even with an `eachelse` clause, because `is_array` holds (`VIT/VIT.php:395`).
- Only the first "as" name is reset to `''` after each pass (`VIT/VIT.php:420`); the second name keeps the last value.
- `in_array` over the false set compares loosely. Under PHP 7 a numeric text equal to zero, such as `"00"` or `" 0.0"`, is false as well (`Conditions.ZeroTextsAreFalse`).
- `assign` with a non-empty list array sets nothing and raises no build error. PHP only warns about the illegal offset.
- The null-coalesce compiles both sides before choosing (`VIT/VIT.php:570-571`). An error in the unused side still stops the build.
- `escapeRegex("")` is a lone backslash.

## Model

| member | source | states |
|---|---|---|
| Strings.Trim | VIT/VIT.php:823-826 | trim's result is no longer than its input and neither starts nor ends with a character trim removes |
| Strings.TrimIsSlice | VIT/VIT.php:823-826 | trim cuts off exactly a leading and a trailing run: its result is a slice of the input, and everything before and after that slice is a character trim removes |
| Strings.IsEmpty | VIT/VIT.php:823-826 | isEmpty: trim leaves nothing (its characterisation is IsEmptyIffAllTrim) |
| Strings.TrimIdempotent | VIT/VIT.php:823-826 | trimming a trimmed text changes nothing |
| Strings.IsEmptyIffAllTrim | VIT/VIT.php:823-826 | isEmpty holds exactly when every character is one that trim removes |
| Strings.RemoveSpaces | VIT/VIT.php:867-870 | removeSpaces leaves no whitespace and never lengthens the text; with RemoveSpacesOfSpace, RemoveSpacesOfNoSpace and RemoveSpacesConcat it deletes exactly the whitespace characters and keeps the rest in order |
| Strings.RemoveSpacesOfSpace | VIT/VIT.php:867-870 | a single whitespace character is deleted |
| Strings.RemoveSpacesOfNoSpace | VIT/VIT.php:867-870 | text without whitespace is returned unchanged |
| Strings.RemoveSpacesIdempotent | VIT/VIT.php:867-870 | removing whitespace twice is removing it once |
| Strings.RemoveSpacesConcat | VIT/VIT.php:867-870 | removing whitespace distributes over concatenation |
| Strings.RemoveAll | VIT/VIT.php:886-889 | str_replace with an empty replacement never lengthens the text; with RemoveAllAt, RemoveAllSkip and RemoveAllAbsent it deletes every occurrence, left to right, and keeps every other character |
| Strings.RemoveAllAt | VIT/VIT.php:886-889 | an occurrence of the pattern at the front is deleted |
| Strings.RemoveAllAbsent | VIT/VIT.php:886-889 | text in which the pattern does not occur is left unchanged |
| Strings.RemoveAllSkip | VIT/VIT.php:886-889 | a prefix in which no occurrence starts passes through untouched |
| Strings.Explode | VIT/VIT.php:374 | explode yields at least one piece, and joining the pieces with the separator gives the input back |
| Strings.Join | VIT/VIT.php:751 | implode: the pieces with the separator between them (Explode's ensures and ExplodeJoin make it explode's inverse) |
| Strings.ExplodeAtFirst | VIT/VIT.php:374 | explode cuts at the first occurrence of the separator |
| Strings.ExplodeAbsent | VIT/VIT.php:374 | text without the separator is a single piece |
| Strings.ExplodeFirst | VIT/VIT.php:760 | splitting at a character cuts at its first occurrence |
| Strings.ExplodeNone | VIT/VIT.php:760 | text without the separator character is a single piece |
| Strings.ExplodeJoin | VIT/VIT.php:701 | explode undoes implode when no piece holds the separator |
| Strings.DropFirst | VIT/VIT.php:376 | substr($s, 1) is the text after the first character |
| Strings.Truthy | VIT/VIT.php:119 | PHP's truthiness of a string, as in `elseif($name)` and `if($statement)`: neither "" nor "0" (AssignedFails, FalsyStatementIsFalse) |
| Strings.NatToString | VIT/VIT.php:898 | an integer key as PHP writes it: a non-empty run of decimal digits whose value is the number, with a leading '0' only for 0 |
| Strings.NatToStringInjective | VIT/VIT.php:898 | distinct integer keys are written as distinct texts |
| Values.Get | VIT/VIT.php:811-813 | `$vars[$name] ?? null`: the stored value, or null (its property with a set is GetAfterSet) |
| Values.GetAfterSet | VIT/VIT.php:877-880 | after a set, the set name reads the new value and every other name reads what it read before |
| Values.Lookup | VIT/VIT.php:666-668 | array_key_exists and indexing: a value is found exactly when the key is among the array's keys, and it is the value stored with that key |
| Values.ObjectToArray | VIT/VIT.php:832-851 | the result is never an object; an object becomes the array of its properties; an array keeps its keys in order and every entry's value is itself converted |
| Values.ObjectToArrayOfPlain | VIT/VIT.php:832-851 | a value with no object inside comes back unchanged |
| Values.ObjectToArrayRemovesFlatObjects | VIT/VIT.php:832-851 | when no object nests another object, no object is left anywhere after conversion |
| Values.NestedObjectSurvives | VIT/VIT.php:834-836 | an object inside an object's property is still an object after conversion |
| Values.IsAssocArray | VIT/VIT.php:895-899 | an array is associative exactly when it is non-empty and some key differs from its position |
| Helpers.AddBinder | VIT/VIT.php:627-630 | the text stands between the opening and the closing marker |
| Helpers.StripBinder | VIT/VIT.php:886-889 | stripping the markers never lengthens the text |
| Helpers.DefaultBinderValid | VIT/VIT.php:41 | the default markers `{{` and `}}` are non-empty, and the opening marker does not occur inside the closing one |
| Helpers.StripAddBinder | VIT/VIT.php:886-889 | stripBinder undoes addBinder for text sharing no character with the markers |
| Helpers.StrSplit | VIT/VIT.php:751 | str_split: piece i is the one-character text of character i, and the empty text gives the single piece "" |
| Helpers.EscapeRegex | VIT/VIT.php:749-752 | every character ends up preceded by one backslash, giving twice the length; the empty text gives a lone backslash |
| Helpers.UnescapeEscape | VIT/VIT.php:749-752 | the original text is recovered from the escaped one, so escapeRegex is injective on non-empty text |
| Helpers.AddFileExtension | VIT/VIT.php:636-639 | the name followed by `.vit` |
| Helpers.GetFileLink | VIT/VIT.php:803-805 | the file link is the directory, a slash and the name with its extension |
| Helpers.FileLinkInjective | VIT/VIT.php:803-805 | distinct template names give distinct file links |
| Paths.IndexRun | VIT/VIT.php:761 | the run of index characters at the start of a text stops at the first other character |
| Paths.MatchIndexAt | VIT/VIT.php:761 | a match of the index pattern captures a non-empty token of index characters and consumes part of the text |
| Paths.ScanIndexes | VIT/VIT.php:761 | every index found is a non-empty token of index characters |
| Paths.ScanSkip | VIT/VIT.php:761 | text without '[' holds no index |
| Paths.ScanRendered | VIT/VIT.php:761 | the pattern finds exactly the tokens of `[t1][t2]...`, in order |
| Paths.ParsePath | VIT/VIT.php:758-765 | getArrayIndexes: the whitespace-free text before the first '[' and the tokens the index pattern finds (ParseRenderPath inverts it) |
| Paths.PathRootOf | VIT/VIT.php:760 | the root name of `name[...]` is `name` |
| Paths.PathIndexesOf | VIT/VIT.php:760-764 | the indexes of `name[t1][t2]...` are `t1`, `t2`, ... |
| Paths.ParseRenderPath | VIT/VIT.php:758-765 | getArrayIndexes recovers the root name and the indexes of any path written `name[t1][t2]...` |
| Paths.Walk | VIT/VIT.php:664-681 | the foreach of compileArray over the indexes (its meaning is WalkFollows) |
| Paths.ResolvePath | VIT/VIT.php:657-682 | compileArray: parse the path, read the root variable, walk the indexes |
| Paths.FollowConcat | VIT/VIT.php:664-679 | following a path in two parts is following the first part, then the second from where it ends |
| Paths.FirstMissing | VIT/VIT.php:666-678 | the first index the path cannot follow: every index before it exists and it does not |
| Paths.WalkFollows | VIT/VIT.php:657-682 | compileArray yields the nested value when every key exists (the root's value for no indexes); otherwise 0 in silent mode and, in strict mode, the undefined-index error naming the first missing index and the root variable |
| Paths.WalkModes | VIT/VIT.php:664-679 | a silent walk never fails and agrees with a strict walk that succeeds |
| Filters.ParseSpec | VIT/VIT.php:693-699 | a spec with a parenthesis yields at least one raw argument; a spec without one names the function by the spec itself and passes no extra argument |
| Filters.HasArgs | VIT/VIT.php:693 | the parenthesis test `[\(\)]` that chooses between the call form and the plain form (ParseSpec, ApplyCall, ApplyPlain) |
| Filters.ApplyFilter | VIT/VIT.php:693-717 | one filter: an unregistered name is "undefined function", otherwise the function applied to the value and the raw arguments |
| Filters.ApplyFilters | VIT/VIT.php:689-720 | the chain fails exactly when some spec names an unregistered function, the error is "undefined function", and an empty chain returns the value |
| Filters.CompileFilters | VIT/VIT.php:689-720 | the loop computes the left-to-right chain |
| Filters.ApplyFiltersConcat | VIT/VIT.php:691-718 | filtering with two chains in sequence is filtering with their concatenation |
| Filters.FirstUndefined | VIT/VIT.php:702-714 | the error names the first unregistered function |
| Filters.ParseSpecOfCall | VIT/VIT.php:693-699 | `f(a1,...,an)` names `f` with the raw arguments `a1`, ..., `an` |
| Filters.ApplyCall | VIT/VIT.php:693-706 | a registered `f(a1,...,an)` is called with the piped value followed by `a1`, ..., `an` |
| Filters.ApplyPlain | VIT/VIT.php:710-716 | a spec without parentheses calls the function of that name on the value alone, or fails with "undefined function" when none is registered |
| Conditions.HasOperator | VIT/VIT.php:815-818 | hasOperator holds exactly when the text contains one of `( = ) \| & < >` |
| Conditions.ConditionStatus | VIT/VIT.php:772-797 | getConditionStatus: falsy statements are false, operator statements are evaluated, others get the verdict of their resolved text (its properties are FalsyStatementIsFalse and NoOperatorStatus) |
| Conditions.InFalseSet | VIT/VIT.php:790 | in_array over `_false_statements` with PHP 7's loose comparison (FalseStatementsAreFalse, ZeroTextsAreFalse, OtherTextsAreTrue) |
| Conditions.IsZeroNumeric | VIT/VIT.php:790 | a numeric text of value zero, which PHP 7's loose `==` finds equal to "0" (ZeroTextsAreFalse, OtherTextsAreTrue) |
| Conditions.Verdict | VIT/VIT.php:786-791 | the verdict on a resolved text, one leading '!' flipping it (VerdictNegation, FalseStatementsAreFalse) |
| Conditions.FalsyStatementIsFalse | VIT/VIT.php:774-776 | an empty (or "0") statement is false |
| Conditions.NoOperatorStatus | VIT/VIT.php:782-791 | without an operator, a statement resolving to `w` is true exactly when `w` is outside the false set, and a leading '!' negates that |
| Conditions.FalseStatementsAreFalse | VIT/VIT.php:62 | every member of `_false_statements` is false, and true with a leading '!' |
| Conditions.VerdictNegation | VIT/VIT.php:786-791 | a leading '!' negates the verdict |
| Conditions.ZeroTextsAreFalse | VIT/VIT.php:790 | the loose comparison also finds `"00"`, `" 0.0"` and `"-0e5"` false |
| Conditions.OtherTextsAreTrue | VIT/VIT.php:790 | `"yes"`, `"0 "`, `"0x0"` and `"!null"` are true and `"!1"` is false |
| Conditions.Selected | VIT/VIT.php:331-349 | the first branch whose condition holds and whose body is not blank, else the else body, stopping at an error (FirstTakenWins, NoneTaken, FirstErrorRaised) |
| Conditions.SelectBranch | VIT/VIT.php:327-349 | the loop over the elseif conditions makes the first-taken-branch selection |
| Conditions.Judge | VIT/VIT.php:331-342 | a branch's condition is trimmed and given getConditionStatus (FirstTakenWins, NoneTaken, FirstErrorRaised) |
| Conditions.FirstTakenWins | VIT/VIT.php:331-346 | the first branch whose condition holds and whose body is non-blank is chosen; no later condition matters, not even one that would fail |
| Conditions.NoneTaken | VIT/VIT.php:349 | when no branch is taken, the else body is used |
| Conditions.FirstErrorRaised | VIT/VIT.php:327-340 | an error in a condition that is reached is the block's error |
| Conditions.SelectedIsABody | VIT/VIT.php:327-349 | the outcome is the body of a taken branch, or the else body |
| Conditions.OneWay | VIT/VIT.php:536-542 | the ternary's choice (its property is OneWayChoice) |
| Conditions.OneWayChoice | VIT/VIT.php:538-542 | the ternary gives the trimmed true side exactly when the condition holds and the trimmed false side when it does not, fails exactly when the condition fails, and its text is its own trim |
| Conditions.Coalesce | VIT/VIT.php:567-573 | the null-coalesce's choice (its property is CoalesceChoice) |
| Conditions.CoalesceChoice | VIT/VIT.php:567-573 | the fallback is used exactly when the main text is blank; the result is blank exactly when both are; an error compiling the main side is the result, and one compiling the fallback surfaces even when the fallback is unused |
| EachLoop.EachHeaderAsWritten | VIT/VIT.php:372-382 | the header as the code reads it, cut at every occurrence of the letters "as" |
| EachLoop.ParseEachHeader | VIT/VIT.php:372-382 | the corrected header reading, cut at the first "as" standing as a word |
| EachLoop.HeaderOf | VIT/VIT.php:376-382 | the loop's fields from the pieces before and after "as": the main name without its `$`, and the one or two comma-separated names (AsWrittenOfPieces, CorrectedHeaderPieces, ParseEachHeaderValue) |
| EachLoop.FindAsFrom | VIT/VIT.php:374 | for the corrected header: the position found is one where "as" stands as a word |
| EachLoop.ParseEachHeaderValue | VIT/VIT.php:372-382 | the corrected header reads `$name as v` as a loop over `name` binding `v` |
| EachLoop.ParseEachHeaderKeyValue | VIT/VIT.php:372-382 | the corrected header reads `$name as k, v` as a loop over `name` binding `k` to the key and `v` to the value |
| EachLoop.AsWrittenSplitsNames | VIT/VIT.php:374-378 | the header as written reads `$classes as c` as a loop over "cl" binding "ses" |
| EachLoop.CorrectedKeepsNames | VIT/VIT.php:374-378 | the corrected header reads `$classes as c` as a loop over "classes" binding "c" |
| EachLoop.HeadersAgree | VIT/VIT.php:374-382 | when neither the name nor the text after the keyword holds the letters "as", the header as written and the corrected header read `$name as rest` alike |
| EachLoop.AsWrittenReadsValue | VIT/VIT.php:374-382 | so the code reads `$name as v` as intended when no name holds "as" |
| EachLoop.AsWrittenReadsKeyValue | VIT/VIT.php:374-382 | and `$name as k, v` likewise |
| EachLoop.Target | VIT/VIT.php:393 | the loop's target: the path resolved silently, or the variable itself when that yields null |
| EachLoop.Bind | VIT/VIT.php:399-407 | the binding made for one entry (its effect is BindEffect) |
| EachLoop.Iterate | VIT/VIT.php:397-421 | the foreach: bind, render, append, reset the first name, stop at a body's error (IterateInOrder, IterateResetsName) |
| EachLoop.Expand | VIT/VIT.php:395-430 | an array target is iterated, any other renders the eachelse body or nothing |
| EachLoop.BindEffect | VIT/VIT.php:399-410 | with two names, the first gets the key and the second the value; with one, it gets the value; no other variable changes |
| EachLoop.BindAfterReset | VIT/VIT.php:399-420 | a pass's bindings overwrite whatever the previous pass and its reset left in the loop's names |
| EachLoop.IterateResetsName | VIT/VIT.php:420 | after a completed loop over a non-empty array, the first name holds '' |
| EachLoop.IterateInOrder | VIT/VIT.php:397-421 | with a body that only reads, the loop renders the body once per entry in insertion order, with that entry bound |
| TemplateEngine.BindAll | VIT/VIT.php:115-117 | every entry set in turn, its value converted (BindAllSets, BindAllOthers) |
| TemplateEngine.Assigned | VIT/VIT.php:111-129 | the environment after assign, or its "Invalid data assigned" error (AssignedFails) |
| TemplateEngine.AssignedFails | VIT/VIT.php:111-129 | assign fails with "Invalid data assigned" exactly on an empty array or a falsy name |
| TemplateEngine.BindAllOthers | VIT/VIT.php:113-117 | assigning an array leaves every name that is not one of its keys as it was |
| TemplateEngine.BindAllSets | VIT/VIT.php:113-117 | assigning an array sets every key to its converted value |
| TemplateEngine.Vit.constructor | VIT/VIT.php:82-104 | a new engine has no variables and keeps its directory and binder |
| TemplateEngine.Vit.GetVar | VIT/VIT.php:811-813 | getVar reads the stored value, or null for a name never set |
| TemplateEngine.Vit.SetVar | VIT/VIT.php:877-880 | setVar stores the value under the name and changes nothing else |
| TemplateEngine.Vit.Assign | VIT/VIT.php:111-129 | assign updates the variables as `Assigned` says, or reports its error and changes nothing |
| TemplateEngine.Vit.CompileArray | VIT/VIT.php:657-682 | the index loop yields `ResolvePath` of the variables and changes no variable |
| TemplateEngine.Vit.ExpandEach | VIT/VIT.php:393-432 | an each-block's text and the variables it leaves are those of `Expand`: an array target is iterated, any other target renders the eachelse body or nothing |
| TemplateEngine.Vit.IterateEntries | VIT/VIT.php:395-421 | the foreach computes `Iterate`: bind, render, append, reset the first name, stop at a body's error |

## Left out

- The constructor's configuration checks (`VIT/VIT.php:82-104`) are not modelled. The missing-directory and `is_array` binder checks validate an untyped configuration array that the model replaces with typed parameters. Creating the build and includes directories is file-system I/O. `Vit.constructor` only records the directory and the binder.
- `build`, template loading, `echo` and `parseIncludes` are file-system and output I/O and are not modelled. `buildFromStr` and `buildModule` (`VIT/VIT.php:156-180`) are not modelled either: they chain the regular-expression passes listed below, which the model replaces by the segments those passes extract.
- The regular-expression passes (`bind`, `parseArrays`, `parseFilters`, `parseStrings`, `parseAssign`, `parseCalculations`, `parseComments`, `addBinderRegex`, and the recursive `(?R)` matching of `parseConditions` and `parseEach`) are not modelled. The model works on the segments those passes extract.
- `runFunction` (host `create_function`) is replaced by the `evaluate` field of `Oracle`. The resolution of a statement to text (`compileConditionStatement`, `parseArrays`, `parseStrings`) is replaced by the `resolve` field of `Oracle`.
- The host functions a filter calls are an abstract registry. `is_callable` is membership in it. PHP's case-insensitive function names are not modelled.
- Value types the engine sees are limited to strings, integers, arrays, objects and null. Floats and booleans are left out. So are the loose-comparison cases that need floating point: a numeric text whose value underflows to zero, such as `"1e-400"`, is treated as true.
- Integer array keys are represented by their decimal text. PHP's normalisation of a canonical decimal string key to an integer is therefore modelled as text equality.
- `Conditions.SelectBranch` works on already-extracted segments. It does not model the recursive `parseConditions` call on the block's content (`VIT/VIT.php:317`), which expands nested conditions in every branch before the selection.
- The rescan quirk of `parseOneWayConditions` and `parseOneConditions` is not modelled (`VIT/VIT.php:534`, `VIT/VIT.php:565`): they re-match against the whole text rather than the current match. `Conditions.OneWay` and `Conditions.Coalesce` state the choice made for one directive.
- The check for undefined variables in `parseFilters` is not modelled. `UndefinedVariable` exists as an error but no modelled operation raises it.
- A loop body's rendering is abstract (`EachLoop.Body`). The nested each, conditions and filters applied to it lie outside this model.
- TemplateEngine.Vit.ExpandEach reads the each-header with the corrected `EachLoop.ParseEachHeader`, not with the `explode("as")` of `VIT/VIT.php:374`. The two readings agree whenever no name holds the letters "as" (`EachLoop.HeadersAgree`). They differ otherwise, as the Findings row shows.
- PHP strings are bytes; the model's strings are characters. `str_split`, `strlen`, `substr` and `trim` work per byte in PHP, so `Helpers.EscapeRegex`, `Helpers.StrSplit`, `Strings.DropFirst` and `Strings.Trim` agree with PHP on single-byte (ASCII) text only. For a multi-byte binder, PHP puts a backslash before every byte.
- Strings.DropFirst gives "" for "", where PHP 7's `substr("", 1)` (`VIT/VIT.php:376`) returns false. For a header with nothing before "as", the fallback `getVar` at `VIT/VIT.php:393` then reads the variable keyed 0 rather than the empty name.
- `addBinder` of the main variable name (`VIT/VIT.php:377`) is computed but never used, so it is not modelled.

## Findings

| source | as written | input that shows it | evidently intended | confidence | as-written member | corrected member |
|---|---|---|---|---|---|---|
| VIT/VIT.php:374-378 | the each-header is cut with `explode("as", ...)` at every occurrence of the letters "as", including inside variable names | `{{#each $classes as c}}` iterates over `cl` and binds `ses` | split at the keyword "as" standing as a word, giving a loop over `classes` binding `c` | not executed | EachLoop.AsWrittenSplitsNames | EachLoop.CorrectedKeepsNames |
