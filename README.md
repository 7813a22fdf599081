# questbook-js in Dafny

A model of the two parts of the questbook-js branching-story engine that carry
its logic, with their properties proved.

- **The markup loader** (`src/loader.ts`) reads a quest written as plain text.
  - A line cursor, `QuestStream`, hands out trimmed lines. It skips blank lines and `//` comments, and it can step back one line.
  - A line-oriented parser then reads pages. Each page is a `-> name` header, an optional block of `{ x = 1 }` state logic, body text, and `* label -> target` choices. A choice may carry a `{ x > 0 }` guard.
  - `validate` checks the finished page map.
- **The document** (`src/document.ts`) is the interpreter.
  - It holds the pages and a progress state: the current page and a map of integer variables.
  - It follows choices, evaluates the six logic operators, and substitutes `{ name }` placeholders in display text.

## How the model is organised

- `JsBuiltins`: the JavaScript library behaviour the core relies on.
  - `trim`, and `toLowerCase` on ASCII.
  - `split` and `join`.
  - `parseInt(s, 10)`, which yields NaN rather than failing.
  - `Number#toString` on integers.
  - The `\s` and `\w` character classes.
- `Types`: pages, choices, logic expressions, and the load and validation errors.
- `Patterns`: one hand-written matcher per regular expression of the core. Each follows the JavaScript engine's choice of match: the leftmost start, greedy and lazy quantifiers as written.
- `Stream`: the `QuestStream` class.
  - `next` and `previous` are methods on its `pointer` field.
  - They are specified against `Significant`, the sequence of trimmed, significant lines the cursor still has to return.
- `Grammar`: the page grammar as pure functions over that sequence of lines.
  - These are `ParseLogic`, `PageLogics`, `PageTexts`, `PageChoices`, `ParsePage` and `Load`.
  - Lemmas state what each accepts and returns.
- `Loader`: the loader's loops as methods over a `QuestStream`.
  - Each method is proved to compute exactly the `Grammar` function of the lines it consumes, and to leave the cursor where that function's rest begins.
  - `Validate` is proved against a declarative statement of what it accepts.
- `Document`: the `QuestDocument` class, specified by pure functions on its state.
  - `Assign` models `setVariable`.
  - `Evaluate` models `processLogic`.
  - `Step` models `makeChoice`.
  - `Interpolate` models `processText`.

Failures are values (`Result`, `Option`) rather than exceptions.

Where the code and its documentation disagree, the model follows the code:

- Moving to a page never applies that page's logic block. `makeChoice` only sets the current page.
- `validate` checks that every page is referenced: it is the entry, or some choice (on any page, the page itself included) links to it. It does not check that pages are reachable from the entry.
- `parseInt` never throws. So the "only numbers supported" error of `src/loader.ts:190-191` cannot occur: a non-numeric value becomes NaN.

## Model

| member | source | states |
|---|---|---|
| Stream.QuestStream.constructor | src/loader.ts:12-15 | the lines are the markup split at each line feed, and the pointer is 0 |
| Stream.QuestStream.Eof | src/loader.ts:16-18 | at eof the pointer stands at the end of the lines, and no significant line remains to be returned |
| Stream.QuestStream.Previous | src/loader.ts:19-21 | the pointer moves back one line, and never below 0 |
| Stream.QuestStream.Next | src/loader.ts:22-27 | the pointer never moves back or past the end. It returns the first remaining significant line (trimmed, non-empty, not a `//` comment) and drops it from the remaining ones. It returns "" exactly when none remain, and then the cursor is at eof. After a non-empty line, the line before the pointer starts the old remaining lines, so one `previous` makes the next `next` return the same line again |
| Stream.Significant | src/loader.ts:22-27 | every line `next` will return is significant |
| Stream.TrimAllAt | src/loader.ts:24 | each line is compared in its trimmed form |
| JsBuiltins.Lower | src/loader.ts:102 | `toLowerCase` keeps the length and lowers each character |
| JsBuiltins.LowerIdempotent | src/loader.ts:102 | lower-casing twice is lower-casing once |
| JsBuiltins.TrimSpec | src/loader.ts:24 | `trim` returns a contiguous part of the line that neither starts nor ends with white space, and drops only white space |
| JsBuiltins.TrimIdempotent | src/loader.ts:24 | trimming a trimmed line changes nothing |
| JsBuiltins.Split | src/loader.ts:13 | `split('\n')` gives at least one piece, and no piece holds a line feed |
| JsBuiltins.JoinSplit | src/loader.ts:13 | joining the pieces with the separator gives the markup back |
| JsBuiltins.IntToString | src/document.ts:135 | `toString` on an integer gives an optional minus and then decimal digits, with no leading zero: the first digit is `0` only for zero itself |
| JsBuiltins.IntToStringRoundTrip | src/loader.ts:189 | `parseInt` reads back what `toString` writes |
| Patterns.ArrowTarget | src/loader.ts:98 | what `\s*?(\b.+)` captures starts with a word character and holds no line terminator |
| Patterns.HeaderName | src/loader.ts:98 | a header's capture is a name that starts with a word character and stays on one line |
| Patterns.HeaderNameLayout | src/loader.ts:98-102 | `-> name`, with any white space after the arrow, captures exactly the name |
| Patterns.HeaderNameNoArrow | src/loader.ts:98 | a line without `->` is no header |
| Patterns.BraceFrom | src/loader.ts:118 | a logic line's captured content is never empty |
| Patterns.LogicContent | src/loader.ts:118 | a logic line's captured content is never empty and stays on one line |
| Patterns.LogicContentLayout | src/loader.ts:118 | `{c}` at the front of a line captures exactly `c`, which ends at the first `}`, whatever follows |
| Patterns.LogicContentUnclosed | src/loader.ts:118 | a line with no `}` after its first two characters, `{}` included, has no logic content |
| Patterns.LogicContentEmptyBraces | src/loader.ts:118 | `{}}` captures `}`: the lazy group takes the first `}` as its one character |
| Patterns.ChoiceFrom | src/loader.ts:150 | a choice target starts with a word character |
| Patterns.ChoiceMatch | src/loader.ts:150 | a choice's target starts with a word character and stays on one line |
| Patterns.ChoiceLayout | src/loader.ts:150 | `*label-> target`, with no `->` inside the label and any white space after the arrow, captures exactly the label and the target |
| Patterns.ChoiceMatchNoArrow | src/loader.ts:150 | a line without `->` is no choice |
| Patterns.GuardFrom | src/loader.ts:160 | the text after a guard is never empty |
| Patterns.GuardMatch | src/loader.ts:160 | the text after a guard is never empty and stays on one line |
| Patterns.GuardLayout | src/loader.ts:160 | in `prefix{c}rest` with no `{` in the prefix, the code is `c`, ending at the first `}`, and the text is the rest of the line. The prefix is dropped |
| Patterns.GuardAbsent | src/loader.ts:160-162 | a label without `{` has no guard |
| Patterns.GuardNeedsText | src/loader.ts:160-162 | `{c}` with nothing after it is no guard |
| Patterns.SplitLineBreaks | src/loader.ts:141 | splitting gives at least one piece |
| Patterns.SplitLineBreaksClean | src/loader.ts:141 | no piece contains `[br]` |
| Patterns.SplitLineBreaksSingle | src/loader.ts:141 | text without `[br]` is a single piece, unchanged |
| Patterns.SplitLineBreaksRoundTrip | src/loader.ts:141 | putting each marker match back between its two pieces gives the text again. Each match is `[br]` with at most one white-space character on each side |
| Patterns.SplitLineBreaksFirst | src/loader.ts:141 | text without `[br]`, then ` [br] `, then more text: the first piece is the text before the marker, with both spaces dropped, and the rest splits on its own |
| Patterns.SplitLineBreaksShift | src/loader.ts:141 | splitting from a position gives the same pieces as splitting the text that starts there |
| Patterns.ScanLogic | src/loader.ts:179 | the captured name is a word. A value comes only with an operator, and an operator is never empty. There is no match exactly when the code has no word character |
| Patterns.PlaceholderAt | src/document.ts:134 | a placeholder's name is a word, and the match ends after its start |
| Grammar.ParseLogic | src/loader.ts:178-216 | a parsed name is a lower-case word. `=`/`+=` are accepted exactly in the state context, and the comparisons exactly in the guard context |
| Grammar.OperatorClass | src/loader.ts:197-214 | `=` and `+=` assign, `== != < >` compare, and nothing else is an operator |
| Grammar.ScanPaddedLogic | src/loader.ts:179 | the expression pattern, unanchored, skips any text without a word character and captures the name, the operator and the whole value of `name op value`, with any white space around the operator and any text after the value that does not continue its word |
| Grammar.BareNameMeansPositive | src/loader.ts:193-196 | a bare name, after text without a word character and before white space, reads as `name > 0`. It is accepted as a guard and rejected in a logic block |
| Grammar.OperatorNeedsValue | src/loader.ts:179-182 | an operator with no value, after any text without a word character, as in `{ x = }`, is a syntax error in either context |
| Grammar.UnknownOperatorRejected | src/loader.ts:212-213 | any other operator string, such as `>=`, is rejected |
| Grammar.RenderLogicRoundTrip | src/loader.ts:178-216 | round trip: `lhs op rhs` written out parses back to the same logic in its operator's context, and to the context error in the other |
| Grammar.ParseWrittenLogic | src/loader.ts:178-216 | in `name op value` with any white space around the operator, after any text without a word character (such as leading spaces) and before any text that does not continue the value (such as trailing spaces), an assignment is accepted only in a logic block (else the condition-expected error) and a comparison only as a guard (else the non-condition error). Any other operator string is an invalid operation. The name is lower-cased and the value read by `parseInt` |
| Grammar.Run | src/loader.ts:114-117 | a loop reads the longest prefix of lines of its kind and stops at the first other line |
| Grammar.MapResultOk | src/loader.ts:122-125 | reading line by line succeeds exactly when every line parses, and gives their values in order |
| Grammar.MapResultFirstError | src/loader.ts:119-122 | a failing read reports the first line that fails |
| Grammar.LogicLine | src/loader.ts:118-122 | a logic line gives an assignment. With no `{...}` content it is an error |
| Grammar.LogicLineLayout | src/loader.ts:118-122 | a line starting `{c}` gives `c` parsed in the state context |
| Grammar.LogicLineUnclosed | src/loader.ts:118-121 | a line with no `}` after its first two characters, such as `{}` or `{x = 1`, is an invalid logic line |
| Grammar.LogicLineEmptyBraces | src/loader.ts:118-122 | `{}}` is not an invalid logic line: it captures `}`, which holds no name, so it is a logic syntax error |
| Grammar.PageLogics | src/loader.ts:113-128 | `parsePageLogics` as a function of the lines; it never consumes more lines than it is given. What it accepts and returns is stated by `Grammar.PageLogicsSpec` |
| Grammar.PageLogicsSpec | src/loader.ts:113-128 | the block succeeds exactly when every `{` line of the run parses. The logics are those lines' logics in order, absent for an empty run, and the first other line is left unread |
| Grammar.PageTexts | src/loader.ts:130-142 | an error exactly when there is no body line. Otherwise the body lines, joined with spaces and split at `[br]`, and the `*` or `-` line is left unread |
| Grammar.ChoiceLine | src/loader.ts:150-167 | one choice line, as a function. What it returns is stated by `Grammar.ChoiceLineSpec` and the four layout lemmas below |
| Grammar.ChoiceLineUnlabelled | src/loader.ts:150-159 | `*-> target` has neither text nor guard, and the link is the lower-cased target |
| Grammar.ChoiceLinePlain | src/loader.ts:150-163 | a label without `{` becomes the trimmed text, with no guard |
| Grammar.ChoiceLineBracesOnly | src/loader.ts:159-163 | a label that is only `{c}` is not a guard: it becomes the trimmed text, with no guard |
| Grammar.ChoiceLineGuarded | src/loader.ts:159-166 | in `*prefix{c}rest-> target`, the guard is `c` parsed as a comparison, and a failure there fails the line. The text is the trimmed rest, and the link the lower-cased target |
| Grammar.ChoiceLineSpec | src/loader.ts:150-167 | a bad choice line is a syntax error. The link is the lower-cased target; there is text exactly when the label is not empty; a guard is a comparison and comes only with text |
| Grammar.ChoiceLineNoArrow | src/loader.ts:150-153 | a line without `->` is a choice syntax error |
| Grammar.PageChoices | src/loader.ts:144-176 | `parsePageChoices` as a function of the lines; it never consumes more lines than it is given. What it accepts and returns is stated by `Grammar.PageChoicesSpec` |
| Grammar.PageChoicesSpec | src/loader.ts:144-176 | the choices succeed exactly when the run of `*` lines is not empty, every line parses, and a single choice has no guard. They are then those lines' choices in order |
| Grammar.PageChoicesWellFormed | src/loader.ts:144-176 | parsed choices are well formed, at least one, and never a single guarded one |
| Grammar.PageLogicsWellFormed | src/loader.ts:113-128 | a parsed logic block holds one or more assignments |
| Grammar.ParsePage | src/loader.ts:97-111 | a page consumes at least three lines: its header, a body line and a choice line. Its key is the lower-cased header name, never `end`, and the page is well formed. A missing or bad header is an error |
| Grammar.ParsePageNoArrow | src/loader.ts:97-100 | a first line without `->` is an invalid header, whatever follows it |
| Grammar.ParsePageIsReader | src/loader.ts:97-111 | the page parser always makes progress and yields storable pages |
| Grammar.PageSequence | src/loader.ts:45-55 | a parsed sequence of pages has at least one page, and all are storable |
| Grammar.Names | src/loader.ts:47-48 | the names of the pages, in order |
| Grammar.PageMapKeys | src/loader.ts:51 | the page map has exactly the pages' names as keys |
| Grammar.PageMapAt | src/loader.ts:51 | with distinct names, each page is stored under its own name |
| Grammar.DistinctCons | src/loader.ts:48-50 | one name more stays distinct exactly when it is new |
| Grammar.LoadPagesSpec | src/loader.ts:45-55 | the page loop succeeds exactly when every page parses and no name repeats or was taken. It stores each page under its name, and the first name becomes the entry |
| Grammar.AddPageNames | src/loader.ts:48-50 | a duplicate check on one more page |
| Grammar.AddPageMap | src/loader.ts:51 | storing one page and then the rest is storing them all |
| Grammar.LoadFromStart | src/loader.ts:43-55 | the page loop from an empty document |
| Grammar.Load | src/loader.ts:39-58 | `loadMarkup` as a function of the markup and its significant lines. What it accepts and returns is stated by `Grammar.LoadSpec` |
| Grammar.LoadSpec | src/loader.ts:39-58 | empty markup is an error. Otherwise loading succeeds exactly when every page parses and no page name repeats; the quest then holds every page under its name, with the first page as entry |
| Grammar.LoadedQuestWellFormed | src/loader.ts:39-58 | in a loaded quest the entry is a page, no page is called `end`, and every page is well formed |
| Grammar.ParseRunAt | src/loader.ts:114-126 | the run read line by line: once `i` lines have parsed, a failing line of the run fails it, and the end of the run completes it with the values so far |
| Grammar.RunStep | src/loader.ts:114-117 | the loop reads one more line of the run, or stops at its end |
| Loader.ReadRun | src/loader.ts:114-127 | the loop computes exactly `ParseRun` of the remaining lines and leaves the cursor at its rest. After a successful run the cursor stands at a line it will return, or at eof |
| Loader.ParsePageLogics | src/loader.ts:113-128 | the loop computes exactly `PageLogics` of the remaining lines, and leaves the cursor at its rest |
| Loader.ParsePageTexts | src/loader.ts:130-142 | the loop computes exactly `PageTexts` of the remaining lines, and leaves the cursor at its rest |
| Loader.ParsePageChoices | src/loader.ts:144-176 | the loop computes exactly `PageChoices` of the remaining lines, and leaves the cursor at its rest, at a line it will return or at eof |
| Loader.ParsePage | src/loader.ts:97-111 | computes exactly `Grammar.ParsePage` of the remaining lines, and leaves the cursor at its rest |
| Loader.LoadMarkup | src/loader.ts:39-58 | gives exactly `Grammar.Load` of the markup's significant lines, as a fresh document. The state starts at the entry with no variables; the entry is a page and no page is `end` |
| Loader.Validate | src/loader.ts:64-95 | accepts exactly when every page has texts and choices, every link is `end` or a page, and every page is the entry or linked to. Each error it reports is a real defect, and a missing reference is reported only once every page is sound |
| Document.QuestDocument.constructor | src/document.ts:10-20 | no pages, no entry, and an empty state |
| Document.QuestDocument.MakeChoice | src/document.ts:26-36 | the new page and variables are `Step` of the old ones. The pages and the entry do not change, and a canonical state stays canonical |
| Document.QuestDocument.SetCurrentPage | src/document.ts:42-44 | the current page is the lower-cased name, and nothing else changes |
| Document.QuestDocument.GetCurrentPage | src/document.ts:49-51 | the current page's data, which exists exactly when a page has its name |
| Document.QuestDocument.ResetState | src/document.ts:56-59 | back to the entry with no variables |
| Document.QuestDocument.GetVariable | src/document.ts:86-88 | the value under the lower-cased name, or 0. In a canonical state, 0 means the name is absent |
| Document.QuestDocument.SetVariable | src/document.ts:95-102 | the variables become `Assign` of the old ones, nothing else changes, and a canonical state stays canonical |
| Document.QuestDocument.ProcessLogic | src/document.ts:108-127 | the result and the new variables are `Evaluate` of the old ones, nothing else changes, and a canonical state stays canonical |
| Document.QuestDocument.ProcessText | src/document.ts:133-137 | the text with every placeholder replaced, as `Interpolate` defines it. Text in which no placeholder starts comes back unchanged |
| Document.Lookup | src/document.ts:86-88 | in a canonical state, a name reads 0 exactly when it is absent |
| Document.Assign | src/document.ts:95-102 | `setVariable` keeps a canonical state canonical: keys stay lower-case, and 0 is never stored |
| Document.Evaluate | src/document.ts:108-127 | `processLogic` keeps a canonical state canonical |
| Document.Step | src/document.ts:26-36 | a move goes to the lower-cased link of choice `id`, which is a choice of the current page. A canonical state stays canonical |
| Document.Interpolate | src/document.ts:133-137 | `processText` as a function of the text and the variables. What it returns is stated by the `Interpolate` lemmas below |
| Document.LookupAssign | src/document.ts:86-102 | after `setVariable`, the name (in any letter case) reads the value (0 for 0 and NaN), and every other name reads as before |
| Document.AssignSpec | src/document.ts:95-102 | 0 and NaN delete the lower-cased name and a truthy value stores it. No other key changes |
| Document.EvaluateSpec | src/document.ts:108-127 | `=` and `+=` return false and set the name to the value, or to its old value plus the value. Other names keep their values. Comparisons and unknown operators change nothing, and an unknown operator returns false |
| Document.LookupAssignAll | src/document.ts:86-102 | reading after `setVariable`, for all names at once |
| Document.CompareWithNaN | src/document.ts:116-123 | against NaN only `!=` holds |
| Document.AddZeroIsIdentity | src/document.ts:110-112 | `+= 0` leaves a canonical state as it was |
| Document.AssignThenCompare | src/document.ts:113-119 | after `x = n`, `x == n` holds and `x != n` does not |
| Document.IncrementsAdd | src/document.ts:110-112 | two `+=` on one name add up |
| Document.StepFollowsLink | src/document.ts:26-36 | a choice stays put or moves to the lower-cased link of a choice of the current page. With no current page, or an index outside its choices, nothing changes |
| Document.StepTakesChoice | src/document.ts:28-33 | an unguarded choice always moves, and a guarded one moves exactly when its guard holds |
| Document.StepKeepsVars | src/document.ts:26-36 | with only comparisons as guards, following a choice leaves the variables unchanged. The destination's logic is not applied |
| Document.NoPageIsFinal | src/document.ts:26-36 | on a name that is not a page, such as `end`, every choice changes nothing |
| Document.InterpolateNoPlaceholder | src/document.ts:133-137 | text in which no placeholder starts, whatever braces it holds, comes back unchanged |
| Document.InterpolateNoBraces | src/document.ts:133-137 | text without `{` comes back unchanged |
| Document.InterpolateFirst | src/document.ts:133-137 | a first character that does not open a placeholder is copied. This covers every character other than `{` and a `{` not closed as `{ name }` |
| Document.InterpolateLiteral | src/document.ts:133-137 | a literal part without `{` is copied, and the text after it is processed on its own |
| Document.InterpolatePlaceholder | src/document.ts:133-137 | `{ name }`, with white space inside the braces, becomes the decimal value of the variable, whatever the letter case of the name |

## Left out

- `saveState` and `loadState` (`src/document.ts:64-80`) wrap `JSON.stringify` and `JSON.parse`. They are library calls outside the model.
- Error messages and their line numbers are not modelled. Each failure is a `LoadError` or `ValidationError` value naming the rule that failed.
- JavaScript numbers are modelled as integers or NaN. Float precision, overflow to infinity, `-0` and exponent notation in `toString` are not modelled.
- `toLowerCase` is modelled on ASCII letters only. Strings are sequences of characters, not UTF-16 code units.
- Pages and variables live in plain JavaScript objects, so a name such as `constructor` or `__proto__` would find an inherited property. The model uses maps with no such keys.
- Loader.Validate: `for ... in` visits integer-like page names first, in ascending numeric order, and the other names in insertion order. The model fixes no order. This decides only which error is reported first, when there are several.
- Loader.ParsePageChoices and Loader.ParsePageLogics: the two loops of the source have the same shape, so they are one generic method, `Loader.ReadRun`. It takes the line test and the per-line parser, `Grammar.IsLogicLine` with `Grammar.LogicLine`, or `Grammar.IsChoiceLine` with `Grammar.ChoiceLine`. Those two pure functions perform the line's regex match and `parseLogic`.
- Loader.ParsePage, Loader.ParsePageLogics, Loader.ParsePageTexts and Loader.ParsePageChoices return the page's parts as values. The page object that the source fills in place is not modelled.
- Grammar.ChoiceLineGuarded and the other choice layout lemmas cover labels without `->` inside them. A label holding `->` is cut at the first arrow that a target follows, and the model's `ChoiceMatch` does so, but no lemma states that case.
