# Spreadsheet filler: selector parsing and the three fill options

This project models the workbook transformation of a small Flask service. A user
uploads an Excel workbook. They name some columns (`"A,c,F"`) and some rows
(`"2,5-9,12"`), then choose one of three options. The service fills the
selected cells of every sheet except the first:

- option 1 marks attendance with `"v"`;
- option 2 hands the sheets out five per team to at most ten teams, writes the
  team number into D4 and the team's project title into D5, and writes a score
  into each selected cell;
- option 3 fills each selected cell with a multiple-choice answer, derived from
  the key in a reference column of the same row.

The model takes the route's logic out of the HTTP handler. It becomes a pure
function `Engine.Transform(wb, form, rng)` from a workbook, the form fields and
a random source to either the workbook to send back or an error.

- A workbook is a sequence of sheets.
- A sheet is a map from `(row, column)` to a cell value: empty, an integer or
  text.
- The random source is an infinite stream of draws, `nat -> Draw`. Each draw
  holds a coin (`hit`, standing for `random.random() < p`) and a pick in
  `0..2`. The pick is the offset of `random.randint(marks - 3, marks - 1)` in
  option 2, and the index of `random.choice(wrong)` in option 3.
- Draws are used up exactly where the program calls `random.random()`. In
  options 1 and 2 that is every visited cell. In option 3 it is only a visited
  cell whose key is valid. Draws continue from one sheet to the next.

Every property is proved for every draw stream. Cells are visited exactly in
the program's order: sheet, then column (outer), then row (inner).

Modules, in dependency order:

| file | module | what it holds |
|---|---|---|
| results.dfy | `Results` | `Result`, `Option`, and `MapAll` (a list comprehension whose element function may raise) |
| text.dfy | `Text` | `str.strip`, `str.split` on one character, and `join` with its round trips |
| decimal.dfy | `Decimal` | decimal digit strings and their values |
| ordered.dfy | `Ordered` | `sorted(set)` as the unique strictly increasing listing of a set |
| selectors.dfy | `Selectors` | `col_letter_to_index`, `parse_columns`, `parse_rows`, and `int()` on the marks field |
| workbook.dfy | `Workbook` | cells, sheets, target sheets, visit order, and draws |
| projects.dfy | `Projects` | the `projects` table and the team arithmetic |
| presence.dfy | `Presence` | option 1 |
| grading.dfy | `Grading` | option 2, with its two nested team loops |
| answers.dfy | `Answers` | option 3 |
| engine.dfy | `Engine` | the POST branch of the route, and end-to-end properties per target sheet and cell |

Three behaviours of the program are worth stating plainly:

- An empty or blank row selector is an error, because `parse_rows` calls
  `int("")`.
- An option other than `"1"`, `"2"` or `"3"` returns the workbook unchanged.
- The `marks` field goes through `int()`, so a signed value such as `"-5"` is
  accepted. There is no clamping at zero: scores may be negative.

## Model

| member | source | states |
|---|---|---|
| `Selectors.ColLetterToIndex` | app.py:29-30 | A token is accepted exactly when it is one ASCII letter. Its value is in 1..26, and that column's letter is the token's upper case. Any other token is a `BadColumn` error. |
| `Selectors.ColumnLetterRoundTrip` | app.py:29-30 | The letter of column n, in upper or lower case, reads back as n. |
| `Text.Strip` | app.py:33 | Trimming a given kind of whitespace gives text no longer than the input that neither starts nor ends with that whitespace. `Text.TrimFrames` says it is the input with whitespace cut from both ends. |
| `Text.Trim` | app.py:33 | `str.strip()` gives text no longer than the input that neither starts nor ends with whitespace as `str.isspace()` counts it, the ASCII separators U+001C to U+001F included. |
| `Text.TrimFrames` | app.py:33 | The trimmed text is the input less some leading and trailing whitespace of the kind trimmed. |
| `Text.TrimBlank` | app.py:100-101 | Stripping gives the empty string exactly when the text is all whitespace of the kind stripped. |
| `Text.SeparatorNotIntSpace` | app.py:38-41 | The separator U+001C is whitespace to `str.strip()` but not to `int()`: `"\x1c5"` strips to `"5"`, yet `int()` keeps it whole. |
| `Text.Split` | app.py:33 | Splitting yields at least one piece, and no piece contains the separator. |
| `Text.JoinSplit` | app.py:33 | Joining the pieces of a split gives back the text. |
| `Text.SplitJoin` | app.py:37 | Splitting a join of separator-free pieces gives back the pieces. |
| `Results.MapAll` | app.py:33 | The comprehension succeeds exactly when every element does, and then gives each element's value in order. Otherwise it reports the first failing element's error. |
| `Selectors.NonBlank` | app.py:33 | Kept tokens are non-blank, trimmed at both ends, and never more numerous than the pieces. |
| `Selectors.NonBlankAppend` | app.py:33 | Filtering the pieces of two lists joined is filtering each list and joining the results. |
| `Selectors.NonBlankPiece` | app.py:33 | Wherever a piece stands, it is dropped exactly when it is blank and otherwise kept, trimmed, in its place. |
| `Selectors.NonBlankKeepsClean` | app.py:33 | Pieces that are already trimmed and non-blank are all kept, in order. |
| `Selectors.NonBlankDropsBlank` | app.py:33 | All-whitespace pieces are all dropped. |
| `Selectors.ParseColumns` | app.py:32-33 | The parse succeeds exactly when every non-blank trimmed token is one letter. It then lists one column per token, in input order with repetitions, each the token's alphabet position. |
| `Selectors.ColumnsRoundTrip` | app.py:32-33 | Any list of columns 1..26, written as comma-separated letters, parses back to itself. |
| `Decimal.DigitsRoundTrip` | app.py:41-43 | The decimal rendering of n parses back to n. |
| `Decimal.DigitsCanonical` | app.py:41-43 | A digit string without leading zeros is the rendering of its own value. |
| `Selectors.ParseInt` | app.py:41-43 | `int()` on unsigned text accepts exactly non-empty digit strings once stripped of the whitespace `int()` skips (which leaves out U+001C to U+001F), with their decimal value. Anything else is `BadInteger`. |
| `Selectors.ParseSigned` | app.py:72 | After stripping the whitespace `int()` skips (not U+001C to U+001F), a leading `+` or `-` may come before the digits. The value is negated for `-`. Unsigned text has the same value as in `ParseInt`. A bare sign or any other text is `BadInteger`. |
| `Selectors.MarksSeparatorRejected` | app.py:72 | Marks text `"\x1c5"` is refused, since `int()` does not skip the separator U+001C. |
| `Selectors.SignedRoundTrip` | app.py:72 | Every integer, written in decimal with its sign, parses back to itself. |
| `Selectors.Interval` | app.py:41 | `range(lo, hi + 1)` holds exactly the integers from lo to hi, so a range whose start exceeds its end adds nothing. |
| `Selectors.ParseRowToken` | app.py:38-43 | A token with a dash, if accepted, is a range. A blank token is `int("")`'s error. `Selectors.RowTokenCases` gives both directions, with `int()`'s own whitespace rule for each number. |
| `Selectors.RowSeparatorRejected` | app.py:38-41 | The token `"5\x1c-9"` is refused: `strip()` keeps the inner separator, and `int("5\x1c")` does not skip it. |
| `Selectors.RowTokenCases` | app.py:38-43 | A token without a dash is accepted exactly when it is one integer. A token with a dash is accepted exactly when it splits into two integers, and then it is the range between them. |
| `Selectors.RowTokenRoundTrip` | app.py:38-43 | Every single row or range, written as text, parses back to itself. |
| `Selectors.UnionRows` | app.py:36-43 | The accumulated set holds exactly the rows that some token denotes. |
| `Selectors.ParseRows` | app.py:35-44 | The parse fails exactly when some comma-separated token, blank ones included, is malformed, each number judged by `int()`'s own whitespace rule. Otherwise the result is strictly increasing and holds exactly the rows some token denotes. |
| `Selectors.RowsRoundTrip` | app.py:35-44 | Any non-empty list of rows and ranges, written as a selector, parses to exactly the union of what they denote. |
| `Selectors.EmptyRowsRejected` | app.py:37-43 | An empty row selector is refused with `int("")`'s error. |
| `Ordered.SortedSeq` | app.py:44 | `sorted(set)` is strictly increasing, holds exactly the set's elements, and has one entry per element. |
| `Ordered.SortedUnique` | app.py:44 | Two strictly increasing lists with the same elements are equal, so the sorted listing is unique. |
| `Workbook.Targets` | app.py:59 | There is one target per sheet after the first; `Workbook.TargetAt` says which. |
| `Workbook.Visits` | app.py:65-66 | One visit per selected column and row, `|cols|` times `|rows|`; `Workbook.VisitsCover` and `Workbook.VisitOrder` say which cells and in what order. |
| `Workbook.TargetAt` | app.py:59 | Target `i - 1` is sheet `i`, and replacing the targets puts target `i - 1` at position `i`. |
| `Workbook.VisitsCover` | app.py:65-66 | The visited cells are exactly the selected rows of the selected columns. |
| `Workbook.VisitOrder` | app.py:65-66 | Column number i is visited as block i, with its rows in order inside the block. |
| `Workbook.BlocksIsProduct` | app.py:63-68 | Each sheet in option 1 uses one draw per visited cell, so sheet number i starts at draw i times the number of visited cells. |
| `Projects.CatalogCoversTeams` | app.py:15-26 | The project table has a title for exactly the teams 1 to 10. |
| `Projects.Title` | app.py:84 | The title of a reachable team is one of the catalog's titles and is not empty. |
| `Projects.TitlesDistinct` | app.py:15-26 | Different teams get different project titles. |
| `Projects.TeamFor` | app.py:74-96 | The sheet at 0-based position i belongs to team `i / 5 + 1`. Its team is at most 10 exactly when i < 50. |
| `Projects.TwelveSheets` | app.py:74-96 | Twelve targets form teams 1, 1, 1, 1, 1, 2, 2, 2, 2, 2, 3, 3. |
| `Presence.MarkSheet` | app.py:65-68 | Marking one sheet uses exactly one draw per visited cell. |
| `Presence.MarkSheetEffect` | app.py:65-68 | A cell whose draw hit at any of its visits reads `"v"`. A cell none of whose visits hit is as it was. |
| `Presence.MarkSheetOutcome` | app.py:65-68 | Unvisited cells are kept. Every cell is kept or reads `"v"`. When every draw hits, all visited cells read `"v"`. When none hits, the sheet is unchanged. |
| `Presence.MarkSheets` | app.py:63-68 | Marking keeps the number of targets; `Presence.MarkSheetsAt` gives each target's result. |
| `Presence.MarkBook` | app.py:59-68 | Option 1 keeps the first sheet and the sheet count; `Presence.MarkBookAt` gives each other sheet's result. |
| `Presence.MarkSheetsAt` | app.py:63-68 | Target i is marked on its own, with the i-th block of draws. |
| `Presence.MarkBookAt` | app.py:59-68 | Sheet i of the result is input sheet i marked with draws from block `i - 1` on. |
| `Grading.Score` | app.py:88-93 | A score is between `marks - 3` and `marks`. It is full marks exactly when the draw hits. |
| `Grading.ScoreCovers` | app.py:88-93 | Every score from `marks - 3` to `marks` is produced by some draw. |
| `Grading.ScoreCells` | app.py:86-93 | Scoring one sheet uses exactly one draw per visited cell; `Grading.ScoreCellsFrame`, `Grading.ScoreCellsLastWrite` and `Grading.ScoreCellsRange` give its effect. |
| `Grading.ScoreCellsFrame` | app.py:86-93 | Scoring leaves every unvisited cell as it was. |
| `Grading.ScoreCellsLastWrite` | app.py:86-93 | A visited cell holds the score drawn at its last visit. |
| `Grading.ScoreCellsRange` | app.py:86-93 | Every visited cell holds a score in range: full marks when every draw hits, strictly less when every draw misses. |
| `Grading.GradeSheet` | app.py:82-93 | Grading one handed-out sheet uses exactly one draw per visited cell; `Grading.GradeSheetEffect` gives its effect. |
| `Grading.GradeSheetEffect` | app.py:82-93 | D4 holds the team and D5 its title, unless the selection overwrites them. Visited cells hold scores in range: full marks when every draw hits, strictly less when every draw misses. All other cells are kept. |
| `Grading.MemberLoop` | app.py:78-95 | The inner loop keeps the number of sheets and moves the position forward, never past the end; `Grading.MemberLoopAt` gives its result. |
| `Grading.TeamLoop` | app.py:77-96 | The outer loop keeps the number of sheets; `Grading.TeamLoopAt` gives its result. |
| `Grading.GradeSheets` | app.py:74-96 | Option 2 keeps the number of targets; `Grading.GradeSheetsAt` and `Grading.GradeSheetsBeyond` give each target's result. |
| `Grading.MemberLoopAt` | app.py:78-95 | One team's inner loop stops after five sheets or at the last sheet, with the draws in step. It grades exactly its own sheets. |
| `Grading.TeamLoopAt` | app.py:77-96 | The outer loop leaves earlier sheets alone, and grades each later sheet as its position dictates. |
| `Grading.GradeSheetsAt` | app.py:74-96 | Target j, when j < 50, is graded as team `j / 5 + 1` with the j-th block of draws. |
| `Grading.GradeSheetsBeyond` | app.py:77 | Targets from the fifty-first on are left unchanged. |
| `Grading.GradeBook` | app.py:59-96 | Option 2 keeps the first sheet and the sheet count; `Grading.GradeBookAt` and `Grading.GradeBookBeyond` give each other sheet's result. |
| `Grading.GradeBookAt` | app.py:59-96 | Sheet i of the result, among the first fifty targets, is input sheet i graded for its team. |
| `Grading.GradeBookBeyond` | app.py:59-96 | Sheets after the first fifty targets come back unchanged. |
| `Answers.WrongAnswers` | app.py:117 | The wrong answers are exactly the other choices, three for a valid key, in increasing order. |
| `Answers.WithoutChoices` | app.py:117 | The filter over `[1, 2, 3, 4]`, worked out for each key. |
| `Answers.Answer` | app.py:114-118 | An answer is always one of 1..4. It equals the key exactly when the draw hits. |
| `Answers.AnswerCovers` | app.py:114-118 | Every choice is the answer of some draw. |
| `Answers.WrongPicksDiffer` | app.py:118 | On a miss, different picks give different wrong answers. |
| `Answers.AnswerCells` | app.py:108-118 | One sheet uses at most one draw per visited cell. |
| `Answers.AnswerCellsEffect` | app.py:108-118 | For any reference column, including a selected one: which rows have a valid key never changes, so one draw is used per visit with a valid key. Unvisited cells, and visited cells whose key is not 1..4, are kept. Visited cells with a valid key end with a choice. |
| `Answers.KeyedSameKeys` | app.py:110-111 | How many visits have a valid key depends only on which rows have a valid key. |
| `Answers.AnswerCellsExtremes` | app.py:114-118 | When no visited cell lies in the reference column: if every draw hits, each visited cell with a valid key receives its key; if none hits, it receives a different choice. |
| `Answers.AnswerCellsAllHit` | app.py:110-115 | For any reference column, including a selected one: when every draw hits, each visited cell with a valid key receives its row's original key. |
| `Answers.SelectedKeyExample` | app.py:108-115 | When the reference column is itself selected, its cell is answered first, and a later column of the same row reads the new key. Key 2, a miss and then a hit leave 1 in both cells. |
| `Answers.SelectedKeyMissExample` | app.py:108-118 | When the reference column is itself selected, all misses can still leave a cell holding its row's original key: key 2 and two misses leave 1 in A1 and 2 in B1. |
| `Answers.AnswerSheets` | app.py:106-118 | Option 3 keeps the number of targets; `Answers.AnswerSheetsAt` gives each target's result. |
| `Answers.AnswerSheetsAt` | app.py:106-118 | Target i is answered on its own, from the draw where the earlier targets stopped. |
| `Answers.AnswerBook` | app.py:59-118 | Option 3 keeps the first sheet and the sheet count; `Answers.AnswerBookAt` gives each other sheet's result. |
| `Answers.AnswerBookAt` | app.py:59-118 | Sheet i of the result is input sheet i answered from the draws left by the earlier targets. |
| `Engine.RefColumn` | app.py:100-104 | A blank or absent reference column is `MissingRefColumn`. Otherwise it must be one letter, read as a column. |
| `Engine.Transform` | app.py:55-118 | The first sheet and the sheet count are kept. Column errors come first, then row errors. The request fails exactly when a selector is malformed, option 2's marks are not an integer, or option 3's reference column is missing or not a letter. |
| `Engine.Dispatch` | app.py:59-118 | Once the selectors parse, the request fails only on option 2's marks or option 3's reference column, with that error. An unknown option returns the workbook unchanged. |
| `Engine.TransformParsed` | app.py:55-59 | When both selectors parse, the route is the option branch applied to them. |
| `Engine.PresenceOutcome` | app.py:62-68 | Option 1 keeps every unselected cell of a target sheet. Every cell is kept or reads `"v"`. Selected cells read `"v"` when every draw hits. |
| `Engine.PresenceNoHit` | app.py:62-68 | Option 1 with no hits returns the workbook unchanged. |
| `Engine.PresenceNoHitAt` | app.py:62-68 | Option 1 with no hits leaves each target sheet unchanged. |
| `Engine.GradesOutcome` | app.py:71-96 | Among the first fifty targets, option 2 gives D4 the team `(i - 1) / 5 + 1` and D5 its title unless they are selected. Selected cells hold scores in range: full marks when every draw hits, strictly less when no draw hits. Other cells are kept. Later targets are unchanged. |
| `Engine.AnswersOutcome` | app.py:99-118 | With the reference column outside the selection, option 3 keeps unselected cells and cells whose key is not 1..4. A cell with a valid key gets a choice: the key when every draw hits, another choice when none hits. |
| `Engine.AnswerBookNeverHits` | app.py:110-118 | With no visited cell in the reference column and no draw hitting, a visited cell with a valid key on any target gets a choice other than its key. |
| `Engine.AnswersAnyReference` | app.py:99-118 | For any reference column, including a selected one, option 3 keeps unselected cells and cells whose key is not 1..4. A selected cell with a valid key gets a choice, which is the row's original key when every draw hits. |
| `Engine.KeysOutsideSelection` | app.py:108-110 | A reference column that is not selected is never visited. |
| `Engine.BlankRefRejected` | app.py:100-102 | Option 3 with an absent or blank reference column is refused with `MissingRefColumn`, and no workbook comes back. |

## Left out

- The HTTP exchange is outside the model: the Flask app, reading the uploaded
  file, the form lookups, the 400 response as an HTTP object, and sending the
  file back. It is I/O, and the model's result (a workbook or an error) stands
  for it.
- Loading and saving `.xlsx` files is left out because openpyxl is a foreign
  library. Cells are only empty, integer or text: floats, booleans, dates and
  formulas are not modelled.
- The probability constants and the float comparison `random.random() < p`
  are left out. Each comparison is an abstract `hit` coin in the draw stream,
  so no distribution is modelled.
- Selectors.ColLetterToIndex: accepts only the 52 ASCII letters. Python also
  maps other single characters through `ord(c.upper()) - 64`, for example
  `"["` to 27 and `"1"` to -15. For such characters the model returns
  `BadColumn`.
- Selectors.ParseInt: models `int()` on row text as ASCII digits with
  whitespace around them. Python also accepts a leading `+`, underscores
  between digits and non-ASCII digits, which the model refuses. A leading `-`
  always makes a range token, so a negative row cannot arise.
- Selectors.ParseSigned: models `int()` on the marks field as ASCII digits
  with an optional sign and whitespace around them. Python also accepts
  underscores between digits and non-ASCII digits, which the model refuses.
- openpyxl raises an error when asked for row 0 or below, for example row
  `"0"` in the row selector. The model treats such a cell like any other
  address. A column 0 or below never arises: `Selectors.ColLetterToIndex`
  refuses every token that is not a letter.
- A missing form field (`option`, `columns`, `row_ranges` or `marks`; a
  `KeyError` in the route) is not modelled. Every field is a string, and an absent reference column is
  `None`.
- Engine.AnswersOutcome: assumes the reference column is not among the
  selected columns, and only for its all-miss clause (a cell with a valid key
  receives a choice other than the key). When the reference column is
  selected, an earlier miss can rewrite the key that a later visit of the
  same row reads, so the later cell may receive the original key
  (`Answers.SelectedKeyMissExample`). Every other clause is proved for any
  reference column in `Engine.AnswersAnyReference`.
