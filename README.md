# String art guide — a Dafny model of its core

The string art guide is a web page that walks a maker through a string art
project. The maker uploads a plain-text instruction file. In that file, every
`Thread: [r, g, b]` header line opens a thread of that colour, and each line
after it names the next nail the thread goes to. The page then shows one
instruction at a time and moves forward and back through them, by hand or on
a timer. It draws the nails and the segments strung so far on a circle and
highlights the current nail. It also shows the progress, the elapsed time and
a summary of the colours. The project can be saved to a JSON file and loaded
back.

This project models that core and proves what it promises:

- `FileParser` is the instruction-file parser (`parseStringArtFile`). It is a
  method with a loop, proved equal to a declarative reading of the file (the
  blocks a header and its following lines form). `FileParserProperties`
  relates that reading to the lines of the file. `ColorPattern` models the
  colour regular expression, and `Text` the JavaScript string built-ins the
  core relies on (`trim`, `split`, `parseInt`, `toString`, `padStart`,
  `toLowerCase`, replacing whitespace runs).
- `Navigation` holds the cursor (current thread, current instruction) and
  what Next and Previous do to it. It also holds the disabled states of the
  buttons, the current instruction, the progress percentage, and auto-advance
  as repeated Next.
- `ColorSummary` is the colour grouping of the page: a loop proved against a
  fold, and the fold proved to partition the threads by colour.
- `TimeFormat` is `formatTime`, proved to round-trip through its three fields.
- `UseTimer.Timer` is the `useTimer` hook as a class; each interval firing is
  one `Tick`.
- `StringArtCanvas` is the canvas effect. The drawing is a sequence of
  commands (nail, segment, highlight). Positions are fractions of a full
  turn, not floating-point coordinates. `Render` is proved equal to a
  specification of the scene, and lemmas state what the scene contains.
- `Page.Guide` is the page component as a class. Its fields are the page
  state, and its methods are the handlers (upload, next, previous, reset,
  save, load, auto-advance tick, progress).

The model follows the code wherever the code and the written design differ:

- A thread with no instructions is accepted.
- A loaded project is not validated or clamped.
- The elapsed time is not restored on load.
- The line number in a colour error counts only non-blank lines.
- Colour components are not range-checked.
- The progress reaches 100 at the last instruction only when the project has
  at least 200 instructions (`Navigation.FinalProgress`).
- Auto-advance reaches the last instruction after one firing fewer than the
  project has instructions only when no thread is empty
  (`Navigation.AdvanceFromStart`); each empty thread costs a firing of its
  own (`Navigation.EmptyThreadCostsAFiring`).
- The progress is not clamped: after Previous into a thread without
  instructions the instruction index is -1 and the percentage can be
  negative (`Navigation.NegativeProgressInEmptyThread`).

## Model

| member | source | states |
|---|---|---|
| FileParser.ParseStringArtFile | lib/file-parser.ts:3-67 | the parser's result is exactly the declarative reading `ParsedFile` of the file, error or project |
| FileParser.ParsedFile | lib/file-parser.ts:3-67 | the declarative reading: the error at the first header without a colour, else no threads without a header, else one thread per block; stated by ParsedProject, InvalidColorRejection, NoThreadsRejection, BlankLineIgnored |
| FileParser.LinesAreTrimmed | lib/file-parser.ts:4-11 | every line the parser looks at is non-empty and already trimmed (blank lines are dropped before counting) |
| FileParser.NonBlankLinesAreNonBlank | lib/file-parser.ts:4 | the filter keeps exactly the lines whose trim is non-empty, in order |
| FileParser.BlockHeaders | lib/file-parser.ts:14-31 | every block (thread) starts at one of the file's `Thread:` header lines |
| FileParser.ThreadsOfAt | lib/file-parser.ts:26-34 | the k-th thread is built from the k-th header and the lines after it |
| FileParserProperties.ParsedProject | lib/file-parser.ts:14-66 | on success there is one thread per header, in order, whose colour is the three captured numbers of that header; the total counts every instruction |
| FileParserProperties.InvalidColorRejection | lib/file-parser.ts:21-24 | the file is rejected with an invalid-colour error, naming the 1-based index of the first header without a colour group and that line, exactly when such a header exists |
| FileParserProperties.NoThreadsRejection | lib/file-parser.ts:59-61 | the "no threads" error happens exactly when the file has no header line (and every header has a colour) |
| FileParserProperties.InstructionCountIsLength | lib/file-parser.ts:46-50 | the instruction total is the number of instructions of all threads together |
| FileParserProperties.InstructionsFromBodyLines | lib/file-parser.ts:36-50 | the instructions of all threads, in order, are the numeric lines after the first header, non-numeric lines skipped |
| FileParserProperties.BlocksFollowHeaders | lib/file-parser.ts:14-34 | there are as many blocks as header lines, each opened by its header |
| FileParserProperties.HeadersEmptyIffNoHeaders | lib/file-parser.ts:59-61 | the list of header lines is empty if and only if no line is a header |
| FileParserProperties.BlankLineIgnored | lib/file-parser.ts:4 | inserting or removing a whitespace-only line between two parts of a file, at its start or at its end, changes neither the lines the parser sees nor its result, error line numbers included |
| FileParserProperties.BlankFirstPieceDropped | lib/file-parser.ts:4 | a blank first line is dropped by the split and the filter |
| FileParserProperties.BlankLastPieceDropped | lib/file-parser.ts:4 | a blank last line is dropped by the split and the filter |
| FileParserProperties.BlankPieceDropped | lib/file-parser.ts:4 | the split and filtered lines of a file with a blank line inserted are those without it |
| FileParserProperties.NonBlankLinesAppend | lib/file-parser.ts:4 | the blank-line filter works on two parts of a file independently |
| FileParserProperties.DropBlankPiece | lib/file-parser.ts:4 | the filter drops a blank line wherever it stands |
| FileParserProperties.SplitAroundLine | lib/file-parser.ts:4 | a line between two parts of a file is one piece of the split, between the parts' pieces |
| ColorPattern.MatchIsLeftmost | lib/file-parser.ts:21 | a match exists if and only if the pattern matches at some position, and the captures come from the leftmost one; the run-to-its-end matching is the regular expression's own answer for the colour pattern, not for patterns in general |
| ColorPattern.MatchCaptures | lib/file-parser.ts:21 | a match yields one non-negative integer per capture group |
| ColorPattern.FindColorShape | lib/file-parser.ts:21-30 | a header colour is always three non-negative integers |
| ColorPattern.MatchAtCaptures | lib/file-parser.ts:21 | a match at one position (digit and whitespace runs read to their end, as the colour pattern forces) yields one non-negative integer per capture group |
| ColorPattern.MatchFromIsLeftmost | lib/file-parser.ts:21 | the search returns the first position where the pattern matches, and no earlier position matches |
| ColorPattern.DigitsEndIsRunEnd | lib/file-parser.ts:21 | `\d+` takes the whole run of digits |
| ColorPattern.SpacesEndIsRunEnd | lib/file-parser.ts:21 | `\s*` takes the whole run of whitespace |
| ColorPattern.FindColor | lib/file-parser.ts:21-30 | `line.match` with the colour pattern, reduced to the three captured numbers; its shape is stated by FindColorShape and its leftmost choice by MatchIsLeftmost |
| Text.TrimEmptyIffBlank | lib/file-parser.ts:4 | a line trims to empty if and only if it is all whitespace (the JavaScript whitespace and line terminators, Unicode spaces included) |
| Text.Trim | lib/file-parser.ts:4-11 | `trim`: no whitespace is left at either end and only whitespace is removed; its laws are TrimEmptyIffBlank, TrimIdempotent, TrimOfTrimmed |
| Text.TrimIdempotent | lib/file-parser.ts:11 | trimming twice is trimming once |
| Text.TrimOfTrimmed | lib/file-parser.ts:11 | a string with no whitespace at either end is its own trim |
| Text.TrimStartIsSuffix | lib/file-parser.ts:40 | leading-whitespace removal leaves a suffix of the input |
| Text.SplitJoin | lib/file-parser.ts:4 | splitting the join of separator-free pieces gives the pieces back |
| Text.JoinSplit | lib/file-parser.ts:4 | joining the pieces of a split gives the input back |
| Text.SplitPiecesFree | lib/file-parser.ts:4 | no piece of a split contains the separator |
| Text.SplitWithoutSeparator | lib/file-parser.ts:4 | a string without the separator splits into itself |
| Text.SplitAround | lib/file-parser.ts:4 | splitting distributes over one separator occurrence |
| Text.Split | lib/file-parser.ts:4 | `split` at one character, at least one piece; inverse of Join by SplitJoin and JoinSplit |
| Text.ParseIntNaN | lib/file-parser.ts:40-44 | `parseInt` is NaN exactly when no digit follows the optional leading whitespace and sign; without a minus sign a number is non-negative |
| Text.ParseIntIgnoresTrailing | lib/file-parser.ts:40 | `parseInt` reads the leading digits and ignores what follows them |
| Text.ParseIntNegative | lib/file-parser.ts:40 | a leading minus sign negates the value read |
| Text.ParseInt | lib/file-parser.ts:40-44 | `parseInt(s, 10)`: optional leading whitespace and sign, then the leading decimal digits, NaN without any; stated by ParseIntNaN, ParseIntIgnoresTrailing, ParseIntNegative, ParseIntNatToString |
| Text.ParseIntNatToString | app/page.tsx:306-311 | the decimal text of a number parses back to it |
| Text.NatToString | app/page.tsx:306-311 | the decimal text is non-empty digits with no leading zero whose value is the number; one digit exactly below 10 |
| Text.PadStart | app/page.tsx:307-310 | the padded text is the input preceded by fill characters up to the width |
| Text.ToLower | app/page.tsx:202 | the capitals A-Z and À-Þ (except ×) are lower-cased, every other character is kept, the length is kept, and no such capital is left |
| Text.ReplaceSpaceRunsNoSpace | app/page.tsx:202 | replacing whitespace runs by a non-space glue leaves no whitespace |
| Text.ReplaceSpaceRunsIdentity | app/page.tsx:202 | a text without whitespace is left as it is |
| Text.ReplaceSpaceRunsRun | app/page.tsx:202 | a whole run of whitespace, of any length and up to a non-space character or the end, becomes exactly one copy of the glue |
| Text.ReplaceSpaceRunsKeeps | app/page.tsx:202 | a character that is not whitespace is copied as it is |
| Types.InstructionCountAppend | lib/types.ts:1-13 | the instruction count of two thread lists together is the sum of their counts |
| Types.InstructionCountPrefix | app/page.tsx:298-301 | the counts of a prefix and the rest add up to the whole |
| UseTimer.Timer.constructor | hooks/use-timer.ts:14-15 | the timer starts at zero, stopped |
| UseTimer.Timer.Start | hooks/use-timer.ts:34-36 | start runs the timer and keeps the time |
| UseTimer.Timer.Pause | hooks/use-timer.ts:38-40 | pause stops the timer and keeps the time |
| UseTimer.Timer.Reset | hooks/use-timer.ts:42-45 | reset stops the timer and sets the time to zero |
| UseTimer.Timer.Tick | hooks/use-timer.ts:18-32 | while running, each interval firing adds one second |
| TimeFormat.TwoDigitsParsesBack | app/page.tsx:307-310 | a padded field is digits only, two characters below 100, and parses back to its value |
| TimeFormat.TimeFields | app/page.tsx:307-309 | hours, minutes and seconds recompose the input, minutes and seconds below 60 |
| TimeFormat.FormatTimeRoundTrip | app/page.tsx:306-311 | the shown text splits at ':' into three fields that parse back to hours, minutes and seconds recomposing the input |
| TimeFormat.FormatTimeLength | app/page.tsx:306-311 | below 100 hours the text is exactly eight characters |
| TimeFormat.FormatTime | app/page.tsx:306-311 | `formatTime`: hours, minutes and seconds, each padded to two digits, joined by ':'; round trip stated by FormatTimeRoundTrip |
| Navigation.Next | app/page.tsx:152-162 | `handleNext`: the next instruction of the thread, else the first of the next thread, else no move; stated by TransitionsKeepValid, NextButtonMatches, NextCompletesOne, NextStopsAtEnd |
| Navigation.Previous | app/page.tsx:164-174 | `handlePrevious`: the previous instruction, else the last of the previous thread (-1 if it is empty), else no move; stated by PreviousUndoesNext, NextUndoesPrevious, PreviousButtonMatches |
| Navigation.NextDisabled | app/page.tsx:587-590 | the Next button's disabled condition; equivalent to Next not moving by NextButtonMatches |
| Navigation.PreviousDisabled | app/page.tsx:581 | the Previous button's disabled condition; equivalent to Previous not moving by PreviousButtonMatches |
| Navigation.CurrentInstruction | app/page.tsx:285-292 | `getCurrentInstruction`; stated by CurrentInstructionAtValid and CurrentInstructionShown |
| Navigation.Completed | app/page.tsx:296-302 | the instructions of the earlier threads plus the instruction index; bounded by CompletedBounds |
| Navigation.Percent | app/page.tsx:303 | `Math.round(completed / total * 100)`, nothing for a total of 0; within 0..100 by PercentInRange and ProgressBounds |
| Navigation.Advance | app/page.tsx:88-103 | n firings of the interval as meant, each a Next; stated by AdvanceReachesEnd, AdvanceFromStart |
| Navigation.FireAsWritten | app/page.tsx:88-103 | one firing as written: Next from the position captured when the interval was installed, which is re-captured only when the instruction index changes; stated by AsWrittenStalls, AsWrittenAgreesWithoutShortThreads |
| Navigation.AdvanceAsWritten | app/page.tsx:88-103 | n firings as written; stated by AsWrittenStalls, StuckStaysStuck |
| Navigation.TransitionsKeepValid | app/page.tsx:152-174 | Next and Previous keep the cursor inside the project |
| Navigation.ValidIsShownWithoutEmptyThreads | app/page.tsx:550 | without empty threads every reachable cursor shows an instruction |
| Navigation.PreviousUndoesNext | app/page.tsx:152-174 | Previous undoes a Next that moved, unless the move left an empty thread |
| Navigation.PreviousAfterNextFromEmptyThread | app/page.tsx:164-174 | leaving an empty thread and coming back lands on instruction -1 of it, where nothing is shown |
| Navigation.NextUndoesPrevious | app/page.tsx:152-174 | Next undoes a Previous that moved from a shown position |
| Navigation.NextButtonMatches | app/page.tsx:587-590 | the Next button is disabled exactly when Next would not move |
| Navigation.PreviousButtonMatches | app/page.tsx:581 | the Previous button is disabled exactly when Previous would not move |
| Navigation.CurrentInstructionAtValid | app/page.tsx:285-292 | inside the project there is a current instruction exactly when the thread is non-empty and the index non-negative, and it is that instruction |
| Navigation.CurrentInstructionShown | app/page.tsx:285-292 | there is a current instruction exactly when the cursor points at one; none without a project |
| Navigation.RoundRatioIsNearest | app/page.tsx:303 | `Math.round` of a ratio is the nearest integer, halves rounded up |
| Navigation.CompletedPrefix | app/page.tsx:298-301 | adding a thread to the counted prefix adds its instruction count |
| Navigation.CompletedBounds | app/page.tsx:296-302 | at a valid position with a non-negative instruction index the completed count lies between 0 and the total, below it on a non-empty thread |
| Navigation.CompletedInEmptyThread | app/page.tsx:296-302 | at a valid position with a negative instruction index the index is -1 in a thread without instructions, and the completed count is the earlier threads' total minus one, so at least -1 |
| Navigation.NegativeProgressInEmptyThread | app/page.tsx:294-304 | with an empty first thread, Next then Previous reach the valid position (0, -1), where the completed count is -1 and the percentage -100 |
| Navigation.ProgressBounds | app/page.tsx:294-304 | at a valid position with a non-negative instruction index the percentage lies between 0 and 100; it is 0 at the start, and there is no number exactly when the project has no instructions |
| Navigation.PercentInRange | app/page.tsx:303 | a rounded share of at most the whole lies between 0 and 100 |
| Navigation.FinalProgress | app/page.tsx:294-304 | at the last instruction the completed count is the total minus one, and the percentage is 100 exactly when the total is at least 200 |
| Navigation.NextCompletesOne | app/page.tsx:152-162 | a Next that moves completes exactly one more instruction, or crosses an empty thread |
| Navigation.RankBounds | app/page.tsx:152-162 | every move of Next strictly advances a bounded rank |
| Navigation.NextStopsAtEnd | app/page.tsx:152-162 | Next stays put exactly at the last instruction of the last thread (or an empty last thread) |
| Navigation.AdvanceReachesEnd | app/page.tsx:88-103 | enough auto-advance steps reach the end of the last thread and stay inside the project |
| Navigation.AdvanceFixed | app/page.tsx:88-103 | once at the end, further steps change nothing |
| Navigation.AdvanceCountsInstructions | app/page.tsx:88-103 | without empty threads, from any position inside the project, exactly as many firings as instructions remain after the current one reach the last instruction |
| Navigation.AdvanceFromStart | app/page.tsx:88-103 | without empty threads, from the start the last instruction is reached after exactly total - 1 firings, not earlier, and every further firing stays there |
| Navigation.AdvanceProgress | app/page.tsx:88-103 | without empty threads, n firings complete n more instructions until the last one, and stay inside the project |
| Navigation.AdvanceSplit | app/page.tsx:88-103 | a firings followed by b firings are a + b firings |
| Navigation.EmptyThreadCostsAFiring | app/page.tsx:88-103 | with an empty thread before a one-nail thread, total - 1 firings fall short of the last instruction and one firing reaches it |
| Navigation.AsWrittenStalls | app/page.tsx:88-103 | with the stale handler the interval keeps, three one-nail threads stall at thread 2, while repeated Next reaches thread 3 |
| Navigation.StuckStaysStuck | app/page.tsx:88-103 | once stalled, further firings of the stale handler change nothing |
| Navigation.AsWrittenAgreesWithoutShortThreads | app/page.tsx:88-103 | when every thread has at least two instructions, the stale handler behaves like repeated Next |
| ColorSummary.SummarizeColors | app/page.tsx:373-388 | the loop computes the colour summary fold |
| ColorSummary.Summary | app/page.tsx:373-388 | the grouping as a fold over the threads; stated by SummaryInvariant, ThreadInExactlyOneGroup, SummaryFirstSeenOrder, SummaryCounts, SummaryConnectionsTotal |
| ColorSummary.Find | app/page.tsx:376-377 | a found group has the colour; not found means no group has it |
| ColorSummary.FindUnique | app/page.tsx:376-377 | among distinct colours, looking up a group's colour finds that group |
| ColorSummary.SummaryInvariant | app/page.tsx:373-388 | the summary has distinct colours, lists threads of its colour only, in first-seen order, counts their instructions, and places every thread |
| ColorSummary.ThreadInExactlyOneGroup | app/page.tsx:373-388 | each thread number appears in the group of its colour exactly once and in no other group |
| ColorSummary.PartitionOf | app/page.tsx:373-388 | a summary with those properties places each thread in exactly one group |
| ColorSummary.OnlyGroupOf | app/page.tsx:373-388 | a thread number listed in a group belongs to that group's colour |
| ColorSummary.OnceInIncreasing | app/page.tsx:387 | thread numbers are pushed in increasing order, so each occurs once |
| ColorSummary.SummaryGroupsListTheirThreads | app/page.tsx:386-387 | every listed thread number is a thread of the group's colour, listed in increasing order |
| ColorSummary.SummaryFirstSeenOrder | app/page.tsx:377-383 | groups appear in the order their colour first occurs |
| ColorSummary.SummaryCounts | app/page.tsx:386 | a group's connection count is the number of instructions of all threads of its colour |
| ColorSummary.SummaryConnectionsTotal | app/page.tsx:386 | the connection counts add up to the project's instruction count |
| StringArtCanvas.LargestNail | components/string-art-canvas.tsx:44-49 | the loop finds the largest nail number of all threads (0 at least) |
| StringArtCanvas.DrawNails | components/string-art-canvas.tsx:53-74 | one numbered nail per index, in order |
| StringArtCanvas.DrawThread | components/string-art-canvas.tsx:89-105 | the segments of one thread up to its limit |
| StringArtCanvas.DrawSegments | components/string-art-canvas.tsx:77-106 | the segments of every thread up to the current one |
| StringArtCanvas.Render | components/string-art-canvas.tsx:19-123 | the commands drawn are exactly the scene: nails, then segments, then the highlight; a current thread one past the last with a negative instruction is skipped as the loop's `continue` does |
| StringArtCanvas.Scene | components/string-art-canvas.tsx:19-123 | what the effect draws, as a specification: stated by SceneNails, SceneHighlight, SceneSegments, CurrentThreadSegments |
| StringArtCanvas.MaxOfBounds | components/string-art-canvas.tsx:46-48 | the largest nail of a thread bounds its nails and is one of them (or 0) |
| StringArtCanvas.MaxNailBounds | components/string-art-canvas.tsx:44-49 | the largest nail bounds every nail and is one of them (or 0) |
| StringArtCanvas.TotalNailsBounds | components/string-art-canvas.tsx:52 | the nail count is at least one and above every nail number |
| StringArtCanvas.NailCommandsAt | components/string-art-canvas.tsx:53-74 | nail i sits at i/total of a turn and is labelled with i in decimal |
| StringArtCanvas.ThreadSegmentsAt | components/string-art-canvas.tsx:89-105 | a thread draws one segment per consecutive pair of nails below the limit |
| StringArtCanvas.SegmentsBeforeAt | components/string-art-canvas.tsx:77-106 | every drawn segment comes from a thread before the limit and every such pair is drawn |
| StringArtCanvas.SceneNails | components/string-art-canvas.tsx:20-74 | nothing is drawn without a project; otherwise the scene starts with all nails and no nail comes after them, so each nail is drawn once |
| StringArtCanvas.SceneHighlight | components/string-art-canvas.tsx:109-122 | a highlight is drawn exactly when an instruction is shown, as the last command, at the current nail |
| StringArtCanvas.SceneSegments | components/string-art-canvas.tsx:77-106 | the segments in the scene are exactly those of earlier threads and of the current thread up to the current instruction |
| StringArtCanvas.CurrentThreadSegments | components/string-art-canvas.tsx:79-105 | the current thread adds as many segments as the current instruction index, the last one ending at the current nail |
| Page.CanSaveIffNamed | app/page.tsx:177 | saving is possible exactly with a project and a name holding a non-whitespace character |
| Page.DownloadNameShape | app/page.tsx:202 | the download name ends with `-string-art.json` and holds no whitespace and no capital of A-Z or À-Þ |
| Page.DownloadNameOfSpacedName | app/page.tsx:202 | "My  Art" is saved as "my-art-string-art.json": the double space becomes one '-' |
| Page.DownloadNameOfPlainName | app/page.tsx:202 | a name without whitespace and without those capitals is used unchanged |
| Page.ValidIsRenderable | app/page.tsx:613-617 | at every valid position the indices the page passes to the canvas keep it from throwing, the progress loop reads only existing threads, and the canvas highlights a nail exactly when the page shows an instruction |
| Page.ParsedProjectStarts | app/page.tsx:131-138 | a parsed project's total is its instruction count and the start position is inside it |
| Page.CanSave | app/page.tsx:177 | the save guard: a project and a name that does not trim to empty; stated by CanSaveIffNamed |
| Page.DownloadName | app/page.tsx:202 | whitespace runs become '-', capitals lower-cased, the suffix appended; each run becomes exactly one '-' by Text.ReplaceSpaceRunsRun, other characters are kept by Text.ReplaceSpaceRunsKeeps; the shape is stated by DownloadNameShape, DownloadNameOfPlainName, DownloadNameOfSpacedName |
| Page.Guide.constructor | app/page.tsx:53-61 | no project, position 0/0, empty name, auto-advance off, timer at 0 stopped |
| Page.Guide.FileUpload | app/page.tsx:131-150 | a parsed file becomes the project at the start, the timer reset and running; a failed parse changes nothing |
| Page.Guide.Open | app/page.tsx:133-138 | the parsed project is installed at thread 0, instruction 0, with the timer reset to 0 and running; name and auto-advance untouched |
| Page.Guide.Next | app/page.tsx:152-162 | the position becomes Next of the old one (unchanged without a project), and stays inside the project |
| Page.Guide.Previous | app/page.tsx:164-174 | the position becomes Previous of the old one (unchanged without a project), and stays inside the project |
| Page.Guide.Reset | app/page.tsx:261-264 | back to the start, timer at 0 and stopped |
| Page.Guide.SetAutoAdvance | app/page.tsx:88-103 | only the auto-advance switch changes |
| Page.Guide.SetProjectName | app/page.tsx:426 | only the name changes |
| Page.Guide.AutoAdvanceTick | app/page.tsx:88-103 | one auto-advance firing as it is meant to behave is one Next from the current position (the firing as written is Navigation.FireAsWritten) |
| Page.Guide.ProgressPercentage | app/page.tsx:294-304 | the loop computes the rounded share of completed instructions (0 without a project), within 0..100 for a parsed project at a position with a non-negative instruction index |
| Page.Guide.Save | app/page.tsx:176-214 | a download is produced exactly when saving is possible, holding the project, position, time, date and name under the derived file name |
| Page.Guide.Load | app/page.tsx:222-259 | an unreadable file changes nothing; otherwise project, position and name are taken as saved and the timer is reset |
| Page.Guide.SaveThenLoad | app/page.tsx:176-259 | loading what was saved restores project, position and name, but not the elapsed time |

## Left out

- Reading the uploaded file, `FileReader`, `Blob`, download links and JSON (de)serialisation: uploads are given as text, a save is a value, a load is given the parsed value or nothing.
- Text.ParseInt: yields an exact integer, while `parseInt` yields a double, so nail numbers and colour components above 2^53 lose precision in the page and not in the model.
- Text.ToLower: maps only the capitals A-Z and À-Þ; `toLowerCase` maps all of Unicode and can change the length (İ becomes two code units), so other capitals survive in the model's file names.
- Page.DownloadNameShape: "no capital" covers only A-Z and À-Þ, for the reason given for Text.ToLower.
- Page.Guide.AutoAdvanceTick: models the intended firing; the page as written steps from the position captured when the interval was installed (Navigation.FireAsWritten, see Findings).
- StringArtCanvas.Render: requires what keeps the effect from throwing; the page throws, and the model does not go, where the current thread index is more than one past the last thread, one past the last with an instruction index of 0 or more, or where the current instruction index is past the end of an existing current thread (and above 0).
- Page.Guide.Load: a file that is valid JSON but not a saved project is not modelled; the page would take its fields as they are.
- Page.Guide.Next: a thread index out of range (negative, or past the end, as a loaded file can give) makes the page throw before any update; the model leaves the state unchanged there.
- Page.Guide.ProgressPercentage: requires the thread index to be at most the number of threads, since beyond it the page reads a missing thread and throws.
- Navigation.Percent: rounding is exact rational arithmetic; floating-point error in `100 * completed / total` is not modelled. A total of 0 gives no number: the page computes NaN when no instruction is completed and an infinity (negative at the position (0, -1)) otherwise.
- The clock: `setInterval` and its timing are replaced by `Tick` and `AutoAdvanceTick` firings; the auto-advance speed slider only sets their spacing and is left out.
- Keyboard shortcuts are left out. They use the same stale handlers as auto-advance (see Findings), and the save shortcut uses a stale name and time.
- Canvas geometry: positions are fractions of a turn, not floating-point coordinates; colours, line widths, fonts and the canvas size are left out.
- Toasts, dark mode, full screen, the info modal, the GitHub ribbon, the colour swatch component, the file-uploader component and `lib/utils.ts` are UI only and not part of this model.

## Findings

| source | as written | input that shows it | evidently intended | confidence | as-written member | corrected member |
|---|---|---|---|---|---|---|
| app/page.tsx:88-103 | the auto-advance interval keeps the Next handler of the render that installed it and is re-installed only when the instruction index changes; a move from a thread of at most one instruction to the next thread keeps index 0, so the interval keeps moving from the old position | three threads of one nail each (`Thread: [1,2,3]` then `5`, twice more with `6` and `7`): from the start, auto-advance reaches thread 2 and stays there | each firing moves one step from the current position, reaching the last thread | not executed | Navigation.AsWrittenStalls | Navigation.AdvanceReachesEnd |
| app/page.tsx:106-129 | the keyboard listener captures the Next and Previous handlers in the same way and is re-installed only when its listed state changes | the same file: pressing the right arrow twice from the start stays on thread 2 | each key press moves one step from the current position | not executed | Navigation.AsWrittenStalls | Navigation.AdvanceReachesEnd |
