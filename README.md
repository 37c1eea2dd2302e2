# flet-pdf: the page selection and the PDF jobs, in Dafny

flet-pdf is a small desktop application that merges, splits and extracts
the pages of PDF files. The user picks files into a column of path entries
and reorders them by drag and drop. The user types a page selection such as
`1,2,5-10,20,30` into a text field, then presses Merge, Split or Extract.
The progress of each job is shown in a log panel.

This project models the sequential logic behind those buttons and proves
what it does.

- `text.dfy`, module `Text`: the pieces of Python text handling the
  application relies on. These are `str.split`, `int()` on strings of
  digits, ',', '|' and '-' (a leading '-' is a sign), and the zero-padded
  `{:05}` format of output names.
- `lists.dfy`, module `Lists`: Python's `list.index`, `insert`, `pop` and
  `remove` as functions on sequences. It proves that the four-step
  reorder of a drag and drop swaps two positions.
- `selection.dfy`, module `PageSelection`: `check_comma_separated_num`.
  - `Selection` is the function that specifies it. `CheckCommaSeparatedNum`
    is the loop with its mutable flag, proved equal to `Selection`.
  - The pattern `^\d+(?:[,|-]\d+)*$` is an automaton, `MatchesPattern`. It
    is proved equal to an independent description, `WellFormed`.
  - Lemmas pin down the behaviour of each kind of clause and how clauses
    combine.
- `layout.dfy`, module `Layout`: the widgets whose state the handlers
  update. These are the selection text field, the column of path entries,
  and the entries with their delete and drag-and-drop handlers, as classes.
- `jobs.dfy`, module `Jobs`: what the jobs produce, as pure functions.
  - Output paths.
  - Which pages of a document a split or extract writes, and in which order.
  - A whole run over the inputs, stopping at an input that cannot be read.
  - The log lines.
  - The pages of a merge.
- `app.dfy`, module `PdfApp`: the `App` class.
  - Its state is the path column, the selection field, the log panel (a
    sequence of lines) and the files written so far (a sequence of
    `Written` records).
  - Each job handler is a method proved against the `Jobs` functions.

A PDF document is the sequence of its pages. The documents on disk are the
map `docs` from paths to documents. A path absent from `docs` is one that
the PDF library cannot open. Where the application would raise an
exception, the handler ends with the outcome `Failed(path)`. That run keeps
what it wrote before the failure and does not log "Done!". The parent
directory and the stem of an input path come from the parameter `pathParts`.

The selection pattern's character class is `[,|-]`: it admits `|` as a
separator as well as `,` and `-`. So `1|2` passes the pattern. It then
fails both integer parses, so the selection is flagged invalid
(`BarSelection`).

## Model

| member | source | states |
|---|---|---|
| Text.DecimalString | src/app.py:187 | the decimal spelling of n is a non-empty run of digits, reads back as n, and has no leading zero |
| Text.ParseInt | src/lib/components/layout.py:38 | `int()` on the selection alphabet: a digit run in decimal, `-` and a digit run as its negation, anything else raises; `UnsignedParse`, `NotANumber`, `ZeroPaddedRoundTrip` and `SignedClause` state its properties |
| Text.UnsignedParse | src/lib/components/layout.py:38 | a string that does not start with `-` reads, if at all, as a non-negative number |
| Text.NotANumber | src/lib/components/layout.py:37-41 | on the selection alphabet, a string holding a character that is neither a digit nor `-` (that is, `,` or `\|`) makes `int` raise |
| Text.InnerHyphen | src/lib/components/layout.py:38-41 | on the selection alphabet, a clause with a `-` after its first character, such as `5-10`, makes `int` raise, so the `-` branch handles it |
| Text.ZeroPadded | src/app.py:187 | the `{:05}` format of an ordinal; `ZeroPaddedRoundTrip` and `ZeroPaddedOne` state its spelling |
| Text.ZeroPaddedRoundTrip | src/app.py:187 | the `{:05}`-padded ordinal is digits only, exactly five characters long or as long as the plain spelling when that is longer, and `int()` reads it back as the ordinal |
| Text.ZeroPaddedOne | src/app.py:187 | ordinal 1 is spelled `00001` |
| Text.ZeroPaddedInjective | src/app.py:187 | two ordinals with the same padded spelling are equal |
| Text.LeadingZerosIgnored | src/app.py:187 | zeros put in front of a digit string keep it a digit string of the same value |
| Text.Split | src/lib/components/layout.py:35 | `str.split` gives at least one field, no field holds the separator, and joining the fields with the separator gives the input back |
| Text.SplitWithoutSeparator | src/lib/components/layout.py:35 | a string without the separator splits into itself alone |
| Text.SplitAppend | src/lib/components/layout.py:35 | splitting `a + sep + b` gives the fields of a followed by the fields of b |
| Text.SplitJoin | src/lib/components/layout.py:35 | separator-free fields joined by the separator split back into the same fields |
| Text.FieldHolds | src/lib/components/layout.py:41 | a non-separator character of a joined string occurs in one of its fields |
| Lists.IndexOf | src/lib/components/layout.py:338-339 | `list.index` gives the position of the first occurrence |
| Lists.Insert | src/lib/components/layout.py:340 | `list.insert(i, x)` puts x at i, keeps the elements before i and shifts the rest right by one |
| Lists.Pop | src/lib/components/layout.py:341 | `list.pop(i)` keeps the elements before i and shifts the rest left by one |
| Lists.InsertThenPopReplaces | src/lib/components/layout.py:340-341 | inserting at i and popping i + 1 replaces position i |
| Lists.ReorderSwaps | src/lib/components/layout.py:338-343 | the four insert/pop steps of a drop exchange the drop and drag positions |
| Lists.SwapFacts | src/lib/components/layout.py:338-343 | a swap keeps the length and every other position, is a permutation, and is the identity when both positions coincide |
| Lists.SwapKeepsDistinct | src/lib/components/layout.py:338-343 | a swap keeps a list free of repeats |
| Lists.RemoveFirst | src/lib/components/layout.py:325 | `list.remove(x)`: the list without the first occurrence of x; `RemoveFirstFacts` and `DelButtonText.OnDelete` state its properties |
| Lists.RemoveFirstFacts | src/lib/components/layout.py:325 | in a list without repeats, `list.remove(x)` leaves the elements before and after x's position, in order, so exactly the others, still without repeats |
| Lists.DistinctAppend | src/app.py:109-115 | appending a new entry keeps the column free of repeats |
| PageSelection.MatchesPattern | src/lib/components/layout.py:28-29 | the pattern `^\d+(?:[,\|-]\d+)*$` as an automaton; `PatternIsWellFormed` proves it equal to an independent description and `ClausesStartWithDigit` states what it guarantees of each clause |
| PageSelection.ClausesStartWithDigit | src/lib/components/layout.py:28-36 | every comma-separated clause of a string the pattern accepts is non-empty and starts with a digit |
| PageSelection.PatternIsWellFormed | src/lib/components/layout.py:28 | the automaton accepts exactly the non-empty strings of digits and separators that start and end with a digit and never have two separators in a row |
| PageSelection.ParseAll | src/lib/components/layout.py:41 | the list comprehension of `int` succeeds exactly when every part parses, and then holds each part's value in order |
| PageSelection.Min | src/lib/components/layout.py:42 | `min` is an element no larger than any other |
| PageSelection.Max | src/lib/components/layout.py:43 | `max` is an element no smaller than any other |
| PageSelection.Range | src/lib/components/layout.py:47 | `range(lo, hi)` has hi - lo elements, lo + k at position k |
| PageSelection.SpanIsRange | src/lib/components/layout.py:44-47 | the single value appended when min equals max is `range(min, max + 1)` too |
| PageSelection.RangeMembers | src/lib/components/layout.py:47 | a value is in `range(lo, end)` exactly when lo <= value < end |
| PageSelection.ClauseValue | src/lib/components/layout.py:37-49 | what one clause contributes: `int` first, then the `-` parts; `PlainClauseVerbatim`, `HyphenClauseRange`, `BarClauseRejected`, `SignedClause` and `ClauseValuesNonNegative` state its cases |
| PageSelection.HyphenValue | src/lib/components/layout.py:41-49 | what the `-` parts of a clause contribute; `HyphenRun` states the run it gives when they all parse |
| PageSelection.Span | src/lib/components/layout.py:44-47 | the single value when min equals max, else `range(min, max + 1)`; `SpanIsRange` shows both are `range(min, max + 1)` |
| PageSelection.ParseClauses | src/lib/components/layout.py:35-49 | the clauses processed in order; `ParseClausesAppend` and `ParseClausesNonNegative` state its properties and `CheckCommaSeparatedNum` is proved equal to it |
| PageSelection.Selection | src/lib/components/layout.py:18-52 | the result of `check_comma_separated_num`; `CheckCommaSeparatedNum`, `SelectionValid`, `SelectionConcat`, `SelectionNonNegative`, `RejectedInputs` and the examples below state its properties |
| PageSelection.SelectionValid | src/lib/components/layout.py:28-50 | the flag comes back set exactly when the input matches the pattern and holds no `\|` |
| PageSelection.MatchRuns | src/lib/components/layout.py:28-36 | every comma clause of a matching input without `\|` is digit runs joined by single `-` |
| PageSelection.RunParts | src/lib/components/layout.py:40-41 | the `-` parts of such a clause are all non-empty digit runs |
| PageSelection.RunClauseValid | src/lib/components/layout.py:37-49 | such a clause keeps the flag set, through the first `int` or through the `-` parts |
| PageSelection.ParseClausesValid | src/lib/components/layout.py:35-50 | the flag survives the clause loop exactly when every clause keeps it set |
| PageSelection.FailedClauseClearsFlag | src/lib/components/layout.py:49-50 | one failing clause clears the flag whatever the clauses around it |
| PageSelection.CheckCommaSeparatedNum | src/lib/components/layout.py:18-52 | the clause loop with its mutable flag returns exactly `Selection(value)`, and `([], False)` when the pattern fails |
| PageSelection.RejectedInputs | src/lib/components/layout.py:28-34 | strings the pattern rejects (empty, empty clause, trailing or leading separator) give `([], False)` |
| PageSelection.SignedClause | src/lib/components/layout.py:37-38 | a clause `-5` would contribute -5, as `int` reads the sign |
| PageSelection.ParseClausesNonNegative | src/lib/components/layout.py:35-49 | clauses that start with a digit contribute no negative number |
| PageSelection.SelectionNonNegative | src/lib/components/layout.py:18-52 | every page number a selection yields is at least 0 |
| PageSelection.ClauseValuesNonNegative | src/lib/components/layout.py:37-47 | a clause that does not start with `-` contributes no negative number |
| PageSelection.PlainClauseVerbatim | src/lib/components/layout.py:37-38 | a plain decimal clause, 0 included, contributes exactly its value and stays valid |
| PageSelection.DigitRunClause | src/lib/components/layout.py:37-38 | any non-empty digit run, such as `05`, contributes exactly its decimal value and keeps the flag set |
| PageSelection.ZeroSelection | src/lib/components/layout.py:37-38 | `"0"` gives `([0], True)` |
| PageSelection.PlainSelection | src/lib/components/layout.py:28-38 | a plain number on its own selects exactly itself |
| PageSelection.HyphenClauseParses | src/lib/components/layout.py:37-41 | a clause with a hyphen whose parts are digit runs fails the first `int` and passes the second |
| PageSelection.HyphenClauseRange | src/lib/components/layout.py:40-47 | a hyphen clause whose parts all parse contributes min..max ascending, once each (the single value when they coincide), and stays valid |
| PageSelection.HyphenRun | src/lib/components/layout.py:41-47 | parts that all parse give the ascending run from their smallest to their largest value |
| PageSelection.TwoPartRange | src/lib/components/layout.py:41-47 | `"a-b"` contributes min(a,b)..max(a,b) whatever the operand order |
| PageSelection.TwoRunRange | src/lib/components/layout.py:37-47 | two digit runs as typed, leading zeros included, joined by `-` contribute the ascending run between their values whatever their order |
| PageSelection.TwoRunParses | src/lib/components/layout.py:37-43 | for digit runs a and b as typed, `"a-b"` is not an integer, and its two `-` parts read as their decimal values |
| PageSelection.PairParts | src/lib/components/layout.py:40-47 | two `-` parts reading as a and b contribute `range(min(a, b), max(a, b) + 1)` |
| PageSelection.RangeSelection | src/lib/components/layout.py:28-47 | `"a-b"` on its own passes the pattern and selects the ascending run between its ends |
| PageSelection.ReversedRangeSelection | src/lib/components/layout.py:41-47 | `"10-5"` gives `([5..10], True)` |
| PageSelection.MultiHyphenSelection | src/lib/components/layout.py:41-47 | `"1-5-3"` gives `([1,2,3,4,5], True)`: every part counts |
| PageSelection.BarClauseRejected | src/lib/components/layout.py:37-49 | a clause holding `\|` fails both parses, contributes nothing and clears the flag |
| PageSelection.BarSelection | src/lib/components/layout.py:28-49 | `"1\|2"` passes the pattern and still gives `([], False)` |
| PageSelection.SingleClause | src/lib/components/layout.py:35-36 | a selection without commas is worth its single clause |
| PageSelection.ParseClausesAppend | src/lib/components/layout.py:35-49 | the clauses of two lists processed in turn give the first list's pages then the second's, valid when both are |
| PageSelection.MatchesThenComma | src/lib/components/layout.py:28 | two strings the pattern accepts, joined by a comma, are accepted |
| PageSelection.SelectionConcat | src/lib/components/layout.py:28-49 | joining two selections with a comma concatenates their pages in order, without sorting or removing repeats, valid exactly when both are |
| PageSelection.SelectionThree | src/lib/components/layout.py:35-49 | three selections joined by commas give their pages in order, valid when all three are |
| PageSelection.SelectionJoin | src/lib/components/layout.py:35-49 | comma-joined clauses pass the pattern and select the in-order concatenation of what each clause selects |
| PageSelection.NumberPair | src/lib/components/layout.py:35-38 | `"a,b"` gives `[a, b]` in the written order, even when a > b or a == b |
| PageSelection.FailedClauseKeepsOthers | src/lib/components/layout.py:36-49 | a failing clause between two numbers clears the flag but both numbers are still returned |
| PageSelection.HintExample | src/lib/components/layout.py:18-52 | the field's example `"1,2,5-10,20,30"` gives `([1,2,5,6,7,8,9,10,20,30], True)` |
| Layout.ExtractPageTextField.constructor | src/lib/components/layout.py:194-203 | a new field has no pages and is flagged valid |
| Layout.PathColumn.constructor | src/lib/components/layout.py:232-236 | the path list starts with no entries; its `controls` is the list each entry's `parent_control` points at (src/app.py:112, 115), which `on_delete` and `on_accept` edit in place |
| Layout.ExtractPageTextField.OnCheckExtractNum | src/lib/components/layout.py:205-217 | the field stores the parse of its text and is painted red exactly when the text is invalid, white otherwise; the text is unchanged |
| Layout.SwapKeepsOwner | src/lib/components/layout.py:338-343 | swapping entries keeps every entry belonging to the column |
| Layout.DelButtonText.constructor | src/lib/components/layout.py:293-315 | an entry records its column and the path it shows |
| Layout.DelButtonText.OnDelete | src/lib/components/layout.py:317-326 | the entry removes its first occurrence from its column and nothing else; when it is not there, `remove` raises and the column is unchanged; a column without repeats keeps exactly the other entries |
| Layout.DelButtonText.OnAccept | src/lib/components/layout.py:328-344 | with both items in the column, their positions are exchanged and nothing else moves; otherwise `index` raises and nothing changes; the length and the multiset of entries are kept, and dropping an item on itself changes nothing |
| Jobs.Label | src/lib/components/layout.py:72-79 | the button text `Merge`, `Split` or `Extract` that a job reads as `control_kind` (src/app.py:139, 168); `Header` and `JobLog` state where it appears |
| Jobs.OutputPath | src/app.py:145 | `Path(parent, stem, name)`: an output lands in the folder named after the input's stem, beside the input; `PagePathDecodes` and `MergePathNotPagePath` state its properties |
| Jobs.EffectiveSelection | src/app.py:171 | the pages a job keeps: the checked field for extract, `range(0, len(pages) + 1)` for split (src/app.py:180-181); `SplitWritesEveryPage` and `RangeHoldsOrdinals` state what split then writes |
| Jobs.PagePath | src/app.py:183-188 | a page path is at least as long as the `<parent>/<stem>/<stem>_` prefix, five digits and ".pdf" together |
| Jobs.FirstPagePath | src/app.py:183-188 | page 1 goes to `<parent>/<stem>/<stem>_00001.pdf` |
| Jobs.PagePathDecodes | src/app.py:183-188 | between the `<parent>/<stem>/<stem>_` prefix and ".pdf" stand only digits, five or as many as the ordinal needs, and they read back as the ordinal |
| Jobs.PagePathInjective | src/app.py:183-188 | different pages of one input never share an output path |
| Jobs.MergePath | src/app.py:144-145 | the merge output `<parent>/<stem>/<stem>_Merge.pdf` of the first input; `MergePathNotPagePath` and `App.OnMergeFile` state its use |
| Jobs.MergePathNotPagePath | src/app.py:144-145 | the merge output of an input never has the name of one of its page outputs |
| Jobs.PageWrites | src/app.py:182-197 | the page loop's writes for one document; `PageWritesFollowOrdinals`, `SelectionUsedAsSet` and `SplitWritesEveryPage` state its properties |
| Jobs.Ordinals | src/app.py:189 | the selected ordinals of 1..k are exactly those in the selection, ascending |
| Jobs.PageWritesFollowOrdinals | src/app.py:182-197 | the m-th write is the m-th selected ordinal's page, alone, under its own path: ascending, each page at most once, and 0 or values past the last page write nothing |
| Jobs.SelectionUsedAsSet | src/app.py:189 | only membership in the selection matters, not order or repeats |
| Jobs.FullSelectionWritesEveryPage | src/app.py:182-195 | a selection naming every ordinal writes every page once, in order |
| Jobs.FlattenSingles | src/app.py:191-194 | single-page files in page order put back together give the pages |
| Jobs.RangeHoldsOrdinals | src/app.py:181 | `range(0, n + 1)` names every ordinal 1..n |
| Jobs.SplitWritesEveryPage | src/app.py:180-195 | split writes every page of a document exactly once, page o to the path of ordinal o, and the files together give the document back |
| Jobs.ExtractTwoAndFour | src/app.py:182-195 | extracting `[2, 4]` from a five-page document writes pages 2 and 4, in that order |
| Jobs.RunFiles | src/app.py:178-198 | the file loop's trace of writes and the input it stopped at; `RunFilesCompletes`, `RunFilesFirstFailure`, `RunFilesStopsAtFailure` and `RunFilesAppend` state its properties |
| Jobs.NextFile | src/app.py:178-198 | one more input of the file loop: a stopped run stays stopped, an unreadable input stops it, a readable one adds its page writes; `RunFilesAppend` and `RunFilesStopsAtFailure` state what it adds |
| Jobs.RunFilesCompletes | src/app.py:178-198 | a run goes through every input exactly when every input can be opened |
| Jobs.RunFilesFirstFailure | src/app.py:178-179 | a run that stops stops at the first input that cannot be opened |
| Jobs.RunFilesStopsAtFailure | src/app.py:178-179 | once the run has stopped, later inputs change nothing |
| Jobs.RunFilesAppend | src/app.py:178-198 | with every earlier input readable, the writes of a run are the inputs' writes in input order |
| Jobs.Header | src/app.py:175 | the first log line `<kind> progressing...`; `JobLog` states its place |
| Jobs.ProgressLine | src/app.py:196 | the log line `+ <path>` of one write; `Progress` and `JobLog` state its place |
| Jobs.Progress | src/app.py:196-197 | one `+ <path>` line per written file, in the order of the writes |
| Jobs.ProgressAppend | src/app.py:196-197 | the progress lines of two write sequences are concatenated in order |
| Jobs.JobLog | src/app.py:175-201 | a job's log is the header, one progress line per write, and "Done!" last exactly when every input was read |
| Jobs.MergedPages | src/app.py:147-150 | the pages the merge writer collects; `MergedPagesDefined`, `MergedPagesCount`, `MergeTwo` and `MergedPagesAppend` state its properties |
| Jobs.MergedPagesDefined | src/app.py:148-149 | the merge succeeds exactly when every input can be opened |
| Jobs.MergedPagesCount | src/app.py:147-150 | the merged document has as many pages as the inputs together |
| Jobs.MergeTwo | src/app.py:148-149 | two inputs merge into the first one's pages followed by the second one's |
| Jobs.MergedPagesAppend | src/app.py:148-149 | merging a concatenation of inputs concatenates their merges: inputs keep their order |
| PdfApp.PickedPath | src/app.py:105-108 | the path shown for one picked file; `PickedPaths` states it per file |
| PdfApp.PickedPaths | src/app.py:103-108 | one path per picked file, in order: its path when it has one, its name otherwise |
| PdfApp.Values | src/app.py:89-90 | the paths shown by the entries, in column order |
| PdfApp.ValuesConcat | src/app.py:89-90 | the paths of two entry lists are concatenated in order |
| PdfApp.App.constructor | src/app.py:36-60 | a new app has an empty path column, an empty log and nothing written |
| PdfApp.App.GetFpaths | src/app.py:77-92 | the paths are those of the column entries, in column order |
| PdfApp.App.DispLog | src/app.py:62-75 | CLEAR replaces the log with the messages; NOT_CLEAR appends them and keeps the earlier lines |
| PdfApp.App.OnDispFpath | src/app.py:94-116 | the column keeps its entries and gains one new entry per picked file, in picking order, each owned by the column; a column without repeats stays so |
| PdfApp.App.AddEntries | src/app.py:109-115 | one new entry per path is appended in order, after the existing entries |
| PdfApp.App.AddEntry | src/app.py:110-115 | one new entry owned by the column and showing the path is appended |
| PdfApp.App.OnDeleteFile | src/app.py:203-213 | the column is emptied |
| PdfApp.App.OnMergeFile | src/app.py:127-154 | no paths: nothing logged or written; otherwise the log is the header, the pages of the inputs in list order are written once to the path named after the first input, then "Done!"; an input that cannot be opened stops the job after the header, at the first such input, before any write |
| PdfApp.App.OnSplitOrExtractFile | src/app.py:156-201 | no paths: nothing changes; extract re-checks the field and returns before touching the log when it is invalid; otherwise the writes are the run's writes and the log is the job log; split leaves the field alone |
| PdfApp.App.RunJob | src/app.py:178-201 | the file loop adds the run's writes and progress lines, then "Done!" only when every input was read |
| PdfApp.App.WritePages | src/app.py:182-197 | the page loop adds exactly the document's page writes and one progress line per write |
| PdfApp.App.RecordWrite | src/app.py:190-197 | one written file and its progress line are appended |

## Left out

- Text.ParseInt: reads digit runs of any length. Python 3.11 and later by default make `int()` raise `ValueError` on a string of more than 4300 digits, an interpreter setting (`sys.set_int_max_str_digits`). There, such a clause gives `([], False)` where the model accepts it.
- PageSelection.HyphenValue: builds the run between the ends whatever its length. In Python a run too large for memory makes `list(range(...))` raise `MemoryError`, which `check_comma_separated_num` does not catch; the model has no memory bound.
- Flet itself is not modelled: widget construction, styling, labels and icons, `update()` repaints and the `page.get_control` lookup of drag-and-drop events. The handlers receive the dropped and dragged entries directly.
- The button dispatch `on_click_assign` is not modelled. Each handler is called directly. Its job kind is an `Action` whose label is the button text.
- `on_select_file` only opens the file-picker dialog. The dialog's result is the `files` parameter of `OnDispFpath`.
- Reading and writing PDF files through pypdf is not modelled. A document is a sequence of abstract pages. A write is a `Written` record holding the output path and the pages written.
- Closing readers and writers is not modelled.
- Creating output directories (`mkdir`) is not modelled. The filesystem is the `docs` map; a file that cannot be opened is a path missing from it.
- Failures other than an unreadable input are not modelled, for example a failing write or `mkdir`.
- pathlib is not modelled. The parent directory and stem of a path come from the `pathParts` parameter. Output paths are joined with '/', without pathlib's normalisation of empty or "." parents.
- Logging, the debug `print`, argument and YAML parameter handling, and `main` are configuration and I/O plumbing, and are left out.
- PageSelection.CheckCommaSeparatedNum: requires ASCII input that does not end in a newline (`AsciiInput`). Python's `\d` also matches non-ASCII digits, and `$` also matches before a final newline. On other inputs the model is not claimed to agree with `re`.
- Layout.ExtractPageTextField.OnCheckExtractNum: requires `AsciiInput` of the field's text, for the same reason.
- PdfApp.App.OnSplitOrExtractFile: requires `AsciiInput` of the field's text when extracting, for the same reason.
- Layout.DelButtonText.OnAccept: reorders a copy of the column's list and assigns it once, instead of editing the list in place step by step. The final state is the same, because nothing else observes the list between the steps.
- Layout.DelButtonText.OnDelete: when the entry is missing, `list.remove` raises. The model reports that with `ok == false` and leaves the column unchanged, rather than propagating an exception.
