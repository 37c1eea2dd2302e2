/**
 * The application object: the file-path column, the extract-selection
 * field, the log panel and the files the jobs have written. Its handlers
 * are the button and file-picker callbacks; each is proved against the
 * job functions of `Jobs`.
 */
module PdfApp {
  import opened Wrappers
  import opened PageSelection
  import opened Layout
  import opened Jobs
  import opened Lists

  /** Whether `disp_log` empties the log panel first. */
  datatype LogType = Clear | NotClear

  /** One file chosen in the file picker; `path` is absent where the platform gives none. */
  datatype PickedFile = PickedFile(path: Option<string>, name: string)

  /** How a job handler ended: returned early, went through every input, or stopped at an unreadable one. */
  datatype Outcome = Rejected | Completed | Failed(path: string)

  /** The path shown for a picked file: its path when it has a non-empty one, its name otherwise. */
  function PickedPath(file: PickedFile): string {
    if file.path.Some? && file.path.value != "" then file.path.value else file.name
  }

  function PickedPaths(files: seq<PickedFile>): (paths: seq<string>)
    ensures |paths| == |files|
    ensures forall k | 0 <= k < |files| :: paths[k] == PickedPath(files[k])
  {
    if |files| == 0 then [] else PickedPaths(files[..|files| - 1]) + [PickedPath(files[|files| - 1])]
  }

  /** The paths the column entries show, in column order. */
  function Values(controls: seq<DelButtonText>): (paths: seq<string>)
    ensures |paths| == |controls|
    ensures forall k | 0 <= k < |controls| :: paths[k] == controls[k].value
  {
    if |controls| == 0 then [] else Values(controls[..|controls| - 1]) + [controls[|controls| - 1].value]
  }

  lemma ValuesAppend(controls: seq<DelButtonText>, entry: DelButtonText)
    ensures Values(controls + [entry]) == Values(controls) + [entry.value]
  {
    assert (controls + [entry])[..|controls|] == controls;
  }

  lemma {:induction false} ValuesConcat(a: seq<DelButtonText>, b: seq<DelButtonText>)
    ensures Values(a + b) == Values(a) + Values(b)
  {
    var l, r := Values(a + b), Values(a) + Values(b);
    assert forall k | 0 <= k < |l| :: l[k] == r[k];
  }

  class App {
    const column: PathColumn
    const field: ExtractPageTextField
    /** The lines of the log panel. */
    var log: seq<string>
    /** Every file the jobs have written so far, in the order they were written. */
    var written: seq<Written>

    constructor ()
      ensures fresh(column) && fresh(field)
      ensures column.controls == [] && column.Valid()
      ensures field.value == "" && field.numPages == [] && field.valid
      ensures log == [] && written == []
    {
      column := new PathColumn();
      field := new ExtractPageTextField();
      log := [];
      written := [];
    }

    /** `get_fpaths`: the paths of the column entries, in column order. */
    function GetFpaths(): (fpaths: seq<string>)
      reads column
      ensures |fpaths| == |column.controls|
      ensures forall k | 0 <= k < |fpaths| :: fpaths[k] == column.controls[k].value
    {
      Values(column.controls)
    }

    /** `disp_log`: clear the log when asked, then append the messages in order. */
    method DispLog(msgs: seq<string>, logType: LogType)
      modifies this`log
      ensures log == (if logType == Clear then [] else old(log)) + msgs
    {
      if logType == Clear {
        log := [];
      }
      for k := 0 to |msgs|
        invariant log == (if logType == Clear then [] else old(log)) + msgs[..k]
      {
        assert msgs[..k + 1] == msgs[..k] + [msgs[k]];
        log := log + [msgs[k]];
      }
      assert msgs[..|msgs|] == msgs;
    }

    /**
     * `on_disp_fpath`: one new entry per picked file, in picking order, after
     * the entries already there.
     */
    method OnDispFpath(files: seq<PickedFile>)
      modifies column
      ensures GetFpaths() == old(GetFpaths()) + PickedPaths(files)
      ensures column.controls[..|old(column.controls)|] == old(column.controls)
      ensures forall k | |old(column.controls)| <= k < |column.controls| ::
        fresh(column.controls[k]) && column.controls[k].parentControl == column
      ensures old(column.Valid()) ==> column.Valid()
    {
      if |files| == 0 {
        return;
      }
      var fpaths := [];
      for k := 0 to |files|
        invariant fpaths == PickedPaths(files[..k])
      {
        assert files[..k + 1][..k] == files[..k];
        fpaths := fpaths + [PickedPath(files[k])];
      }
      assert files[..|files|] == files;
      AddEntries(fpaths);
    }

    /** The second loop of `on_disp_fpath`: one new entry per path, appended in order. */
    method AddEntries(fpaths: seq<string>)
      modifies column
      ensures Values(column.controls) == Values(old(column.controls)) + fpaths
      ensures column.controls[..|old(column.controls)|] == old(column.controls)
      ensures forall k | |old(column.controls)| <= k < |column.controls| ::
        fresh(column.controls[k]) && column.controls[k].parentControl == column
      ensures old(column.Valid()) ==> column.Valid()
    {
      ghost var before := column.controls;
      ghost var added: seq<DelButtonText> := [];
      for k := 0 to |fpaths|
        invariant column.controls == before + added
        invariant Values(added) == fpaths[..k]
        invariant forall m | 0 <= m < |added| :: fresh(added[m]) && added[m].parentControl == column
        invariant column.Valid() <== old(column.Valid())
      {
        var entry := AddEntry(fpaths[k]);
        ValuesAppend(added, entry);
        added := added + [entry];
        assert fpaths[..k + 1] == fpaths[..k] + [fpaths[k]];
      }
      assert fpaths[..|fpaths|] == fpaths;
      ValuesConcat(before, added);
      forall m | |before| <= m < |column.controls|
        ensures fresh(column.controls[m]) && column.controls[m].parentControl == column
      {
        assert column.controls[m] == added[m - |before|];
      }
      assert column.controls[..|before|] == before;
    }

    /** One `DelButtonText` showing `value`, created for the column and appended to it. */
    method AddEntry(value: string) returns (entry: DelButtonText)
      modifies column
      ensures fresh(entry) && entry.parentControl == column && entry.value == value
      ensures column.controls == old(column.controls) + [entry]
      ensures old(column.Valid()) ==> column.Valid()
    {
      entry := new DelButtonText(column, value);
      if column.Valid() {
        DistinctAppend(column.controls, entry);
      }
      column.controls := column.controls + [entry];
    }

    /** `on_delete_file`: the column is emptied. */
    method OnDeleteFile()
      modifies column
      ensures column.controls == []
    {
      if |column.controls| > 0 {
        column.controls := [];
      }
    }

    /**
     * `on_merge_file`: with no paths, nothing happens. Otherwise the log is
     * cleared to the header, the inputs' pages are appended in list order, and
     * one file named after the first input is written before "Done!". An input
     * that cannot be opened stops the job after the header, before any write.
     */
    method OnMergeFile(docs: map<string, seq<Page>>, pathParts: string -> PathParts) returns (outcome: Outcome)
      modifies this
      ensures var fpaths := GetFpaths();
        && (|fpaths| == 0 ==> outcome == Rejected && log == old(log) && written == old(written))
        && (|fpaths| > 0 && MergedPages(fpaths, docs).Some? ==>
              && outcome == Completed
              && log == [Header(Merge), "Done!"]
              && written == old(written) + [Written(MergePath(pathParts(fpaths[0])), MergedPages(fpaths, docs).value)])
        && (|fpaths| > 0 && MergedPages(fpaths, docs).None? ==>
              && outcome.Failed?
              && log == [Header(Merge)]
              && written == old(written)
              && exists k | 0 <= k < |fpaths| ::
                   fpaths[k] == outcome.path && fpaths[k] !in docs && forall j | 0 <= j < k :: fpaths[j] in docs)
    {
      var fpaths := GetFpaths();
      if |fpaths| == 0 {
        return Rejected;
      }
      DispLog([Header(Merge)], Clear);
      var wfpath := MergePath(pathParts(fpaths[0]));
      var pages: seq<Page> := [];
      for k := 0 to |fpaths|
        modifies {}
        invariant MergedPages(fpaths[..k], docs) == Some(pages)
        invariant forall j | 0 <= j < k :: fpaths[j] in docs
      {
        assert fpaths[..k + 1][..k] == fpaths[..k];
        if fpaths[k] !in docs {
          MergedPagesDefined(fpaths, docs);
          return Failed(fpaths[k]);
        }
        pages := pages + docs[fpaths[k]];
      }
      assert fpaths[..|fpaths|] == fpaths;
      written := written + [Written(wfpath, pages)];
      DispLog(["Done!"], NotClear);
      outcome := Completed;
    }

    /**
     * `on_split_or_extract_file`: with no paths, nothing happens. Extract
     * first re-checks the field and returns, before touching the log, when it
     * is invalid. Then the log is cleared to the header, every page the
     * selection names is written to its own file with one progress line each,
     * input by input, and "Done!" ends the log. Split selects every page.
     */
    method OnSplitOrExtractFile(action: Action, docs: map<string, seq<Page>>, pathParts: string -> PathParts)
      returns (outcome: Outcome)
      requires action != Merge
      requires action == Extract ==> AsciiInput(field.value)
      modifies this, field
      ensures var fpaths := GetFpaths();
        && (|fpaths| == 0 ==> outcome == Rejected && unchanged(this, field))
        && (|fpaths| > 0 && action == Extract ==>
              && field.value == old(field.value)
              && Parsed(field.numPages, field.valid) == Selection(field.value)
              && field.bgcolor == (if field.valid then White else Red))
        && (action == Split ==> unchanged(field))
        && (|fpaths| > 0 && action == Extract && !field.valid ==>
              outcome == Rejected && log == old(log) && written == old(written))
        && (|fpaths| > 0 && (action == Split || field.valid) ==>
              var t := RunFiles(action, fpaths, docs, pathParts, field.numPages);
              && written == old(written) + t.writes
              && log == JobLog(action, t)
              && outcome == (if t.failed.None? then Completed else Failed(t.failed.value)))
    {
      var fpaths := GetFpaths();
      if |fpaths| == 0 {
        return Rejected;
      }
      if action == Extract {
        field.OnCheckExtractNum();
        if !field.valid {
          return Rejected;
        }
      }
      DispLog([Header(action)], Clear);
      assert log == [Header(action)];
      ghost var t := RunFiles(action, fpaths, docs, pathParts, field.numPages);
      outcome := RunJob(action, fpaths, docs, pathParts, field.numPages);
      JobLogParts(action, t);
      assert log == JobLog(action, t);
    }

    /**
     * The file loop of `on_split_or_extract_file`: the inputs in order, each
     * page loop adding its writes and progress lines, and "Done!" once every
     * input has been read. An input the PDF library cannot open ends the job
     * there.
     */
    method RunJob(action: Action, fpaths: seq<string>, docs: map<string, seq<Page>>,
                  pathParts: string -> PathParts, numPages: seq<int>) returns (outcome: Outcome)
      modifies this`written, this`log
      ensures var t := RunFiles(action, fpaths, docs, pathParts, numPages);
        && written == old(written) + t.writes
        && log == old(log) + Progress(t.writes) + (if t.failed.None? then ["Done!"] else [])
        && outcome == (if t.failed.None? then Completed else Failed(t.failed.value))
    {
      for k := 0 to |fpaths|
        invariant RunFiles(action, fpaths[..k], docs, pathParts, numPages).failed.None?
        invariant written == old(written) + RunFiles(action, fpaths[..k], docs, pathParts, numPages).writes
        invariant log == old(log) + Progress(RunFiles(action, fpaths[..k], docs, pathParts, numPages).writes)
      {
        var fpath := fpaths[k];
        ghost var done := RunFiles(action, fpaths[..k], docs, pathParts, numPages).writes;
        if fpath !in docs {
          assert fpaths[..k + 1][..k] == fpaths[..k];
          RunFilesStopsAtFailure(action, fpaths, k + 1, docs, pathParts, numPages);
          assert log == old(log) + Progress(done) + [];
          return Failed(fpath);
        }
        var pages := docs[fpath];
        var selection := numPages;
        if action == Split {
          selection := Range(0, |pages| + 1);
        }
        assert selection == EffectiveSelection(action, numPages, |pages|);
        ghost var added := PageWrites(pathParts(fpath), pages, selection, |pages|);
        ghost var next := RunFiles(action, fpaths[..k + 1], docs, pathParts, numPages);
        RunFilesStep(action, fpaths, k, docs, pathParts, numPages);
        assert next == Trace(done + added, None);
        WritePages(pathParts(fpath), pages, selection);
        assert written == (old(written) + done) + added;
        ConcatAssociative(old(written), done, added);
        assert written == old(written) + next.writes;
        assert log == (old(log) + Progress(done)) + Progress(added);
        ProgressAppend(done, added);
        ConcatAssociative(old(log), Progress(done), Progress(added));
        assert log == old(log) + Progress(next.writes);
      }
      assert fpaths[..|fpaths|] == fpaths;
      DispLog(["Done!"], NotClear);
      outcome := Completed;
    }

    /**
     * The page loop of `on_split_or_extract_file` for one input: page i is
     * written to the path of ordinal i + 1 when that ordinal is selected, and
     * each write adds its progress line to the log.
     */
    method WritePages(parts: PathParts, pages: seq<Page>, selection: seq<int>)
      modifies this`written, this`log
      ensures written == old(written) + PageWrites(parts, pages, selection, |pages|)
      ensures log == old(log) + Progress(PageWrites(parts, pages, selection, |pages|))
    {
      ghost var written0, log0 := written, log;
      for i := 0 to |pages|
        invariant written == written0 + PageWrites(parts, pages, selection, i)
        invariant log == log0 + Progress(PageWrites(parts, pages, selection, i))
      {
        var wfpath := PagePath(parts, i + 1);
        ghost var sofar := PageWrites(parts, pages, selection, i);
        PageWritesNext(parts, pages, selection, i);
        if i + 1 in selection {
          var w := Written(wfpath, [pages[i]]);
          RecordWrite(w);
          ProgressAppend(sofar, [w]);
          ConcatAssociative(written0, sofar, [w]);
          ConcatAssociative(log0, Progress(sofar), [ProgressLine(w)]);
        }
      }
    }

    /** One page file written: it joins the written files and its progress line joins the log. */
    method RecordWrite(w: Written)
      modifies this`written, this`log
      ensures written == old(written) + [w]
      ensures log == old(log) + [ProgressLine(w)]
    {
      written := written + [w];
      DispLog([ProgressLine(w)], NotClear);
    }
  }
}
