/**
 * What the merge, split and extract jobs of the app produce, as pure
 * functions: output names, which pages of a document are written and in
 * which order, the progress lines of the log, and the pages of a merge.
 * A document is the sequence of its pages; a path the PDF library cannot
 * open is one missing from the `docs` map.
 */
module Jobs {
  import opened Wrappers
  import opened Text
  import opened PageSelection

  /** The three job buttons; the label is the button text, used in names and messages. */
  datatype Action = Merge | Split | Extract

  function Label(action: Action): string {
    match action
    case Merge => "Merge"
    case Split => "Split"
    case Extract => "Extract"
  }

  /** An abstract page of a document. */
  datatype Page = Page(content: nat)

  /** One output file: its path and the pages written to it. */
  datatype Written = Written(path: string, pages: seq<Page>)

  /** The two parts of an input path the output names are built from. */
  datatype PathParts = PathParts(parent: string, stem: string)

  /** `Path(parent, stem, name)`: outputs go to a directory named after the input's stem, beside it. */
  function OutputPath(parts: PathParts, name: string): string {
    parts.parent + "/" + parts.stem + "/" + name
  }

  /** What every page output path of an input starts with. */
  function PagePrefix(parts: PathParts): string {
    OutputPath(parts, parts.stem + "_")
  }

  /** `<parent>/<stem>/<stem>_<ordinal:05>.pdf`. */
  function PagePath(parts: PathParts, ordinal: nat): (path: string)
    ensures |path| >= |PagePrefix(parts)| + 5 + 4
  {
    ZeroPaddedRoundTrip(ordinal, 5);
    PagePrefix(parts) + ZeroPadded(ordinal, 5) + ".pdf"
  }

  /** `<parent>/<stem>/<stem>_Merge.pdf`, named after the first input. */
  function MergePath(parts: PathParts): string {
    OutputPath(parts, parts.stem + "_" + Label(Merge) + ".pdf")
  }

  /**
   * The ordinal can be read back from a page path: between the prefix and
   * ".pdf" stand only digits, five of them or as many as the ordinal needs,
   * and they read as the ordinal, so the path depends on the ordinal alone.
   */
  lemma PagePathDecodes(parts: PathParts, ordinal: nat)
    ensures var path, pre := PagePath(parts, ordinal), PagePrefix(parts);
      && path[..|pre|] == pre
      && path[|path| - 4..] == ".pdf"
      && AllDigits(path[|pre|..|path| - 4])
      && |path| == |pre| + (if |DecimalString(ordinal)| < 5 then 5 else |DecimalString(ordinal)|) + 4
      && ParseInt(path[|pre|..|path| - 4]) == Some(ordinal)
  {
    var path, pre, mid := PagePath(parts, ordinal), PagePrefix(parts), ZeroPadded(ordinal, 5);
    ZeroPaddedRoundTrip(ordinal, 5);
    assert path == pre + mid + ".pdf";
    assert path[|pre|..|path| - 4] == mid;
  }

  /** The first page of an input goes to `<parent>/<stem>/<stem>_00001.pdf`. */
  lemma FirstPagePath(parts: PathParts)
    ensures PagePath(parts, 1) == PagePrefix(parts) + "00001.pdf"
  {
    ZeroPaddedOne();
    assert "00001" + ".pdf" == "00001.pdf";
  }

  /** Different pages of one input never share an output path. */
  lemma PagePathInjective(parts: PathParts, a: nat, b: nat)
    requires PagePath(parts, a) == PagePath(parts, b)
    ensures a == b
  {
    PagePathDecodes(parts, a);
    PagePathDecodes(parts, b);
  }

  /**
   * The merge output of an input never has the name of one of its page
   * outputs: after the shared prefix, a page name has a digit where the
   * merge name has the 'M' of "Merge".
   */
  lemma MergePathNotPagePath(parts: PathParts, ordinal: nat)
    ensures MergePath(parts) != PagePath(parts, ordinal)
  {
    var pre := PagePrefix(parts);
    var mid := ZeroPadded(ordinal, 5);
    ZeroPaddedRoundTrip(ordinal, 5);
    assert MergePath(parts) == pre + "Merge.pdf";
    assert PagePath(parts, ordinal) == pre + mid + ".pdf";
    assert MergePath(parts)[|pre|] == 'M';
    assert PagePath(parts, ordinal)[|pre|] == mid[0];
    assert IsDigit(mid[0]);
  }

  // ---------------------------------------------------------------------
  // Split and extract, one document
  // ---------------------------------------------------------------------

  /** The selection a job uses for a document of n pages: split takes `range(0, n + 1)`. */
  function EffectiveSelection(action: Action, selection: seq<int>, n: nat): seq<int> {
    if action == Split then Range(0, n + 1) else selection
  }

  /**
   * The writes for pages 1..k of a document, in ascending page order: page
   * ordinal o goes to its own file exactly when o is in the selection.
   */
  function PageWrites(parts: PathParts, pages: seq<Page>, selection: seq<int>, k: nat): seq<Written>
    requires k <= |pages|
  {
    if k == 0 then []
    else
      PageWrites(parts, pages, selection, k - 1)
      + (if k in selection then [Written(PagePath(parts, k), [pages[k - 1]])] else [])
  }

  /** One page further: the next page's write, when it is selected, goes last. */
  lemma PageWritesNext(parts: PathParts, pages: seq<Page>, selection: seq<int>, i: nat)
    requires i < |pages|
    ensures PageWrites(parts, pages, selection, i + 1)
         == PageWrites(parts, pages, selection, i)
            + (if i + 1 in selection then [Written(PagePath(parts, i + 1), [pages[i]])] else [])
  {
  }

  /** The page ordinals among 1..k that the selection names, ascending and each once. */
  function Ordinals(selection: seq<int>, k: nat): (os: seq<nat>)
    ensures forall o :: o in os <==> 1 <= o <= k && o in selection
    ensures forall a, b | 0 <= a < b < |os| :: os[a] < os[b]
  {
    if k == 0 then []
    else
      var before := Ordinals(selection, k - 1);
      assert forall a | 0 <= a < |before| :: before[a] in before;
      before + (if k in selection then [k] else [])
  }

  /**
   * The writes of a document follow the selected ordinals: the m-th write is
   * the m-th selected page, alone, under its own page path. So pages are
   * written in ascending order, each at most once however often the
   * selection names it, and 0 or values past the last page write nothing.
   */
  lemma {:induction false} PageWritesFollowOrdinals(parts: PathParts, pages: seq<Page>, selection: seq<int>, k: nat)
    requires k <= |pages|
    ensures var ws, os := PageWrites(parts, pages, selection, k), Ordinals(selection, k);
      && |ws| == |os|
      && forall m | 0 <= m < |os| :: 1 <= os[m] <= k && ws[m] == Written(PagePath(parts, os[m]), [pages[os[m] - 1]])
  {
    if k > 0 {
      PageWritesFollowOrdinals(parts, pages, selection, k - 1);
      var os := Ordinals(selection, k);
      forall m | 0 <= m < |os| ensures 1 <= os[m] <= k {
        assert os[m] in os;
      }
    }
  }

  /** Only which values the selection holds matters, not their order or repeats. */
  lemma {:induction false} SelectionUsedAsSet(parts: PathParts, pages: seq<Page>, s1: seq<int>, s2: seq<int>, k: nat)
    requires k <= |pages|
    requires forall v :: v in s1 <==> v in s2
    ensures PageWrites(parts, pages, s1, k) == PageWrites(parts, pages, s2, k)
  {
    if k > 0 {
      SelectionUsedAsSet(parts, pages, s1, s2, k - 1);
    }
  }

  /** The pages of the output files, in the order the files were written. */
  function Flatten(ws: seq<Written>): (pages: seq<Page>) {
    if |ws| == 0 then [] else Flatten(ws[..|ws| - 1]) + ws[|ws| - 1].pages
  }

  /** A selection that names every ordinal 1..k writes each of those pages once, alone, in order. */
  lemma {:induction false} FullSelectionWritesEveryPage(parts: PathParts, pages: seq<Page>, selection: seq<int>, k: nat)
    requires k <= |pages|
    requires forall o | 1 <= o <= k :: o in selection
    ensures var ws := PageWrites(parts, pages, selection, k);
      && |ws| == k
      && forall m | 0 <= m < k :: ws[m] == Written(PagePath(parts, m + 1), [pages[m]])
  {
    if k > 0 {
      FullSelectionWritesEveryPage(parts, pages, selection, k - 1);
      var before := PageWrites(parts, pages, selection, k - 1);
      assert k in selection;
      assert PageWrites(parts, pages, selection, k) == before + [Written(PagePath(parts, k), [pages[k - 1]])];
    }
  }

  /** Files holding one page each, page m in file m, put back together give the pages in order. */
  lemma {:induction false} FlattenSingles(ws: seq<Written>, pages: seq<Page>)
    requires |ws| <= |pages|
    requires forall m | 0 <= m < |ws| :: ws[m].pages == [pages[m]]
    ensures Flatten(ws) == pages[..|ws|]
  {
    if |ws| > 0 {
      var n := |ws| - 1;
      FlattenSingles(ws[..n], pages);
      assert pages[..n + 1] == pages[..n] + [pages[n]];
    }
  }

  lemma RangeHoldsOrdinals(r: seq<int>, n: nat)
    requires r == Range(0, n + 1)
    ensures forall o | 1 <= o <= n :: o in r
  {
    forall o | 1 <= o <= n ensures o in r {
      assert r[o] == o;
    }
  }

  /**
   * Split writes every page of a document once, page o to the path of
   * ordinal o, and putting the written files back together in order gives
   * the document again.
   */
  lemma SplitWritesEveryPage(parts: PathParts, pages: seq<Page>)
    ensures var ws := PageWrites(parts, pages, EffectiveSelection(Split, [], |pages|), |pages|);
      && |ws| == |pages|
      && (forall m | 0 <= m < |pages| :: ws[m] == Written(PagePath(parts, m + 1), [pages[m]]))
      && Flatten(ws) == pages
  {
    var sel := EffectiveSelection(Split, [], |pages|);
    RangeHoldsOrdinals(sel, |pages|);
    FullSelectionWritesEveryPage(parts, pages, sel, |pages|);
    var ws := PageWrites(parts, pages, sel, |pages|);
    FlattenSingles(ws, pages);
    assert pages[..|pages|] == pages;
  }

  /** Extracting "2,4" from a five-page document writes exactly pages 2 and 4, in that order. */
  lemma ExtractTwoAndFour(parts: PathParts, pages: seq<Page>)
    requires |pages| == 5
    ensures PageWrites(parts, pages, [2, 4], 5)
         == [Written(PagePath(parts, 2), [pages[1]]), Written(PagePath(parts, 4), [pages[3]])]
  {
    var sel: seq<int> := [2, 4];
    assert 1 !in sel && 2 in sel && 3 !in sel && 4 in sel && 5 !in sel;
    assert PageWrites(parts, pages, sel, 1) == [];
    assert PageWrites(parts, pages, sel, 2) == [Written(PagePath(parts, 2), [pages[1]])];
    assert PageWrites(parts, pages, sel, 3) == [Written(PagePath(parts, 2), [pages[1]])];
  }

  // ---------------------------------------------------------------------
  // Split and extract, all documents
  // ---------------------------------------------------------------------

  /** What a job run leaves behind: the files written, and the path it stopped at, if any. */
  datatype Trace = Trace(writes: seq<Written>, failed: Option<string>)

  /**
   * A split or extract run over the inputs in order. A path the PDF library
   * cannot open ends the run there, after the writes of the inputs before it.
   */
  function RunFiles(action: Action, fpaths: seq<string>, docs: map<string, seq<Page>>,
                    pathParts: string -> PathParts, selection: seq<int>): Trace
  {
    if |fpaths| == 0 then Trace([], None)
    else NextFile(action, RunFiles(action, fpaths[..|fpaths| - 1], docs, pathParts, selection),
                  fpaths[|fpaths| - 1], docs, pathParts, selection)
  }

  /** One more input after a run: skipped once the run has stopped, else opened and its selected pages written. */
  function NextFile(action: Action, before: Trace, f: string, docs: map<string, seq<Page>>,
                    pathParts: string -> PathParts, selection: seq<int>): Trace
  {
    if before.failed.Some? then before
    else if f !in docs then Trace(before.writes, Some(f))
    else
      var pages := docs[f];
      Trace(before.writes + PageWrites(pathParts(f), pages, EffectiveSelection(action, selection, |pages|), |pages|), None)
  }

  lemma RunFilesLast(action: Action, fpaths: seq<string>, docs: map<string, seq<Page>>,
                     pathParts: string -> PathParts, selection: seq<int>)
    requires |fpaths| > 0
    ensures RunFiles(action, fpaths, docs, pathParts, selection)
         == NextFile(action, RunFiles(action, fpaths[..|fpaths| - 1], docs, pathParts, selection),
                     fpaths[|fpaths| - 1], docs, pathParts, selection)
  {
  }

  /** Files written before a run do not change what one more input adds. */
  lemma NextFileAfter(action: Action, done: seq<Written>, before: Trace, f: string, docs: map<string, seq<Page>>,
                      pathParts: string -> PathParts, selection: seq<int>)
    ensures var next := NextFile(action, before, f, docs, pathParts, selection);
      NextFile(action, Trace(done + before.writes, before.failed), f, docs, pathParts, selection)
      == Trace(done + next.writes, next.failed)
  {
    if before.failed.None? && f in docs {
      var pages := docs[f];
      var added := PageWrites(pathParts(f), pages, EffectiveSelection(action, selection, |pages|), |pages|);
      assert (done + before.writes) + added == done + (before.writes + added);
    }
  }

  /** The run goes through every input exactly when every input can be opened. */
  lemma {:induction false} RunFilesCompletes(action: Action, fpaths: seq<string>, docs: map<string, seq<Page>>,
                                             pathParts: string -> PathParts, selection: seq<int>)
    ensures RunFiles(action, fpaths, docs, pathParts, selection).failed.None?
        <==> forall k | 0 <= k < |fpaths| :: fpaths[k] in docs
  {
    if |fpaths| > 0 {
      var n := |fpaths| - 1;
      var init := fpaths[..n];
      RunFilesCompletes(action, init, docs, pathParts, selection);
      assert forall j | 0 <= j < n :: fpaths[j] == init[j];
    }
  }

  /** When the run stops, it stops at the first input that cannot be opened. */
  lemma {:induction false} RunFilesFirstFailure(action: Action, fpaths: seq<string>, docs: map<string, seq<Page>>,
                                                pathParts: string -> PathParts, selection: seq<int>)
    requires RunFiles(action, fpaths, docs, pathParts, selection).failed.Some?
    ensures var f := RunFiles(action, fpaths, docs, pathParts, selection).failed.value;
      exists k | 0 <= k < |fpaths| :: fpaths[k] == f && f !in docs && forall j | 0 <= j < k :: fpaths[j] in docs
  {
    var n := |fpaths| - 1;
    var init := fpaths[..n];
    assert forall j | 0 <= j < n :: fpaths[j] == init[j];
    if RunFiles(action, init, docs, pathParts, selection).failed.Some? {
      RunFilesFirstFailure(action, init, docs, pathParts, selection);
    } else {
      RunFilesCompletes(action, init, docs, pathParts, selection);
    }
  }

  /** One more readable input adds its page writes after those of the inputs before it. */
  lemma RunFilesStep(action: Action, fpaths: seq<string>, k: nat, docs: map<string, seq<Page>>,
                     pathParts: string -> PathParts, selection: seq<int>)
    requires k < |fpaths| && fpaths[k] in docs
    requires RunFiles(action, fpaths[..k], docs, pathParts, selection).failed.None?
    ensures var f := fpaths[k];
      RunFiles(action, fpaths[..k + 1], docs, pathParts, selection)
      == Trace(RunFiles(action, fpaths[..k], docs, pathParts, selection).writes
               + PageWrites(pathParts(f), docs[f], EffectiveSelection(action, selection, |docs[f]|), |docs[f]|), None)
  {
    assert fpaths[..k + 1][..k] == fpaths[..k];
  }

  /** Once the run has stopped at an input, later inputs change nothing. */
  lemma {:induction false} RunFilesStopsAtFailure(action: Action, fpaths: seq<string>, k: nat, docs: map<string, seq<Page>>,
                                                  pathParts: string -> PathParts, selection: seq<int>)
    requires k <= |fpaths|
    requires RunFiles(action, fpaths[..k], docs, pathParts, selection).failed.Some?
    ensures RunFiles(action, fpaths, docs, pathParts, selection) == RunFiles(action, fpaths[..k], docs, pathParts, selection)
    decreases |fpaths| - k
  {
    if k == |fpaths| {
      assert fpaths[..k] == fpaths;
    } else {
      var n := |fpaths| - 1;
      assert fpaths[..n][..k] == fpaths[..k];
      RunFilesStopsAtFailure(action, fpaths[..n], k, docs, pathParts, selection);
    }
  }

  /**
   * With every input readable, the run's writes are the inputs' writes
   * concatenated in input order.
   */
  lemma {:induction false} RunFilesAppend(action: Action, xs: seq<string>, ys: seq<string>, docs: map<string, seq<Page>>,
                                          pathParts: string -> PathParts, selection: seq<int>)
    requires RunFiles(action, xs, docs, pathParts, selection).failed.None?
    ensures RunFiles(action, xs + ys, docs, pathParts, selection)
         == Trace(RunFiles(action, xs, docs, pathParts, selection).writes
                  + RunFiles(action, ys, docs, pathParts, selection).writes,
                  RunFiles(action, ys, docs, pathParts, selection).failed)
    decreases |ys|
  {
    var a := RunFiles(action, xs, docs, pathParts, selection);
    if |ys| == 0 {
      assert xs + ys == xs;
      assert a.writes + [] == a.writes;
    } else {
      var n := |ys| - 1;
      var zs := xs + ys;
      assert zs[..|zs| - 1] == xs + ys[..n];
      assert zs[|zs| - 1] == ys[n];
      RunFilesAppend(action, xs, ys[..n], docs, pathParts, selection);
      var b := RunFiles(action, ys[..n], docs, pathParts, selection);
      RunFilesLast(action, zs, docs, pathParts, selection);
      RunFilesLast(action, ys, docs, pathParts, selection);
      NextFileAfter(action, a.writes, b, ys[n], docs, pathParts, selection);
    }
  }

  /** The log line for one written file. */
  function ProgressLine(w: Written): string {
    "+ " + w.path
  }

  /** One progress line per written file, in the order of the writes. */
  function Progress(ws: seq<Written>): (lines: seq<string>)
    ensures |lines| == |ws|
    ensures forall k | 0 <= k < |ws| :: lines[k] == ProgressLine(ws[k])
  {
    if |ws| == 0 then [] else Progress(ws[..|ws| - 1]) + [ProgressLine(ws[|ws| - 1])]
  }

  lemma ProgressAppend(a: seq<Written>, b: seq<Written>)
    ensures Progress(a + b) == Progress(a) + Progress(b)
  {
    var l, r := Progress(a + b), Progress(a) + Progress(b);
    assert forall k | 0 <= k < |l| :: l[k] == r[k];
  }

  /** The first line of a job's log, written after clearing it. */
  function Header(action: Action): string {
    Label(action) + " progressing..."
  }

  /**
   * The log a job leaves: the header, one line per written file in order,
   * then "Done!" when the run went through every input.
   */
  function JobLog(action: Action, t: Trace): (lines: seq<string>)
    ensures |lines| == |t.writes| + (if t.failed.None? then 2 else 1)
    ensures lines[0] == Header(action)
    ensures forall k | 0 <= k < |t.writes| :: lines[k + 1] == ProgressLine(t.writes[k])
    ensures t.failed.None? <==> lines[|lines| - 1] == "Done!"
  {
    var lines := [Header(action)] + Progress(t.writes) + (if t.failed.None? then ["Done!"] else []);
    assert "Done!"[0] == 'D' && Header(action)[0] != 'D';
    assert t.failed.Some? && |t.writes| > 0 ==>
      var w := t.writes[|t.writes| - 1];
      lines[|lines| - 1] == ProgressLine(w) && ProgressLine(w)[0] == '+';
    lines
  }

  lemma JobLogParts(action: Action, t: Trace)
    ensures JobLog(action, t) == [Header(action)] + Progress(t.writes) + (if t.failed.None? then ["Done!"] else [])
  {
  }

  // ---------------------------------------------------------------------
  // Merge
  // ---------------------------------------------------------------------

  /** The pages of the inputs appended in list order, or None when one cannot be opened. */
  function MergedPages(fpaths: seq<string>, docs: map<string, seq<Page>>): Option<seq<Page>> {
    if |fpaths| == 0 then Some([])
    else
      var f := fpaths[|fpaths| - 1];
      match MergedPages(fpaths[..|fpaths| - 1], docs)
      case None => None
      case Some(pages) => if f in docs then Some(pages + docs[f]) else None
  }

  /** The merge fails exactly when some input cannot be opened. */
  lemma {:induction false} MergedPagesDefined(fpaths: seq<string>, docs: map<string, seq<Page>>)
    ensures MergedPages(fpaths, docs).Some? <==> forall k | 0 <= k < |fpaths| :: fpaths[k] in docs
  {
    if |fpaths| > 0 {
      var n := |fpaths| - 1;
      MergedPagesDefined(fpaths[..n], docs);
      assert forall k | 0 <= k < n :: fpaths[..n][k] == fpaths[k];
    }
  }

  /** The total number of pages of the inputs, all of which can be opened. */
  function TotalPages(fpaths: seq<string>, docs: map<string, seq<Page>>): nat
    requires forall k | 0 <= k < |fpaths| :: fpaths[k] in docs
  {
    if |fpaths| == 0 then 0 else TotalPages(fpaths[..|fpaths| - 1], docs) + |docs[fpaths[|fpaths| - 1]]|
  }

  /** The merged document has as many pages as the inputs together. */
  lemma {:induction false} MergedPagesCount(fpaths: seq<string>, docs: map<string, seq<Page>>)
    requires forall k | 0 <= k < |fpaths| :: fpaths[k] in docs
    ensures MergedPages(fpaths, docs).Some?
    ensures |MergedPages(fpaths, docs).value| == TotalPages(fpaths, docs)
  {
    MergedPagesDefined(fpaths, docs);
    if |fpaths| > 0 {
      var n := |fpaths| - 1;
      MergedPagesDefined(fpaths[..n], docs);
      MergedPagesCount(fpaths[..n], docs);
    }
  }

  /** Two documents merge into the first one's pages followed by the second one's. */
  lemma MergeTwo(f: string, g: string, docs: map<string, seq<Page>>)
    requires f in docs && g in docs
    ensures MergedPages([f, g], docs) == Some(docs[f] + docs[g])
  {
    assert [f, g][..1] == [f];
    assert [f][..0] == [];
    assert MergedPages([f], docs) == Some([] + docs[f]);
    assert [] + docs[f] == docs[f];
  }

  /** Merging a concatenation is concatenating the merges: inputs keep their order. */
  lemma {:induction false} MergedPagesAppend(xs: seq<string>, ys: seq<string>, docs: map<string, seq<Page>>)
    requires MergedPages(xs, docs).Some? && MergedPages(ys, docs).Some?
    ensures MergedPages(xs + ys, docs) == Some(MergedPages(xs, docs).value + MergedPages(ys, docs).value)
    decreases |ys|
  {
    if |ys| == 0 {
      assert xs + ys == xs;
      assert MergedPages(xs, docs).value + [] == MergedPages(xs, docs).value;
    } else {
      var n := |ys| - 1;
      assert (xs + ys)[..|xs + ys| - 1] == xs + ys[..n];
      assert (xs + ys)[|xs + ys| - 1] == ys[n];
      MergedPagesAppend(xs, ys[..n], docs);
      var a, b := MergedPages(xs, docs).value, MergedPages(ys[..n], docs).value;
      assert (a + b) + docs[ys[n]] == a + (b + docs[ys[n]]);
    }
  }
}
