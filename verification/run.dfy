/** run.py: the pipeline orchestrator. The site-specific crawler is an
    oracle: what each of its operations returns or raises is fixed in
    advance, per call, and `Main` folds those outcomes into the records
    collected and the trace of effects the run performs. */
module Run {
  import opened Common
  import opened Strings
  import Crawler

  /** The configuration keys `main` itself reads. */
  datatype Config = Config(
    crawlerClass: Option<string>,
    outputPath: Option<string>,
    output: Option<string>,
    debugPage: Option<string>)

  /** What `fetch_list()` returned: a list of pages, or some other value
      (`None` or a single page). */
  datatype ListValue = PageList(pages: seq<string>) | NotAList(value: Option<string>)

  /** One element of the list `parse_list` returned. */
  datatype Item = Text(s: string) | NonText

  /** What `parse_detail` returned: a dict, a list of records, or anything else. */
  datatype Parsed<R> = Dict(rec: R) | List(recs: seq<R>) | OtherShape

  /** A constructed crawler, as an oracle. `fetchDetail(k, item)` and
      `parseDetail(k, page)` are the outcomes of the calls made for the item
      at position `k` of the parsed list. */
  datatype Strategy<R> = Strategy(
    results: Option<seq<R>>,
    fetchList: Outcome<ListValue>,
    parseList: seq<string> -> Outcome<Option<seq<Item>>>,
    fetchDetail: (nat, string) -> Outcome<string>,
    parseDetail: (nat, string) -> Outcome<Parsed<R>>,
    hasDriver: bool)

  /** Resolves `module` and `class` names and constructs the crawler; it
      raises for a module or class it cannot find or a constructor that fails. */
  type Registry<R> = (string, string) -> Outcome<Strategy<R>>

  /** What a run does, in order. */
  datatype Effect =
    | MakeParentDir(path: string)
    | FetchListCall
    | ParseListCall(pages: seq<string>)
    | DebugWrite(path: string, content: string)
    | FetchDetailCall(index: nat, item: string)
    | ParseDetailCall(index: nat, page: string)
    | SaveCall(path: string, outcome: Crawler.SaveOutcome)
    | QuitCall

  /** How `main` ends: returning early because no crawler could be built, or
      completing with the crawler's final records. */
  datatype Run<R> =
    | Aborted(error: Exn, trace: seq<Effect>)
    | Finished(results: seq<R>, trace: seq<Effect>)

  const DefaultOutput := "data/output.csv"
  const DefaultDebugPage := "data/debug_page1.html"

  // ---------------------------------------------------------------------
  // Configuration and instantiation
  // ---------------------------------------------------------------------

  /** `config.get("output_path") or config.get("output") or "data/output.csv"`:
      never empty, so `save` never sees a missing path. */
  function OutputPath(cfg: Config): (path: string)
    ensures path != ""
    ensures Truthy(cfg.outputPath) ==> path == cfg.outputPath.value
    ensures !Truthy(cfg.outputPath) && Truthy(cfg.output) ==> path == cfg.output.value
    ensures !Truthy(cfg.outputPath) && !Truthy(cfg.output) ==> path == DefaultOutput
  {
    OrElse(cfg.outputPath, OrElse(cfg.output, DefaultOutput))
  }

  /** `config.get("debug_page") or "data/debug_page1.html"`: never empty. */
  function DebugPath(cfg: Config): (path: string)
    ensures path != ""
    ensures Truthy(cfg.debugPage) ==> path == cfg.debugPage.value
    ensures !Truthy(cfg.debugPage) ==> path == DefaultDebugPage
  {
    OrElse(cfg.debugPage, DefaultDebugPage)
  }

  /** `full.rsplit(".", 1)` unpacked into two names: fails without a dot;
      otherwise the names rejoin to `full` and the class name has no dot. */
  function SplitClassPath(full: string): (r: Option<(string, string)>)
    ensures r.None? <==> forall i :: 0 <= i < |full| ==> full[i] != '.'
    ensures r.Some? ==> r.value.0 + "." + r.value.1 == full
    ensures r.Some? ==> forall i :: 0 <= i < |r.value.1| ==> r.value.1[i] != '.'
  {
    var k := RFind(full, '.');
    if k < 0 then None
    else
      assert full[..k] + "." + full[k + 1..] == full;
      Some((full[..k], full[k + 1..]))
  }

  /** `instantiate_crawler(config)`: a missing or empty `crawler_class` raises
      KeyError and one without a dot ValueError, before any module is looked
      up; otherwise the registry decides. */
  function Instantiate<R>(cfg: Config, registry: Registry<R>): (r: Outcome<Strategy<R>>)
    ensures !Truthy(cfg.crawlerClass) ==> r == Raise(Exn("KeyError"))
    ensures Truthy(cfg.crawlerClass) && SplitClassPath(cfg.crawlerClass.value).None? ==>
              r == Raise(Exn("ValueError"))
    ensures Truthy(cfg.crawlerClass) && SplitClassPath(cfg.crawlerClass.value).Some? ==>
              r == registry(SplitClassPath(cfg.crawlerClass.value).value.0,
                            SplitClassPath(cfg.crawlerClass.value).value.1)
  {
    if !Truthy(cfg.crawlerClass) then Raise(Exn("KeyError"))
    else match SplitClassPath(cfg.crawlerClass.value)
      case None => Raise(Exn("ValueError"))
      case Some(names) => registry(names.0, names.1)
  }

  // ---------------------------------------------------------------------
  // Stages 1 and 2: list pages and items
  // ---------------------------------------------------------------------

  /** Stage 1's `html_list`: a list passes through, another truthy value
      becomes a one-page list, a falsy value or an exception no pages. */
  function ListPages(fetched: Outcome<ListValue>): (pages: seq<string>)
    ensures fetched.Raise? ==> pages == []
    ensures fetched.Ok? && fetched.value.PageList? ==> pages == fetched.value.pages
    ensures fetched.Ok? && fetched.value.NotAList? ==>
              |pages| <= 1 && (pages != [] <==> Truthy(fetched.value.value))
              && (pages != [] ==> pages[0] == fetched.value.value.value)
  {
    match fetched
    case Raise(_) => []
    case Ok(PageList(pages)) => pages
    case Ok(NotAList(v)) => if Truthy(v) then [v.value] else []
  }

  /** Stage 2's `items`: `None` or an exception from `parse_list` gives no items. */
  function ListItems(parsed: Outcome<Option<seq<Item>>>): (items: seq<Item>)
    ensures parsed.Raise? || parsed.value.None? ==> items == []
    ensures parsed.Ok? && parsed.value.Some? ==> items == parsed.value.value
  {
    match parsed
    case Raise(_) => []
    case Ok(None) => []
    case Ok(Some(items)) => items
  }

  /** The debug page dump: only when parsing found no items in a non-empty
      list, and then the first page goes to the debug path. */
  function DebugDump(cfg: Config, pages: seq<string>, items: seq<Item>): (effects: seq<Effect>)
    ensures effects != [] <==> items == [] && pages != []
    ensures effects != [] ==>
              effects == [MakeParentDir(DebugPath(cfg)), DebugWrite(DebugPath(cfg), pages[0])]
  {
    if items == [] && pages != [] then
      [MakeParentDir(DebugPath(cfg)), DebugWrite(DebugPath(cfg), pages[0])]
    else []
  }

  // ---------------------------------------------------------------------
  // Stage 3: the detail loop
  // ---------------------------------------------------------------------

  /** The records one item contributes and the crawler calls made for it. */
  datatype Step<R> = Step(records: seq<R>, calls: seq<Effect>)

  predicate IsDetailCall(e: Effect, lo: nat, hi: nat) {
    (e.FetchDetailCall? && lo <= e.index < hi) || (e.ParseDetailCall? && lo <= e.index < hi)
  }

  /** One pass of the loop body for the item at position `k`. A non-string
      item is skipped without a call; `parse_detail` runs only on a non-empty
      page; records come only from a dict (one record) or a list (all of
      them) returned by it; every other path contributes nothing. */
  function ProcessItem<R>(c: Strategy<R>, k: nat, item: Item): (step: Step<R>)
    ensures item.NonText? ==> step == Step([], [])
    ensures item.Text? ==> 1 <= |step.calls| <= 2 && step.calls[0] == FetchDetailCall(k, item.s)
    ensures |step.calls| == 2 <==>
              item.Text? && c.fetchDetail(k, item.s).Ok? && c.fetchDetail(k, item.s).value != ""
    ensures |step.calls| == 2 ==>
              step.calls[1] == ParseDetailCall(k, c.fetchDetail(k, item.s).value)
    ensures step.records != [] ==>
              |step.calls| == 2 && c.parseDetail(k, c.fetchDetail(k, item.s).value).Ok?
    ensures |step.calls| == 2 && c.parseDetail(k, c.fetchDetail(k, item.s).value).Ok? ==>
              match c.parseDetail(k, c.fetchDetail(k, item.s).value).value
              case Dict(rec) => step.records == [rec]
              case List(recs) => step.records == recs
              case OtherShape => step.records == []
  {
    match item
    case NonText => Step([], [])
    case Text(s) =>
      var fetched := c.fetchDetail(k, s);
      if fetched.Raise? || fetched.value == "" then Step([], [FetchDetailCall(k, s)])
      else
        var calls := [FetchDetailCall(k, s), ParseDetailCall(k, fetched.value)];
        match c.parseDetail(k, fetched.value)
        case Raise(_) => Step([], calls)
        case Ok(Dict(rec)) => Step([rec], calls)
        case Ok(List(recs)) => Step(recs, calls)
        case Ok(OtherShape) => Step([], calls)
  }

  /** The loop over items `lo..hi-1`: their steps, concatenated in item order. */
  function Steps<R>(c: Strategy<R>, items: seq<Item>, lo: nat, hi: nat): (s: Step<R>)
    requires lo <= hi <= |items|
    ensures forall i :: 0 <= i < |s.calls| ==> IsDetailCall(s.calls[i], lo, hi)
    decreases hi
  {
    if hi == lo then Step([], [])
    else
      var prev := Steps(c, items, lo, hi - 1);
      var last := ProcessItem(c, hi - 1, items[hi - 1]);
      Step(prev.records + last.records, prev.calls + last.calls)
  }

  /** Run.py's loop as written, with its `continue`s: it collects exactly the
      concatenated steps of all items after the records already present. */
  method DetailLoop<R>(c: Strategy<R>, items: seq<Item>, initial: seq<R>)
    returns (results: seq<R>, calls: seq<Effect>)
    ensures results == initial + Steps(c, items, 0, |items|).records
    ensures calls == Steps(c, items, 0, |items|).calls
  {
    results := initial;
    calls := [];
    var k := 0;
    while k < |items|
      invariant 0 <= k <= |items|
      invariant results == initial + Steps(c, items, 0, k).records
      invariant calls == Steps(c, items, 0, k).calls
    {
      var index := k;
      var item := items[k];
      k := k + 1;
      if !item.Text? {
        continue;
      }
      calls := calls + [FetchDetailCall(index, item.s)];
      var fetched := c.fetchDetail(index, item.s);
      if fetched.Raise? {
        continue;
      }
      if fetched.value == "" {
        continue;
      }
      calls := calls + [ParseDetailCall(index, fetched.value)];
      var parsed := c.parseDetail(index, fetched.value);
      if parsed.Raise? {
        continue;
      }
      match parsed.value {
        case Dict(rec) => results := results + [rec];
        case List(recs) => results := results + recs;
        case OtherShape =>
      }
    }
  }

  lemma {:induction false} StepsSplit<R>(c: Strategy<R>, items: seq<Item>, lo: nat, mid: nat, hi: nat)
    requires lo <= mid <= hi <= |items|
    ensures Steps(c, items, lo, hi).records
            == Steps(c, items, lo, mid).records + Steps(c, items, mid, hi).records
    ensures Steps(c, items, lo, hi).calls
            == Steps(c, items, lo, mid).calls + Steps(c, items, mid, hi).calls
    decreases hi
  {
    if hi > mid {
      StepsSplit(c, items, lo, mid, hi - 1);
      var last := ProcessItem(c, hi - 1, items[hi - 1]);
      var left, right := Steps(c, items, lo, mid), Steps(c, items, mid, hi - 1);
      assert Steps(c, items, mid, hi) == Step(right.records + last.records, right.calls + last.calls);
      assert left.records + right.records + last.records == left.records + (right.records + last.records);
      assert left.calls + right.calls + last.calls == left.calls + (right.calls + last.calls);
    } else {
      assert Steps(c, items, mid, hi) == Step([], []);
    }
  }

  lemma {:induction false} StepsAgree<R>(c: Strategy<R>, d: Strategy<R>, items: seq<Item>, lo: nat, hi: nat)
    requires lo <= hi <= |items|
    requires forall k :: lo <= k < hi ==> ProcessItem(c, k, items[k]) == ProcessItem(d, k, items[k])
    ensures Steps(c, items, lo, hi) == Steps(d, items, lo, hi)
    decreases hi
  {
    if hi > lo {
      StepsAgree(c, d, items, lo, hi - 1);
    }
  }

  /** Detail calls in item order: a call for one item never follows a call
      for a later one. */
  predicate InItemOrder(calls: seq<Effect>) {
    forall i, j :: 0 <= i < j < |calls| && IsDetail(calls[i]) && IsDetail(calls[j]) ==>
      calls[i].index <= calls[j].index
  }

  /** The loop visits the items in list order. */
  lemma {:induction false} StepsInOrder<R>(c: Strategy<R>, items: seq<Item>, lo: nat, hi: nat)
    requires lo <= hi <= |items|
    ensures InItemOrder(Steps(c, items, lo, hi).calls)
    decreases hi
  {
    if hi > lo {
      StepsInOrder(c, items, lo, hi - 1);
      var prev := Steps(c, items, lo, hi - 1).calls;
      var last := ProcessItem(c, hi - 1, items[hi - 1]).calls;
      var calls := Steps(c, items, lo, hi).calls;
      assert calls == prev + last;
      forall i, j | 0 <= i < j < |calls| && IsDetail(calls[i]) && IsDetail(calls[j])
        ensures calls[i].index <= calls[j].index
      {
        if j < |prev| {
          assert calls[i] == prev[i] && calls[j] == prev[j];
        } else {
          assert calls[j] == last[j - |prev|];
          assert calls[j].index == hi - 1;
          if i < |prev| {
            assert calls[i] == prev[i] && IsDetailCall(prev[i], lo, hi - 1);
          } else {
            assert calls[i] == last[i - |prev|];
          }
        }
      }
    }
  }

  /** One item's failure never alters another item's contribution: if two
      crawlers behave alike on every item but the `j`-th, their runs collect
      the same records before and after `j`'s own contribution. */
  lemma ItemIsolation<R>(c: Strategy<R>, d: Strategy<R>, items: seq<Item>, j: nat)
    requires j < |items|
    requires forall k :: 0 <= k < |items| && k != j ==>
               ProcessItem(c, k, items[k]) == ProcessItem(d, k, items[k])
    ensures Steps(d, items, 0, |items|).records
            == Steps(c, items, 0, j).records + ProcessItem(d, j, items[j]).records
               + Steps(c, items, j + 1, |items|).records
  {
    StepsSplit(d, items, 0, j, |items|);
    StepsSplit(d, items, j, j + 1, |items|);
    StepsAgree(c, d, items, 0, j);
    StepsAgree(c, d, items, j + 1, |items|);
    assert Steps(d, items, j, j + 1).records == ProcessItem(d, j, items[j]).records;
  }

  /** Five items whose pages all parse to one record each, except that
      fetching the third raises: the run collects the records of items 1, 2,
      4 and 5, in that order. */
  lemma ThirdFetchFails<R>(c: Strategy<R>, urls: seq<string>, rec: nat -> R)
    requires |urls| == 5
    requires c.fetchDetail(2, urls[2]).Raise?
    requires forall k :: 0 <= k < 5 && k != 2 ==>
               c.fetchDetail(k, urls[k]).Ok? && c.fetchDetail(k, urls[k]).value != ""
    requires forall k, page :: c.parseDetail(k, page) == Ok(Dict(rec(k)))
    ensures Steps(c, seq(5, k requires 0 <= k < 5 => Text(urls[k])), 0, 5).records
            == [rec(0), rec(1), rec(3), rec(4)]
  {
    var items := seq(5, k requires 0 <= k < 5 => Text(urls[k]));
    assert ProcessItem(c, 0, items[0]).records == [rec(0)];
    assert ProcessItem(c, 1, items[1]).records == [rec(1)];
    assert ProcessItem(c, 2, items[2]).records == [];
    assert ProcessItem(c, 3, items[3]).records == [rec(3)];
    assert ProcessItem(c, 4, items[4]).records == [rec(4)];
  }

  // ---------------------------------------------------------------------
  // main
  // ---------------------------------------------------------------------

  function InitialResults<R>(c: Strategy<R>): seq<R> {
    if c.results.Some? then c.results.value else []
  }

  /** Stages 1 to 5 of `main()` with the crawler `c` built: fetch and parse
      the list, dump the debug page if needed, run the detail loop, save and
      quit the driver. Every stage contains its failures, so the run always
      completes, with the crawler's own records followed by every item's
      contribution in order. */
  function Crawl<R>(cfg: Config, c: Strategy<R>): (run: Run<R>)
    ensures run.Finished?
    ensures var items := ListItems(c.parseList(ListPages(c.fetchList)));
            run.results == InitialResults(c) + Steps(c, items, 0, |items|).records
  {
    var output := OutputPath(cfg);
    var pages := ListPages(c.fetchList);
    var items := ListItems(c.parseList(pages));
    var loop := Steps(c, items, 0, |items|);
    var results := InitialResults(c) + loop.records;
    Finished(results, CrawlTrace(cfg, c, pages, items, loop.calls, Crawler.Save(Some(output), results)))
  }

  /** The effects of a completed run, stage by stage. */
  function CrawlTrace<R>(cfg: Config, c: Strategy<R>, pages: seq<string>, items: seq<Item>,
                         loopCalls: seq<Effect>, saved: Crawler.SaveOutcome): seq<Effect>
  {
    var output := OutputPath(cfg);
    [MakeParentDir(output), FetchListCall, ParseListCall(pages)]
    + DebugDump(cfg, pages, items)
    + loopCalls
    + [MakeParentDir(output), SaveCall(output, saved)]
    + (if c.hasDriver then [QuitCall] else [])
  }

  /** Where each stage's effects sit in a run's trace: the output directory
      is prepared and the list fetched and parsed first; then come the debug
      dump and the detail calls; then the directory is prepared again and
      `save` attempted; the driver, if any, is quit last. */
  lemma TraceLayout<R>(cfg: Config, c: Strategy<R>, pages: seq<string>, items: seq<Item>,
                       loopCalls: seq<Effect>, saved: Crawler.SaveOutcome)
    ensures var t := CrawlTrace(cfg, c, pages, items, loopCalls, saved);
            var middle := DebugDump(cfg, pages, items) + loopCalls;
            && |t| == 5 + |middle| + Indicator(c.hasDriver)
            && t[..3] == [MakeParentDir(OutputPath(cfg)), FetchListCall, ParseListCall(pages)]
            && t[3..3 + |middle|] == middle
            && t[3 + |middle|] == MakeParentDir(OutputPath(cfg))
            && t[4 + |middle|] == SaveCall(OutputPath(cfg), saved)
            && (c.hasDriver ==> t[|t| - 1] == QuitCall)
  {
    var output := OutputPath(cfg);
    var head := [MakeParentDir(output), FetchListCall, ParseListCall(pages)];
    var debug := DebugDump(cfg, pages, items);
    var middle := debug + loopCalls;
    var tail := [MakeParentDir(output), SaveCall(output, saved)];
    var quit := if c.hasDriver then [QuitCall] else [];
    var t := CrawlTrace(cfg, c, pages, items, loopCalls, saved);
    assert t == head + middle + tail + quit;
    assert t[..3] == head && t[3..3 + |middle|] == middle;
    assert t[3 + |middle|] == tail[0] && t[4 + |middle|] == tail[1];
  }

  /** `main()` after the configuration has been loaded. When no crawler can
      be built it returns having only prepared the output directory, so no
      crawler operation ever runs; otherwise it crawls to completion. */
  function Main<R>(cfg: Config, registry: Registry<R>): (run: Run<R>)
    ensures run.Aborted? <==> Instantiate(cfg, registry).Raise?
    ensures run.Aborted? ==>
              run == Aborted(Instantiate(cfg, registry).exn, [MakeParentDir(OutputPath(cfg))])
    ensures !Truthy(cfg.crawlerClass) ==>
              run == Aborted(Exn("KeyError"), [MakeParentDir(OutputPath(cfg))])
    ensures run.Finished? ==> run == Crawl(cfg, Instantiate(cfg, registry).value)
  {
    match Instantiate(cfg, registry)
    case Raise(e) => Aborted(e, [MakeParentDir(OutputPath(cfg))])
    case Ok(c) => Crawl(cfg, c)
  }

  // ---------------------------------------------------------------------
  // The effects of a completed run
  // ---------------------------------------------------------------------

  /** How many effects of `t` satisfy `P`. */
  function Count(t: seq<Effect>, P: Effect -> bool): nat {
    if t == [] then 0 else (if P(t[0]) then 1 else 0) + Count(t[1..], P)
  }

  lemma {:induction false} CountConcat(a: seq<Effect>, b: seq<Effect>, P: Effect -> bool)
    ensures Count(a + b, P) == Count(a, P) + Count(b, P)
    decreases |a|
  {
    if a == [] {
      assert a + b == b;
    } else {
      assert (a + b)[1..] == a[1..] + b;
      CountConcat(a[1..], b, P);
    }
  }

  lemma {:induction false} CountNone(t: seq<Effect>, P: Effect -> bool)
    requires forall i :: 0 <= i < |t| ==> !P(t[i])
    ensures Count(t, P) == 0
    decreases |t|
  {
    if t != [] {
      CountNone(t[1..], P);
    }
  }

  function Indicator(b: bool): nat { if b then 1 else 0 }

  predicate IsDebugWrite(e: Effect) { e.DebugWrite? }
  predicate IsSave(e: Effect) { e.SaveCall? }
  predicate IsQuit(e: Effect) { e.QuitCall? }

  lemma CountSingle(e: Effect, P: Effect -> bool)
    ensures Count([e], P) == Indicator(P(e))
  {
    assert [e][1..] == [];
  }

  lemma CountPair(e: Effect, f: Effect, P: Effect -> bool)
    ensures Count([e, f], P) == Indicator(P(e)) + Indicator(P(f))
  {
    assert [e, f][1..] == [f];
    CountSingle(f, P);
  }

  lemma CountTriple(e: Effect, f: Effect, g: Effect, P: Effect -> bool)
    ensures Count([e, f, g], P) == Indicator(P(e)) + Indicator(P(f)) + Indicator(P(g))
  {
    assert [e, f, g][1..] == [f, g];
    CountPair(f, g, P);
  }

  lemma CountFive(a: seq<Effect>, b: seq<Effect>, c: seq<Effect>, d: seq<Effect>, e: seq<Effect>,
                  P: Effect -> bool)
    ensures Count(a + b + c + d + e, P) == Count(a, P) + Count(b, P) + Count(c, P) + Count(d, P) + Count(e, P)
  {
    CountConcat(a + b + c + d, e, P);
    CountConcat(a + b + c, d, P);
    CountConcat(a + b, c, P);
    CountConcat(a, b, P);
  }

  /** How many effects of a completed run's trace satisfy `P`, stage by
      stage, for any `P` that no detail-page call satisfies. */
  lemma TraceCount<R>(cfg: Config, c: Strategy<R>, pages: seq<string>, items: seq<Item>,
                      loopCalls: seq<Effect>, saved: Crawler.SaveOutcome, P: Effect -> bool)
    requires forall i :: 0 <= i < |loopCalls| ==> !P(loopCalls[i])
    ensures var output := OutputPath(cfg);
            Count(CrawlTrace(cfg, c, pages, items, loopCalls, saved), P)
            == 2 * Indicator(P(MakeParentDir(output))) + Indicator(P(FetchListCall))
               + Indicator(P(ParseListCall(pages)))
               + Count(DebugDump(cfg, pages, items), P)
               + Indicator(P(SaveCall(output, saved)))
               + Indicator(c.hasDriver && P(QuitCall))
  {
    var output := OutputPath(cfg);
    var save := SaveCall(output, saved);
    var quit := if c.hasDriver then [QuitCall] else [];
    CountFive([MakeParentDir(output), FetchListCall, ParseListCall(pages)], DebugDump(cfg, pages, items),
              loopCalls, [MakeParentDir(output), save], quit, P);
    CountTriple(MakeParentDir(output), FetchListCall, ParseListCall(pages), P);
    CountPair(MakeParentDir(output), save, P);
    CountNone(loopCalls, P);
    if c.hasDriver {
      CountSingle(QuitCall, P);
    }
  }

  /** The debug page is written exactly when the list parsed to no items
      although pages were fetched, once, with the first page as content. */
  lemma DebugPageWritten<R>(cfg: Config, c: Strategy<R>)
    ensures var pages := ListPages(c.fetchList);
            var items := ListItems(c.parseList(pages));
            var t := Crawl(cfg, c).trace;
            && Count(t, IsDebugWrite) == Indicator(items == [] && pages != [])
            && (items == [] && pages != [] ==> DebugWrite(DebugPath(cfg), pages[0]) in t)
  {
    var pages := ListPages(c.fetchList);
    var items := ListItems(c.parseList(pages));
    var loop := Steps(c, items, 0, |items|);
    var run := Crawl(cfg, c);
    var saved := Crawler.Save(Some(OutputPath(cfg)), run.results);
    assert run.trace == CrawlTrace(cfg, c, pages, items, loop.calls, saved);
    forall i | 0 <= i < |loop.calls| ensures !IsDebugWrite(loop.calls[i]) {
      assert IsDetailCall(loop.calls[i], 0, |items|);
    }
    TraceCount(cfg, c, pages, items, loop.calls, saved, IsDebugWrite);
    var debug := DebugDump(cfg, pages, items);
    if debug != [] {
      CountPair(debug[0], debug[1], IsDebugWrite);
    }
  }

  /** `save` is attempted exactly once, on the final records, with a path it
      never rejects as missing; whatever it raises, the run completes. */
  lemma SaveAttemptedOnce<R>(cfg: Config, c: Strategy<R>)
    ensures var run := Crawl(cfg, c);
            var output := OutputPath(cfg);
            && Count(run.trace, IsSave) == 1
            && SaveCall(output, Crawler.Save(Some(output), run.results)) in run.trace
            && !Crawler.Save(Some(output), run.results).MissingPath?
            && (Crawler.Save(Some(output), run.results).Raises()
                <==> Crawler.Save(Some(output), run.results).Unsupported?)
            && run.Finished?
  {
    var pages := ListPages(c.fetchList);
    var items := ListItems(c.parseList(pages));
    var loop := Steps(c, items, 0, |items|);
    var run := Crawl(cfg, c);
    var saved := Crawler.Save(Some(OutputPath(cfg)), run.results);
    assert run.trace == CrawlTrace(cfg, c, pages, items, loop.calls, saved);
    forall i | 0 <= i < |loop.calls| ensures !IsSave(loop.calls[i]) {
      assert IsDetailCall(loop.calls[i], 0, |items|);
    }
    TraceCount(cfg, c, pages, items, loop.calls, saved, IsSave);
    CountNone(DebugDump(cfg, pages, items), IsSave);
  }

  /** The driver is quit exactly when the crawler has one, as the last effect. */
  lemma QuitOnlyWithDriver<R>(cfg: Config, c: Strategy<R>)
    ensures var t := Crawl(cfg, c).trace;
            && Count(t, IsQuit) == Indicator(c.hasDriver)
            && (c.hasDriver ==> t[|t| - 1] == QuitCall)
  {
    var pages := ListPages(c.fetchList);
    var items := ListItems(c.parseList(pages));
    var loop := Steps(c, items, 0, |items|);
    var run := Crawl(cfg, c);
    var saved := Crawler.Save(Some(OutputPath(cfg)), run.results);
    assert run.trace == CrawlTrace(cfg, c, pages, items, loop.calls, saved);
    forall i | 0 <= i < |loop.calls| ensures !IsQuit(loop.calls[i]) {
      assert IsDetailCall(loop.calls[i], 0, |items|);
    }
    TraceCount(cfg, c, pages, items, loop.calls, saved, IsQuit);
    CountNone(DebugDump(cfg, pages, items), IsQuit);
  }

  /** The order of a run's effects: the list is fetched and parsed before
      anything else the crawler does; the debug page and every detail-page
      call fall strictly between parsing the list and preparing the
      directory for `save`, which is followed only by quitting the driver;
      the debug page comes before every detail call, and detail calls follow
      the item order. */
  predicate OrderedRun(t: seq<Effect>, hasDriver: bool) {
    var save := |t| - 1 - Indicator(hasDriver);
    && 3 <= save - 1 && t[1] == FetchListCall && t[2].ParseListCall?
    && t[save - 1].MakeParentDir? && t[save].SaveCall?
    && (forall i :: 0 <= i < |t| && IsCrawlerPageCall(t[i]) ==> 2 < i < save - 1)
    && (forall i, j :: 0 <= i < |t| && 0 <= j < |t| && t[i].DebugWrite? && IsDetail(t[j]) ==> i < j)
    && InItemOrder(t)
  }

  lemma CrawlOrder<R>(cfg: Config, c: Strategy<R>)
    ensures OrderedRun(Crawl(cfg, c).trace, c.hasDriver)
  {
    var pages := ListPages(c.fetchList);
    var items := ListItems(c.parseList(pages));
    var loop := Steps(c, items, 0, |items|);
    var run := Crawl(cfg, c);
    var saved := Crawler.Save(Some(OutputPath(cfg)), run.results);
    assert run.trace == CrawlTrace(cfg, c, pages, items, loop.calls, saved);
    forall i | 0 <= i < |loop.calls| ensures IsDetail(loop.calls[i]) {
      assert IsDetailCall(loop.calls[i], 0, |items|);
    }
    StepsInOrder(c, items, 0, |items|);
    TraceOrder(cfg, c, pages, items, loop.calls, saved);
  }

  /** `CrawlOrder` for any detail calls in item order. */
  lemma TraceOrder<R>(cfg: Config, c: Strategy<R>, pages: seq<string>, items: seq<Item>,
                      loopCalls: seq<Effect>, saved: Crawler.SaveOutcome)
    requires forall i :: 0 <= i < |loopCalls| ==> IsDetail(loopCalls[i])
    requires InItemOrder(loopCalls)
    ensures OrderedRun(CrawlTrace(cfg, c, pages, items, loopCalls, saved), c.hasDriver)
  {
    var t := CrawlTrace(cfg, c, pages, items, loopCalls, saved);
    var debug := DebugDump(cfg, pages, items);
    var d := 3 + |debug|;
    TraceMiddle(cfg, c, pages, items, loopCalls, saved);
    TraceEnds(cfg, c, pages, items, loopCalls, saved);
    forall i | 3 <= i < d ensures !IsDetail(t[i]) {
      assert debug != [] ==> debug[0].MakeParentDir? && debug[1].DebugWrite?;
    }
    forall i, j | 0 <= i < j < |t| && IsDetail(t[i]) && IsDetail(t[j])
      ensures t[i].index <= t[j].index
    {
      assert loopCalls[i - d].index <= loopCalls[j - d].index;
    }
  }

  /** Between parsing the list and preparing the directory for `save`, a
      run's trace holds the debug dump and then the detail calls. */
  lemma TraceMiddle<R>(cfg: Config, c: Strategy<R>, pages: seq<string>, items: seq<Item>,
                       loopCalls: seq<Effect>, saved: Crawler.SaveOutcome)
    ensures var t := CrawlTrace(cfg, c, pages, items, loopCalls, saved);
            var debug := DebugDump(cfg, pages, items);
            var d := 3 + |debug|;
            && |t| == d + |loopCalls| + 2 + Indicator(c.hasDriver)
            && (forall i :: 3 <= i < d ==> t[i] == debug[i - 3])
            && (forall i :: d <= i < d + |loopCalls| ==> t[i] == loopCalls[i - d])
  {
    var t := CrawlTrace(cfg, c, pages, items, loopCalls, saved);
    var debug := DebugDump(cfg, pages, items);
    var middle := debug + loopCalls;
    TraceLayout(cfg, c, pages, items, loopCalls, saved);
    forall i | 3 <= i < 3 + |middle| ensures t[i] == middle[i - 3] {
      assert t[i] == t[3..3 + |middle|][i - 3];
    }
  }

  /** Around the middle, a run's trace holds only effects of `main` itself
      and the list calls: nothing the crawler does with a page. */
  lemma TraceEnds<R>(cfg: Config, c: Strategy<R>, pages: seq<string>, items: seq<Item>,
                     loopCalls: seq<Effect>, saved: Crawler.SaveOutcome)
    ensures var t := CrawlTrace(cfg, c, pages, items, loopCalls, saved);
            var save := |t| - 1 - Indicator(c.hasDriver);
            && 3 <= save - 1 && t[1] == FetchListCall && t[2].ParseListCall?
            && t[save - 1].MakeParentDir? && t[save].SaveCall?
            && forall i :: 0 <= i < |t| && IsCrawlerPageCall(t[i]) ==> 3 <= i < save - 1
  {
    var t := CrawlTrace(cfg, c, pages, items, loopCalls, saved);
    var save := |t| - 1 - Indicator(c.hasDriver);
    TraceLayout(cfg, c, pages, items, loopCalls, saved);
    assert t[1] == t[..3][1] && t[2] == t[..3][2];
    forall i | 0 <= i < 3 ensures !IsCrawlerPageCall(t[i]) {
      assert t[i] == t[..3][i];
    }
    forall i | save - 1 <= i < |t| ensures !IsCrawlerPageCall(t[i]) {
      assert i == save - 1 || i == save || (c.hasDriver && i == |t| - 1);
    }
  }

  /** A call the crawler makes with a page: writing the debug page, or a
      detail-page fetch or parse. */
  predicate IsCrawlerPageCall(e: Effect) { e.DebugWrite? || IsDetail(e) }

  predicate IsDetail(e: Effect) { e.FetchDetailCall? || e.ParseDetailCall? }
}
