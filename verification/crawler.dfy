/** core/crawler.py: the base crawler's initial state and its `save`
    decision. Serialisation itself (pandas writing CSV or Excel bytes) is
    outside the model; `Save` decides what happens to the results. */
module Crawler {
  import opened Common
  import opened Strings
  import PosixPath
  import Utils

  /** A base crawler right after construction: its configuration and its
      (still empty) accumulated records. */
  datatype BaseState<V, R> = BaseState(config: map<string, V>, results: seq<R>)

  /** `BaseCrawler.__init__(config)`: a falsy configuration (`None` or `{}`)
      becomes `{}`, any other is kept, and no record has been collected. */
  function Init<V, R>(config: Option<map<string, V>>): (s: BaseState<V, R>)
    ensures s.results == []
    ensures config.None? ==> s.config == map[]
    ensures config.Some? ==> s.config == config.value
  {
    BaseState(if config.Some? && config.value != map[] then config.value else map[], [])
  }

  /** The tabular formats `save` can write. */
  datatype Format = Csv | Excel

  /** What `save(output_path)` does. */
  datatype SaveOutcome =
    | MissingPath                                  // ValueError: output_path is required
    | NoData(dir: Option<string>)                  // warning only; parent directory prepared
    | Written(dir: Option<string>, format: Format)  // the table is written in `format`
    | Unsupported(dir: Option<string>, ext: string) // ValueError: Unsupported output format
  {
    predicate Raises() { MissingPath? || Unsupported? }
  }

  /** The extension that selects the format: `splitext(path)[1]`, lower-cased,
      leading dots stripped. It holds no dot, no slash and no upper-case
      letter, and a path without a dot has none. */
  function Extension(path: string): (ext: string)
    ensures forall i :: 0 <= i < |ext| ==> ext[i] != '.' && ext[i] != '/' && !('A' <= ext[i] <= 'Z')
    ensures (forall i :: 0 <= i < |path| ==> path[i] != '.') ==> ext == ""
  {
    var split := PosixPath.Splitext(path);
    NormalisedSuffix(split.1);
    assert split.1 != [] ==> path[|split.0|] == '.';
    TrimDots(Lower(split.1))
  }

  /** Lower-casing and stripping the dot of a `splitext` suffix leaves only
      lower-case characters that are neither dots nor slashes. */
  lemma NormalisedSuffix(e: string)
    requires e != [] ==> e[0] == '.'
    requires forall i :: 0 < i < |e| ==> e[i] != '.' && e[i] != '/'
    ensures forall i :: 0 <= i < |TrimDots(Lower(e))| ==>
              var c := TrimDots(Lower(e))[i]; c != '.' && c != '/' && !('A' <= c <= 'Z')
  {
    if e != [] {
      DottedSuffix(e);
      var ext := Lower(e[1..]);
      forall i | 0 <= i < |ext| ensures ext[i] != '.' && ext[i] != '/' && !('A' <= ext[i] <= 'Z') {
        assert ext[i] == LowerChar(e[i + 1]);
        LowerKeepsPunctuation(e[i + 1], '.');
        LowerKeepsPunctuation(e[i + 1], '/');
      }
    }
  }

  /** The format an extension selects: `csv` or no extension gives CSV,
      `xls` or `xlsx` gives Excel, anything else none. */
  function FormatFor(ext: string): (f: Option<Format>)
    ensures f == Some(Csv) <==> ext == "csv" || ext == ""
    ensures f == Some(Excel) <==> ext == "xls" || ext == "xlsx"
  {
    if ext == "csv" || ext == "" then Some(Csv)
    else if ext == "xls" || ext == "xlsx" then Some(Excel)
    else None
  }

  /** `BaseCrawler.save(output_path)` over the crawler's `results`. A falsy
      path is an error whatever the results; with no results nothing is
      written and no format is ever rejected; otherwise the parent directory
      is prepared and the table is written in the extension's format, or the
      extension is rejected. */
  function Save<R>(outputPath: Option<string>, results: seq<R>): (o: SaveOutcome)
    ensures o.MissingPath? <==> !Truthy(outputPath)
    ensures Truthy(outputPath) ==> o.dir == Utils.EnsureParentDir(outputPath.value)
    ensures o.NoData? <==> Truthy(outputPath) && results == []
    ensures o.Written? <==>
              Truthy(outputPath) && results != [] && FormatFor(Extension(outputPath.value)).Some?
    ensures o.Written? ==> Some(o.format) == FormatFor(Extension(outputPath.value))
    ensures o.Unsupported? ==> o.ext == Extension(outputPath.value)
  {
    if !Truthy(outputPath) then MissingPath
    else
      var path := outputPath.value;
      var dir := Utils.EnsureParentDir(path);
      if results == [] then NoData(dir)
      else
        var ext := Extension(path);
        match FormatFor(ext)
        case Some(f) => Written(dir, f)
        case None => Unsupported(dir, ext)
  }

  /** Format selection ignores case: two paths that agree once lower-cased
      have the same extension, so `OUT.CSV` is written as CSV. */
  lemma ExtensionIgnoresCase(p: string, q: string)
    requires Lower(p) == Lower(q)
    ensures Extension(p) == Extension(q)
  {
    PosixPath.SplitextLower(p);
    PosixPath.SplitextLower(q);
    LowerIdempotent(PosixPath.Splitext(p).1);
    LowerIdempotent(PosixPath.Splitext(q).1);
  }

  /** Hence `save` picks the same format, or rejects the same extension,
      for two paths that differ only in letter case. */
  lemma SaveIgnoresCase<R>(p: string, q: string, results: seq<R>)
    requires p != "" && q != "" && Lower(p) == Lower(q)
    ensures Save(Some(p), results).Written? <==> Save(Some(q), results).Written?
    ensures Save(Some(p), results).Written? ==>
              Save(Some(p), results).format == Save(Some(q), results).format
    ensures Save(Some(p), results).Unsupported? <==> Save(Some(q), results).Unsupported?
  {
    ExtensionIgnoresCase(p, q);
  }

  /** The extension of a path whose last component has a stem and one dotted
      suffix is that suffix without its dot, lower-cased. */
  lemma ExtensionOfSuffix(root: string, t: string)
    requires PosixPath.NonDotBetween(root, RFind(root, '/') + 1, |root|)
    requires |t| > 0 && t[0] == '.'
    requires forall i :: 0 < i < |t| ==> t[i] != '.' && t[i] != '/'
    ensures Extension(root + t) == Lower(t[1..])
  {
    PosixPath.SplitextOfSuffix(root, t);
    DottedSuffix(t);
  }

  /** Lower-casing a suffix and stripping its leading dots removes exactly
      the one dot it starts with. */
  lemma DottedSuffix(t: string)
    requires |t| > 0 && t[0] == '.'
    requires forall i :: 0 < i < |t| ==> t[i] != '.'
    ensures TrimDots(Lower(t)) == Lower(t[1..])
  {
    var lowered := Lower(t);
    assert lowered[1..] == Lower(t[1..]);
    if |t| > 1 {
      LowerKeepsPunctuation(t[1], '.');
    }
    assert TrimDots(lowered) == TrimDots(lowered[1..]);
  }

  /** With records, a path ending in a dotted suffix `t` is written in the
      format the lower-cased suffix names, or that suffix is rejected. */
  lemma SaveOfSuffix<R>(root: string, t: string, results: seq<R>)
    requires PosixPath.NonDotBetween(root, RFind(root, '/') + 1, |root|)
    requires |t| > 0 && t[0] == '.'
    requires forall i :: 0 < i < |t| ==> t[i] != '.' && t[i] != '/'
    requires results != []
    ensures var ext := Lower(t[1..]);
            Save(Some(root + t), results)
            == match FormatFor(ext)
               case Some(f) => Written(Utils.EnsureParentDir(root + t), f)
               case None => Unsupported(Utils.EnsureParentDir(root + t), ext)
  {
    ExtensionOfSuffix(root, t);
    SaveDecision(root + t, results);
  }

  /** With records and a path, `save` is decided by the directory it
      prepares and the extension alone. */
  lemma SaveDecision<R>(p: string, results: seq<R>)
    requires p != "" && results != []
    ensures Save(Some(p), results)
            == match FormatFor(Extension(p))
               case Some(f) => Written(Utils.EnsureParentDir(p), f)
               case None => Unsupported(Utils.EnsureParentDir(p), Extension(p))
  {
  }

  /** `p[dot]` is where `splitext` splits `p`: the last dot, after the last
      slash, with a non-dot character between them. */
  predicate SplitsAt(p: string, dot: int) {
    && 0 <= dot < |p| && RFind(p, '.') == dot && RFind(p, '/') < dot
    && PosixPath.NonDotBetween(p, RFind(p, '/') + 1, dot)
  }

  /** Where `splitext` splits at a dot, the extension is what follows that
      dot, lower-cased. */
  lemma ExtensionAt(p: string, dot: int)
    requires SplitsAt(p, dot)
    ensures Extension(p) == Lower(p[dot + 1..])
  {
    PosixPath.SplitextAt(p, dot);
    var t := p[dot..];
    assert t[1..] == p[dot + 1..];
    forall i | 0 < i < |t| ensures t[i] != '.' { assert t[i] == p[dot + i]; }
    DottedSuffix(t);
  }

  /** `save("data/OUT.CSV")` writes CSV into `data`: the format check ignores case. */
  lemma SaveUpperCaseCsv<R>(results: seq<R>)
    requires results != []
    ensures Save(Some("data/OUT.CSV"), results) == Written(Some("data"), Csv)
  {
    SplitsUpperCaseCsv();
    ExtensionAt("data/OUT.CSV", 8);
    assert Lower("data/OUT.CSV"[9..]) == "csv" by { assert "data/OUT.CSV"[9..] == "CSV"; }
    DataDirectory();
    SaveDecision("data/OUT.CSV", results);
  }

  lemma SplitsUpperCaseCsv()
    ensures SplitsAt("data/OUT.CSV", 8)
  {
    PosixPath.RFindIs("data/OUT.CSV", '.', 8);
    PosixPath.RFindIs("data/OUT.CSV", '/', 4);
    assert "data/OUT.CSV"[5] != '.';
  }

  lemma DataDirectory()
    ensures Utils.EnsureParentDir("data/OUT.CSV") == Some("data")
  {
    assert "data" + "/" + "OUT.CSV" == "data/OUT.CSV";
    Utils.EnsureParentDirOfFile("data", "OUT.CSV");
  }

  /** `save("OUT.CSV")` writes CSV and creates no directory. */
  lemma SaveBareUpperCaseCsv<R>(results: seq<R>)
    requires results != []
    ensures Save(Some("OUT.CSV"), results) == Written(None, Csv)
  {
    SplitsBareUpperCaseCsv();
    ExtensionAt("OUT.CSV", 3);
    assert Lower("OUT.CSV"[4..]) == "csv" by { assert "OUT.CSV"[4..] == "CSV"; }
    assert Utils.EnsureParentDir("OUT.CSV") == None;
    SaveDecision("OUT.CSV", results);
  }

  lemma SplitsBareUpperCaseCsv()
    ensures SplitsAt("OUT.CSV", 3)
  {
    PosixPath.RFindIs("OUT.CSV", '.', 3);
    PosixPath.RFindIs("OUT.CSV", '/', -1);
    assert "OUT.CSV"[0] != '.';
  }

  /** `save("a/b.xlsx")` writes Excel into `a`. */
  lemma SaveExcel<R>(results: seq<R>)
    requires results != []
    ensures Save(Some("a/b.xlsx"), results) == Written(Some("a"), Excel)
  {
    SplitsExcel();
    ExtensionAt("a/b.xlsx", 3);
    assert "a/b.xlsx"[4..] == "xlsx";
    ExcelDirectory();
    SaveDecision("a/b.xlsx", results);
  }

  lemma SplitsExcel()
    ensures SplitsAt("a/b.xlsx", 3)
  {
    PosixPath.RFindIs("a/b.xlsx", '.', 3);
    PosixPath.RFindIs("a/b.xlsx", '/', 1);
    assert "a/b.xlsx"[2] != '.';
  }

  lemma ExcelDirectory()
    ensures Utils.EnsureParentDir("a/b.xlsx") == Some("a")
  {
    assert "a" + "/" + "b.xlsx" == "a/b.xlsx";
    Utils.EnsureParentDirOfFile("a", "b.xlsx");
  }

  /** `save("out.json")` with records raises: JSON is not a supported format. */
  lemma SaveRejectsJson<R>(results: seq<R>)
    requires results != []
    ensures Save(Some("out.json"), results) == Unsupported(None, "json")
  {
    SplitsJson();
    ExtensionAt("out.json", 3);
    assert "out.json"[4..] == "json";
    assert Utils.EnsureParentDir("out.json") == None;
    SaveDecision("out.json", results);
  }

  lemma SplitsJson()
    ensures SplitsAt("out.json", 3)
  {
    PosixPath.RFindIs("out.json", '.', 3);
    PosixPath.RFindIs("out.json", '/', -1);
    assert "out.json"[0] != '.';
  }
}
