/** core/parser.py: the declarative field extractor. The parsed HTML document
    is abstracted as its `select_one` capability: a function from a CSS
    selector to the first matching element, if any. */
module Parser {
  import opened Common
  import opened Strings

  /** A matched element: its text as `get_text(separator=' ', strip=True)`
      returns it (already whitespace-normalised), and its attributes. */
  datatype Element = Element(text: string, attrs: map<string, string>)

  /** `soup.select_one`: the first element matching a selector, if any. */
  type Document = string -> Option<Element>

  /** The Python value a field's rule may be. */
  datatype Rule =
    | NoRule                    // None
    | Css(selector: string)     // a str: text selector, possibly a `||` chain
    | Items(items: seq<string>) // a list or tuple; a pair is (selector, attribute)
    | OtherValue(truthy: bool)  // any other value (a number, ...) with its truthiness

  predicate RuleTruthy(rule: Rule) {
    match rule
    case NoRule => false
    case Css(s) => s != ""
    case Items(xs) => xs != []
    case OtherValue(t) => t
  }

  /** The part of a `||` chain has an element whose text is non-empty. */
  predicate Yields(doc: Document, selector: string) {
    doc(selector).Some? && doc(selector).value.text != ""
  }

  /** Every piece, stripped. */
  function Stripped(pieces: seq<string>): (ss: seq<string>)
    ensures |ss| == |pieces|
    ensures forall k :: 0 <= k < |pieces| ==> ss[k] == Strip(pieces[k])
  {
    seq(|pieces|, k requires 0 <= k < |pieces| => Strip(pieces[k]))
  }

  /** Positions of the non-empty strings of `ss`: increasing, and exactly those. */
  function NonEmptyAt(ss: seq<string>): (idx: seq<nat>)
    ensures forall i :: 0 <= i < |idx| ==> idx[i] < |ss| && ss[idx[i]] != ""
    ensures forall i, j :: 0 <= i < j < |idx| ==> idx[i] < idx[j]
    ensures forall k :: 0 <= k < |ss| && ss[k] != "" ==> k in idx
    decreases |ss|
  {
    if ss == [] then []
    else
      var init := ss[..|ss| - 1];
      var prev := NonEmptyAt(init);
      assert forall i :: 0 <= i < |prev| ==> ss[prev[i]] == init[prev[i]];
      prev + (if ss[|ss| - 1] != "" then [|ss| - 1] else [])
  }

  /** The non-empty strings of `ss`, in order: the `i`-th is the one at the
      `i`-th non-empty position. */
  function Compact(ss: seq<string>): (parts: seq<string>)
    ensures |parts| == |NonEmptyAt(ss)|
    ensures forall i :: 0 <= i < |parts| ==> parts[i] == ss[NonEmptyAt(ss)[i]]
    decreases |ss|
  {
    if ss == [] then []
    else
      var init := ss[..|ss| - 1];
      var prev := Compact(init);
      assert NonEmptyAt(ss) == NonEmptyAt(init) + (if ss[|ss| - 1] != "" then [|ss| - 1] else []);
      assert forall i :: 0 <= i < |prev| ==> ss[NonEmptyAt(init)[i]] == init[NonEmptyAt(init)[i]];
      prev + (if ss[|ss| - 1] != "" then [ss[|ss| - 1]] else [])
  }

  /** `[p.strip() for p in pieces if p.strip()]`: the stripped pieces that are
      not blank, in their original order — the `i`-th part is the `i`-th
      non-blank piece, stripped, and no part is empty. */
  function StripNonEmpty(pieces: seq<string>): (parts: seq<string>)
    ensures |parts| == |NonEmptyAt(Stripped(pieces))|
    ensures forall i :: 0 <= i < |parts| ==>
              parts[i] == Strip(pieces[NonEmptyAt(Stripped(pieces))[i]]) && parts[i] != ""
  {
    Compact(Stripped(pieces))
  }

  lemma {:induction false} CompactConcat(a: seq<string>, b: seq<string>)
    ensures Compact(a + b) == Compact(a) + Compact(b)
    decreases |b|
  {
    if b == [] {
      assert a + b == a;
    } else {
      assert (a + b)[..|a + b| - 1] == a + b[..|b| - 1];
      CompactConcat(a, b[..|b| - 1]);
    }
  }

  lemma StrippedConcat(a: seq<string>, b: seq<string>)
    ensures Stripped(a + b) == Stripped(a) + Stripped(b)
  {
    var l := Stripped(a + b);
    var r := Stripped(a) + Stripped(b);
    forall k | 0 <= k < |a + b| ensures l[k] == r[k] {
      if k < |a| {
        assert (a + b)[k] == a[k] && r[k] == Stripped(a)[k];
      } else {
        assert (a + b)[k] == b[k - |a|] && r[k] == Stripped(b)[k - |a|];
      }
    }
    assert |l| == |r|;
  }

  /** Filtering distributes over concatenation... */
  lemma StripNonEmptyConcat(a: seq<string>, b: seq<string>)
    ensures StripNonEmpty(a + b) == StripNonEmpty(a) + StripNonEmpty(b)
  {
    StrippedConcat(a, b);
    CompactConcat(Stripped(a), Stripped(b));
  }

  /** ... and keeps a single piece exactly when it is not blank, stripped. */
  lemma StripNonEmptySingle(p: string)
    ensures StripNonEmpty([p]) == if Strip(p) == "" then [] else [Strip(p)]
  {
    assert Stripped([p]) == [Strip(p)];
    assert [Strip(p)][..0] == [];
  }

  /** Pieces that are already stripped and non-empty are all kept, unchanged. */
  lemma {:induction false} CompactAllNonEmpty(ss: seq<string>)
    requires forall k :: 0 <= k < |ss| ==> ss[k] != ""
    ensures Compact(ss) == ss
    decreases |ss|
  {
    if ss != [] {
      var init := ss[..|ss| - 1];
      CompactAllNonEmpty(init);
      assert Compact(ss) == Compact(init) + [ss[|ss| - 1]];
      assert init + [ss[|ss| - 1]] == ss;
    }
  }

  lemma StripNonEmptyKeepsStripped(pieces: seq<string>)
    requires forall k :: 0 <= k < |pieces| ==> Strip(pieces[k]) == pieces[k] != ""
    ensures StripNonEmpty(pieces) == pieces
  {
    assert Stripped(pieces) == pieces;
    CompactAllNonEmpty(pieces);
  }

  /** The parts kept from delimiter-free pieces are stripped and delimiter-free. */
  lemma StripNonEmptyPartsClean(pieces: seq<string>)
    requires forall k :: 0 <= k < |pieces| ==> !HasBars(pieces[k])
    ensures forall i :: 0 <= i < |StripNonEmpty(pieces)| ==>
              Strip(StripNonEmpty(pieces)[i]) == StripNonEmpty(pieces)[i]
              && !HasBars(StripNonEmpty(pieces)[i])
  {
    var parts := StripNonEmpty(pieces);
    forall i | 0 <= i < |parts| ensures Strip(parts[i]) == parts[i] && !HasBars(parts[i]) {
      var piece := pieces[NonEmptyAt(Stripped(pieces))[i]];
      StripIdempotent(piece);
      StripKeepsNoBars(piece);
    }
  }

  /** The candidate selectors of a text rule. Without `||` the rule itself is
      the one candidate, unstripped. With it, the candidates are the pieces of
      the split that are not blank, stripped, in declared order; each is then
      non-empty, already stripped and free of the delimiter. */
  function FallbackParts(rule: string): (parts: seq<string>)
    ensures !HasBars(rule) ==> parts == [rule]
    ensures HasBars(rule) ==>
              && |parts| == |NonEmptyAt(Stripped(SplitBars(rule)))|
              && forall i :: 0 <= i < |parts| ==>
                   parts[i] == Strip(SplitBars(rule)[NonEmptyAt(Stripped(SplitBars(rule)))[i]])
    ensures HasBars(rule) ==>
              forall i :: 0 <= i < |parts| ==>
                parts[i] != "" && Strip(parts[i]) == parts[i] && !HasBars(parts[i])
  {
    if HasBars(rule) then
      var pieces := SplitBars(rule);
      var parts := StripNonEmpty(pieces);
      SplitBarsPiecesHaveNoBars(rule);
      StripNonEmptyPartsClean(pieces);
      parts
    else [rule]
  }

  /** Index of the first part whose element has non-empty text, or `|parts|`. */
  function FirstYielding(doc: Document, parts: seq<string>): (k: nat)
    ensures k <= |parts|
    ensures forall j :: 0 <= j < k ==> !Yields(doc, parts[j])
    ensures k < |parts| ==> Yields(doc, parts[k])
  {
    if parts == [] then 0
    else if Yields(doc, parts[0]) then 0
    else 1 + FirstYielding(doc, parts[1..])
  }

  /** The value of a text rule: the text of the first part that yields
      non-empty text, later parts unconsulted; `None` when none does. */
  function ExtractText(doc: Document, parts: seq<string>): (v: Option<string>)
    ensures v.None? <==> forall j :: 0 <= j < |parts| ==> !Yields(doc, parts[j])
    ensures v.Some? ==> v.value != ""
    ensures forall k :: 0 <= k < |parts| && Yields(doc, parts[k])
              && (forall j :: 0 <= j < k ==> !Yields(doc, parts[j]))
              ==> v == Some(doc(parts[k]).value.text)
  {
    var k := FirstYielding(doc, parts);
    assert forall k' :: (0 <= k' < |parts| && Yields(doc, parts[k'])
                         && (forall j :: 0 <= j < k' ==> !Yields(doc, parts[j]))) ==> k' == k;
    if k < |parts| then Some(doc(parts[k]).value.text) else None
  }

  /** The value of an attribute rule: the attribute of the first element
      matching the one selector, or `None`; no other selector is tried. */
  function ExtractAttribute(doc: Document, selector: string, attr: string): (v: Option<string>)
    ensures v.Some? <==> doc(selector).Some? && attr in doc(selector).value.attrs
    ensures v.Some? ==> v.value == doc(selector).value.attrs[attr]
  {
    match doc(selector)
    case None => None
    case Some(e) => if attr in e.attrs then Some(e.attrs[attr]) else None
  }

  /** One field's value under `extract_fields`' dispatch on the rule shape:
      falsy rule, (selector, attribute) pair, text rule, anything else. */
  function ExtractRule(doc: Document, rule: Rule): (v: Option<string>)
    ensures !RuleTruthy(rule) ==> v.None?
    ensures rule.Items? && |rule.items| == 2 ==>
              v == ExtractAttribute(doc, rule.items[0], rule.items[1])
    ensures rule.Css? && rule.selector != "" ==> v == ExtractText(doc, FallbackParts(rule.selector))
    ensures rule.Items? && |rule.items| != 2 ==> v.None?
    ensures rule.OtherValue? ==> v.None?
  {
    if !RuleTruthy(rule) then None
    else match rule
      case Items(xs) => if |xs| == 2 then ExtractAttribute(doc, xs[0], xs[1]) else None
      case Css(s) => ExtractText(doc, FallbackParts(s))
      case _ => None
  }

  /** `extract_fields(html, selectors)`: one entry per field of `selectors`
      (none when `selectors` is `None`), each the value of that field's rule. */
  function ExtractFields(doc: Document, selectors: Option<map<string, Rule>>)
    : (out: map<string, Option<string>>)
    ensures selectors.None? ==> out == map[]
    ensures selectors.Some? ==> out.Keys == selectors.value.Keys
    ensures selectors.Some? ==>
              forall f :: f in out ==> out[f] == ExtractRule(doc, selectors.value[f])
  {
    match selectors
    case None => map[]
    case Some(rules) => map f | f in rules :: ExtractRule(doc, rules[f])
  }

  /** A missing element never raises: a field whose selectors match nothing
      extracts as `None`, whatever the rule's shape. */
  lemma NoMatchGivesNone(doc: Document, rule: Rule)
    requires forall s :: doc(s).None?
    ensures ExtractRule(doc, rule).None?
  {
  }

  /** A rule written as two or more bar-free selectors joined by `||` is
      tried as exactly those selectors, stripped, empty ones dropped, in order. */
  lemma {:induction false} ChainOfPieces(pieces: seq<string>)
    requires |pieces| >= 2
    requires forall k :: 0 <= k < |pieces| ==> BarFree(pieces[k])
    ensures FallbackParts(JoinBars(pieces)) == StripNonEmpty(pieces)
  {
    var rule := JoinBars(pieces);
    var head := pieces[0];
    assert rule == head + "||" + JoinBars(pieces[1..]);
    assert rule[|head|] == '|' && rule[|head| + 1] == '|';
    forall k | 0 <= k < |pieces| ensures CutPiece(pieces[k]) {
      BarFreeIsCut(pieces[k]);
    }
    JoinBarsSplit(pieces);
  }

  /** First non-empty wins, in declared order: in `a||b||c`, when `a` matches
      an element whose normalised text is empty and `b` matches one with text,
      the field is `b`'s text and `c` is never consulted. */
  lemma ChainFallsThrough(doc: Document, a: string, b: string, c: string)
    requires BarFree(a) && BarFree(b) && BarFree(c)
    requires Strip(a) == a != "" && Strip(b) == b != "" && Strip(c) == c != ""
    requires doc(a).Some? && doc(a).value.text == ""
    requires doc(b).Some? && doc(b).value.text != ""
    ensures ExtractRule(doc, Css(a + "||" + b + "||" + c)) == Some(doc(b).value.text)
  {
    JoinThree(a, b, c);
    CleanChain([a, b, c]);
    FirstOfThree(doc, a, b, c);
  }

  /** A chain of stripped, non-empty, bar-free selectors is tried as exactly
      those selectors. */
  lemma CleanChain(pieces: seq<string>)
    requires |pieces| >= 2
    requires forall k :: 0 <= k < |pieces| ==> BarFree(pieces[k])
    requires forall k :: 0 <= k < |pieces| ==> Strip(pieces[k]) == pieces[k] != ""
    ensures FallbackParts(JoinBars(pieces)) == pieces
  {
    ChainOfPieces(pieces);
    StripNonEmptyKeepsStripped(pieces);
  }

  lemma JoinThree(a: string, b: string, c: string)
    ensures JoinBars([a, b, c]) == a + "||" + b + "||" + c
  {
    assert [a, b, c][1..] == [b, c];
    assert [b, c][1..] == [c];
    assert JoinBars([c]) == c;
    assert JoinBars([b, c]) == b + "||" + c;
    assert JoinBars([a, b, c]) == a + "||" + (b + "||" + c);
  }

  lemma FirstOfThree(doc: Document, a: string, b: string, c: string)
    requires doc(a).Some? && doc(a).value.text == ""
    requires doc(b).Some? && doc(b).value.text != ""
    ensures ExtractText(doc, [a, b, c]) == Some(doc(b).value.text)
  {
    assert !Yields(doc, [a, b, c][0]) && Yields(doc, [a, b, c][1]);
  }

  /** The documented example: a title by text and a PDF link by attribute. */
  lemma DocumentedExample(doc: Document)
    requires doc("h1.node-title") == Some(Element("Case A", map[]))
    requires doc("a.download") == Some(Element("dl", map["href" := "/f.pdf"]))
    ensures ExtractFields(doc, Some(map["title" := Css("h1.node-title"),
                                        "pdf" := Items(["a.download", "href"])]))
            == map["title" := Some("Case A"), "pdf" := Some("/f.pdf")]
  {
    var sels := map["title" := Css("h1.node-title"), "pdf" := Items(["a.download", "href"])];
    assert !HasBars("h1.node-title") by { assert BarFree("h1.node-title"); }
    SingleSelector(doc, "h1.node-title");
    var out := ExtractFields(doc, Some(sels));
    assert out["title"] == Some("Case A");
    assert out["pdf"] == Some("/f.pdf");
  }

  /** A text rule without `||` is looked up as written, as its one candidate;
      a single bar, as in a namespace selector, does not split it. */
  lemma SingleSelector(doc: Document, sel: string)
    requires sel != "" && !HasBars(sel)
    ensures ExtractRule(doc, Css(sel))
            == if Yields(doc, sel) then Some(doc(sel).value.text) else None
  {
    assert FallbackParts(sel) == [sel];
  }

  /** The namespace selector `svg|a` is one selector, not a fallback chain. */
  lemma NamespaceSelector(doc: Document)
    ensures ExtractRule(doc, Css("svg|a"))
            == if Yields(doc, "svg|a") then Some(doc("svg|a").value.text) else None
  {
    var sel := "svg|a";
    assert !HasBars(sel) by {
      forall i | 0 <= i < |sel| - 1 ensures !(sel[i] == '|' && sel[i + 1] == '|') {
        assert sel[i] != '|' || sel[i + 1] != '|';
      }
    }
    SingleSelector(doc, sel);
  }
}
