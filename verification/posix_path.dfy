/** The two `os.path` functions the crawler uses, as they behave on POSIX
    systems (only `/` separates path components). */
module PosixPath {
  import opened Strings

  /** Some character of `p[lo..hi]` is not a dot. */
  predicate NonDotBetween(p: string, lo: int, hi: int)
    requires 0 <= lo <= hi <= |p|
  {
    exists i :: lo <= i < hi && p[i] != '.'
  }

  predicate AllSlashes(s: string) {
    forall i :: 0 <= i < |s| ==> s[i] == '/'
  }

  /** `os.path.splitext(p)`: splits off the extension, the part from the last
      dot of the last path component onwards, unless that dot only continues
      a run of leading dots (`.bashrc`, `..`). The two parts rejoin to `p`;
      a non-empty extension is one dot followed by neither a dot nor a slash. */
  function Splitext(p: string): (parts: (string, string))
    ensures parts.0 + parts.1 == p
    ensures parts.1 != [] ==> parts.1[0] == '.'
    ensures forall i :: 0 < i < |parts.1| ==> parts.1[i] != '.' && parts.1[i] != '/'
  {
    var sepIndex := RFind(p, '/');
    var dotIndex := RFind(p, '.');
    if dotIndex > sepIndex && NonDotBetween(p, sepIndex + 1, dotIndex) then
      (p[..dotIndex], p[dotIndex..])
    else
      (p, "")
  }

  /** `s.rstrip('/')` */
  function TrimSlashes(s: string): (r: string)
    ensures |r| <= |s| && r == s[..|r|]
    ensures forall i :: |r| <= i < |s| ==> s[i] == '/'
    ensures r != [] ==> r[|r| - 1] != '/'
  {
    if |s| > 0 && s[|s| - 1] == '/' then TrimSlashes(s[..|s| - 1]) else s
  }

  /** `os.path.dirname(p)`: everything up to the last slash, with trailing
      slashes removed unless the head consists of slashes only. */
  function Dirname(p: string): (d: string)
    ensures |d| <= |p| && d == p[..|d|]
    ensures (forall i :: 0 <= i < |p| ==> p[i] != '/') ==> d == ""
  {
    var head := p[..RFind(p, '/') + 1];
    if head != "" && !AllSlashes(head) then TrimSlashes(head) else head
  }

  /** A path with a slash has a non-empty dirname, which stops at or before
      the last slash with only slashes between its end and that slash. */
  lemma DirnameWithSlash(p: string)
    requires exists i :: 0 <= i < |p| && p[i] == '/'
    ensures Dirname(p) != ""
    ensures |Dirname(p)| <= RFind(p, '/') + 1
    ensures forall i :: |Dirname(p)| <= i <= RFind(p, '/') ==> p[i] == '/'
  {
    var k := RFind(p, '/');
    var i :| 0 <= i < |p| && p[i] == '/';
    assert k >= i;
    var head := p[..k + 1];
    assert head[k] == '/';
    if !AllSlashes(head) {
      var j :| 0 <= j < |head| && head[j] != '/';
      assert |TrimSlashes(head)| > j;
    }
  }

  /** Dirname undoes joining a directory and a file name: for a directory
      `d` that does not end in a slash, `dirname(d + "/" + name) == d`. */
  lemma DirnameOfJoin(d: string, name: string)
    requires d != "" && d[|d| - 1] != '/'
    requires forall i :: 0 <= i < |name| ==> name[i] != '/'
    ensures Dirname(d + "/" + name) == d
  {
    var p := d + "/" + name;
    var k := RFind(p, '/');
    assert p[|d|] == '/';
    assert k == |d|;
    var head := p[..k + 1];
    assert head == d + "/";
    assert !AllSlashes(head) by {
      assert head[|d| - 1] == d[|d| - 1];
    }
    assert TrimSlashes(head) == TrimSlashes(d);
  }

  /** A path under the root: `dirname("/" + name) == "/"`. */
  lemma DirnameAtRoot(name: string)
    requires forall i :: 0 <= i < |name| ==> name[i] != '/'
    ensures Dirname("/" + name) == "/"
  {
    var p := "/" + name;
    var k := RFind(p, '/');
    assert p[0] == '/';
    assert k == 0;
    assert p[..1] == "/";
  }

  // ---------------------------------------------------------------------
  // When splitext finds an extension
  // ---------------------------------------------------------------------

  /** `p[k]` is a dot that can start an extension: a character other than a
      dot precedes it at `j` within the last path component. */
  predicate ExtensionDot(p: string, j: int, k: int) {
    && 0 <= j < k < |p| && p[j] != '.' && p[k] == '.'
    && forall i :: j <= i < |p| ==> p[i] != '/'
  }

  /** `splitext` splits off a non-empty extension exactly when the last path
      component has a dot after some non-dot character, and the extension
      then starts at the last dot of `p`. */
  lemma SplitextFindsExtension(p: string)
    ensures Splitext(p).1 != "" <==> exists j, k :: ExtensionDot(p, j, k)
    ensures Splitext(p).1 != "" ==> |Splitext(p).0| == RFind(p, '.')
  {
    var sepIndex := RFind(p, '/');
    var dotIndex := RFind(p, '.');
    if exists j, k :: ExtensionDot(p, j, k) {
      var j, k :| ExtensionDot(p, j, k);
      assert sepIndex < j;
      assert dotIndex >= k;
      assert NonDotBetween(p, sepIndex + 1, dotIndex);
    }
    if Splitext(p).1 != "" {
      var j :| sepIndex + 1 <= j < dotIndex && p[j] != '.';
      assert ExtensionDot(p, j, dotIndex);
    }
  }

  /** Appending characters other than `c` leaves the last `c` where it was. */
  lemma RFindAppend(a: string, b: string, c: char)
    requires forall i :: 0 <= i < |b| ==> b[i] != c
    ensures RFind(a + b, c) == RFind(a, c)
  {
    var s := a + b;
    var r := RFind(a, c);
    forall j | r < j < |s| ensures s[j] != c {
      if j < |a| { assert s[j] == a[j]; } else { assert s[j] == b[j - |a|]; }
    }
    if r >= 0 { assert s[r] == a[r]; }
    RFindIs(s, c, r);
  }

  /** The last occurrence is the one with no occurrence after it. */
  lemma RFindIs(s: string, c: char, r: int)
    requires -1 <= r < |s| && (r >= 0 ==> s[r] == c)
    requires forall j :: r < j < |s| ==> s[j] != c
    ensures RFind(s, c) == r
  {
  }

  /** A stem whose last component holds a non-dot character, followed by a
      suffix made of one dot and then neither dots nor slashes, splits into
      exactly that stem and that suffix. */
  lemma SplitextOfSuffix(root: string, t: string)
    requires NonDotBetween(root, RFind(root, '/') + 1, |root|)
    requires |t| > 0 && t[0] == '.'
    requires forall i :: 0 < i < |t| ==> t[i] != '.' && t[i] != '/'
    ensures Splitext(root + t) == (root, t)
  {
    assert RFind(root + t, '.') == |root| by {
      var p := root + t;
      forall j | |root| < j < |p| ensures p[j] != '.' { assert p[j] == t[j - |root|]; }
      RFindIs(p, '.', |root|);
    }
    assert RFind(root + t, '/') == RFind(root, '/') by {
      RFindAppend(root, t, '/');
    }
    assert NonDotBetween(root + t, RFind(root, '/') + 1, |root|) by {
      var i :| RFind(root, '/') + 1 <= i < |root| && root[i] != '.';
      assert (root + t)[i] == root[i];
    }
    SplitextOfJoin(root, t);
  }

  lemma SplitextOfJoin(root: string, t: string)
    requires |t| > 0
    requires RFind(root + t, '.') == |root|
    requires RFind(root + t, '/') < |root|
    requires NonDotBetween(root + t, RFind(root + t, '/') + 1, |root|)
    ensures Splitext(root + t) == (root, t)
  {
    var p := root + t;
    SplitextAt(p, |root|);
    assert p[..|root|] == root;
    assert p[|root|..] == t;
  }

  /** Where the last dot follows the last slash with a non-dot character
      between them, `splitext` splits at that dot. */
  lemma SplitextAt(p: string, dot: int)
    requires 0 <= dot < |p| && RFind(p, '.') == dot && RFind(p, '/') < dot
    requires NonDotBetween(p, RFind(p, '/') + 1, dot)
    ensures Splitext(p) == (p[..dot], p[dot..])
  {
  }

  // ---------------------------------------------------------------------
  // Case folding commutes with splitext
  // ---------------------------------------------------------------------

  lemma {:induction false} RFindLower(s: string, c: char)
    requires c == '.' || c == '/'
    ensures RFind(Lower(s), c) == RFind(s, c)
    decreases |s|
  {
    if |s| > 0 {
      LowerKeepsPunctuation(s[|s| - 1], c);
      assert Lower(s)[..|s| - 1] == Lower(s[..|s| - 1]);
      RFindLower(s[..|s| - 1], c);
    }
  }

  /** Lower-casing a path lower-cases its extension and nothing else about the split. */
  lemma SplitextLower(p: string)
    ensures Splitext(Lower(p)).1 == Lower(Splitext(p).1)
  {
    var q := Lower(p);
    RFindLower(p, '/');
    RFindLower(p, '.');
    var sepIndex := RFind(p, '/');
    var dotIndex := RFind(p, '.');
    if dotIndex > sepIndex {
      forall i | sepIndex + 1 <= i < dotIndex ensures p[i] == '.' <==> q[i] == '.' {
        LowerKeepsPunctuation(p[i], '.');
      }
      assert NonDotBetween(p, sepIndex + 1, dotIndex) <==> NonDotBetween(q, sepIndex + 1, dotIndex);
      assert q[dotIndex..] == Lower(p[dotIndex..]);
    }
  }
}
