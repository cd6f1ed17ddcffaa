/** The few Python `str` operations the crawler relies on, over `seq<char>`:
    `rfind` of one character, `lower()`, `strip()`, `lstrip('.')`,
    and `split('||')` with its inverse `'||'.join`. */
module Strings {

  /** Index of the last occurrence of `c` in `s`, or -1 (Python's `s.rfind(c)`). */
  function RFind(s: string, c: char): (r: int)
    ensures -1 <= r < |s|
    ensures r >= 0 ==> s[r] == c
    ensures forall j :: r < j < |s| ==> s[j] != c
  {
    if |s| == 0 then -1
    else if s[|s| - 1] == c then |s| - 1
    else RFind(s[..|s| - 1], c)
  }

  // ---------------------------------------------------------------------
  // Case folding
  // ---------------------------------------------------------------------

  function LowerChar(c: char): char {
    if 'A' <= c <= 'Z' then (c as int + 32) as char else c
  }

  /** `s.lower()` restricted to ASCII letters. */
  function Lower(s: string): (r: string)
    ensures |r| == |s|
    ensures forall i :: 0 <= i < |s| ==> r[i] == LowerChar(s[i])
  {
    seq(|s|, i requires 0 <= i < |s| => LowerChar(s[i]))
  }

  /** Lower-casing touches only letters: it never creates or removes a dot or a slash. */
  lemma LowerKeepsPunctuation(c: char, d: char)
    requires d == '.' || d == '/'
    ensures LowerChar(c) == d <==> c == d
  {
  }

  lemma LowerIdempotent(s: string)
    ensures Lower(Lower(s)) == Lower(s)
  {
  }

  // ---------------------------------------------------------------------
  // Whitespace stripping
  // ---------------------------------------------------------------------

  /** Python's `str.isspace` on the ASCII and Latin-1 range. */
  predicate IsSpace(c: char) {
    c == ' ' || ('\t' <= c <= '\r') || ('\U{1C}' <= c <= '\U{1F}')
    || c == '\U{85}' || c == '\U{A0}'
  }

  /** `s.lstrip()`: the suffix left after removing leading whitespace. */
  function TrimStart(s: string): (r: string)
    ensures |r| <= |s| && r == s[|s| - |r|..]
    ensures forall i :: 0 <= i < |s| - |r| ==> IsSpace(s[i])
    ensures r != [] ==> !IsSpace(r[0])
  {
    if |s| > 0 && IsSpace(s[0]) then TrimStart(s[1..]) else s
  }

  /** `s.rstrip()`: the prefix left after removing trailing whitespace. */
  function TrimEnd(s: string): (r: string)
    ensures |r| <= |s| && r == s[..|r|]
    ensures forall i :: |r| <= i < |s| ==> IsSpace(s[i])
    ensures r != [] ==> !IsSpace(r[|r| - 1])
  {
    if |s| > 0 && IsSpace(s[|s| - 1]) then TrimEnd(s[..|s| - 1]) else s
  }

  /** `s.strip()`: the middle of `s` left once leading and trailing whitespace
      is removed; empty exactly when `s` is all whitespace, and otherwise
      bounded by non-whitespace characters on both sides. */
  function Strip(s: string): (r: string)
    ensures r == [] <==> forall i :: 0 <= i < |s| ==> IsSpace(s[i])
    ensures r != [] ==> !IsSpace(r[0]) && !IsSpace(r[|r| - 1])
  {
    var t := TrimStart(s);
    var r := TrimEnd(t);
    assert r == [] ==> t == [];
    assert r != [] ==> !IsSpace(r[0]) by {
      if r != [] {
        assert r[0] == t[0];
      }
    }
    r
  }

  /** What `strip()` keeps is a slice of its input with only whitespace
      around it: it never invents, reorders or drops inner characters. */
  lemma StripIsSlice(s: string)
    ensures StrippedAt(s, Strip(s), |s| - |TrimStart(s)|)
  {
    TrimBothEnds(s);
  }

  lemma TrimBothEnds(s: string)
    ensures StrippedAt(s, TrimEnd(TrimStart(s)), |s| - |TrimStart(s)|)
  {
    var t := TrimStart(s);
    var r := TrimEnd(t);
    assert |t| <= |s| && t == s[|s| - |t|..];
    assert forall k :: 0 <= k < |s| - |t| ==> IsSpace(s[k]);
    assert |r| <= |t| && r == t[..|r|];
    assert forall k :: |r| <= k < |t| ==> IsSpace(t[k]);
    SliceOfSuffix(s, t, r);
  }

  /** A whitespace-bounded prefix `r` of a whitespace-bounded suffix `t` of `s`. */
  lemma SliceOfSuffix(s: string, t: string, r: string)
    requires |t| <= |s| && t == s[|s| - |t|..]
    requires forall k :: 0 <= k < |s| - |t| ==> IsSpace(s[k])
    requires |r| <= |t| && r == t[..|r|]
    requires forall k :: |r| <= k < |t| ==> IsSpace(t[k])
    ensures StrippedAt(s, r, |s| - |t|)
  {
    var i := |s| - |t|;
    assert r == s[i..i + |r|];
    forall k | i + |r| <= k < |s| ensures IsSpace(s[k]) {
      assert s[k] == t[k - i];
    }
  }

  /** `r` is the slice of `s` starting at `i`, with only whitespace around it. */
  predicate StrippedAt(s: string, r: string, i: int) {
    && 0 <= i && i + |r| <= |s| && r == s[i..i + |r|]
    && (forall k :: 0 <= k < i ==> IsSpace(s[k]))
    && (forall k :: i + |r| <= k < |s| ==> IsSpace(s[k]))
  }

  /** Stripping twice strips nothing more. */
  lemma StripIdempotent(s: string)
    ensures Strip(Strip(s)) == Strip(s)
  {
    var r := Strip(s);
    if r != [] {
      assert TrimStart(r) == r;
      assert TrimEnd(r) == r;
    }
  }

  /** The delimiter survives stripping only if it was there before. */
  lemma StripKeepsNoBars(s: string)
    requires !HasBars(s)
    ensures !HasBars(Strip(s))
  {
    var r := Strip(s);
    var i := |s| - |TrimStart(s)|;
    StripIsSlice(s);
    forall m | 0 <= m < |r| - 1 ensures !(r[m] == '|' && r[m + 1] == '|') {
      assert r[m] == s[i + m] && r[m + 1] == s[i + m + 1];
    }
  }

  /** `s.lstrip('.')`: the suffix left after removing every leading dot. */
  function TrimDots(s: string): (r: string)
    ensures |r| <= |s| && r == s[|s| - |r|..]
    ensures forall i :: 0 <= i < |s| - |r| ==> s[i] == '.'
    ensures r != [] ==> r[0] != '.'
  {
    if |s| > 0 && s[0] == '.' then TrimDots(s[1..]) else s
  }

  // ---------------------------------------------------------------------
  // Splitting on the "||" delimiter
  // ---------------------------------------------------------------------

  /** `"||" in s` */
  predicate HasBars(s: string) {
    exists i :: 0 <= i < |s| - 1 && s[i] == '|' && s[i + 1] == '|'
  }

  /** `s.split('||')`: the pieces between successive non-overlapping
      occurrences of `||`, found left to right. */
  function SplitBars(s: string): (parts: seq<string>)
    ensures |parts| >= 1
    decreases |s|
  {
    if |s| < 2 then [s]
    else if s[0] == '|' && s[1] == '|' then [""] + SplitBars(s[2..])
    else
      var rest := SplitBars(s[1..]);
      [[s[0]] + rest[0]] + rest[1..]
  }

  /** `'||'.join(parts)` */
  function JoinBars(parts: seq<string>): string
    requires |parts| >= 1
  {
    if |parts| == 1 then parts[0] else parts[0] + "||" + JoinBars(parts[1..])
  }

  /** Splitting loses nothing: joining the pieces back gives the input. */
  lemma {:induction false} SplitBarsJoin(s: string)
    ensures JoinBars(SplitBars(s)) == s
    decreases |s|
  {
    if |s| < 2 {
    } else if s[0] == '|' && s[1] == '|' {
      var rest := SplitBars(s[2..]);
      SplitBarsJoin(s[2..]);
      assert SplitBars(s) == [""] + rest;
      assert JoinBars([""] + rest) == "" + "||" + JoinBars(rest);
      assert s == "||" + s[2..];
    } else {
      var rest := SplitBars(s[1..]);
      var parts := SplitBars(s);
      SplitBarsJoin(s[1..]);
      assert parts == [[s[0]] + rest[0]] + rest[1..];
      assert parts[0] == [s[0]] + rest[0] && parts[1..] == rest[1..];
      JoinBarsCons(s[0], parts, rest);
      assert s == [s[0]] + s[1..];
    }
  }

  /** Prepending a character to the first piece prepends it to the join. */
  lemma JoinBarsCons(c: char, parts: seq<string>, rest: seq<string>)
    requires |parts| == |rest| >= 1
    requires parts[0] == [c] + rest[0] && parts[1..] == rest[1..]
    ensures JoinBars(parts) == [c] + JoinBars(rest)
  {
    if |rest| > 1 {
      var tail := JoinTail(rest[1..]);
      JoinStep(parts);
      JoinStep(rest);
      assert ([c] + rest[0]) + tail == [c] + (rest[0] + tail);
    }
  }

  /** The delimiter followed by the join of the remaining pieces. */
  function JoinTail(parts: seq<string>): string
    requires |parts| >= 1
  {
    "||" + JoinBars(parts)
  }

  lemma JoinStep(parts: seq<string>)
    requires |parts| > 1
    ensures JoinBars(parts) == parts[0] + JoinTail(parts[1..])
  {
  }

  /** No piece of a split still contains the delimiter. */
  lemma {:induction false} SplitBarsPiecesHaveNoBars(s: string)
    ensures forall k :: 0 <= k < |SplitBars(s)| ==> !HasBars(SplitBars(s)[k])
    decreases |s|
  {
    var parts := SplitBars(s);
    if |s| < 2 {
      forall k | 0 <= k < |parts| ensures !HasBars(parts[k]) {
        assert parts[k] == s;
      }
    } else if s[0] == '|' && s[1] == '|' {
      SplitBarsPiecesHaveNoBars(s[2..]);
      forall k | 0 <= k < |parts| ensures !HasBars(parts[k]) {
        if k > 0 {
          assert parts[k] == SplitBars(s[2..])[k - 1];
        }
      }
    } else {
      var rest := SplitBars(s[1..]);
      SplitBarsPiecesHaveNoBars(s[1..]);
      forall k | 0 <= k < |parts| ensures !HasBars(parts[k]) {
        if k > 0 {
          assert parts[k] == rest[k];
        } else {
          FirstPieceHasNoBars(s);
        }
      }
    }
  }

  /** The first piece holds no `||`. */
  lemma {:induction false} FirstPieceHasNoBars(s: string)
    ensures !HasBars(SplitBars(s)[0])
    decreases |s|
  {
    var p := SplitBars(s)[0];
    if |s| < 2 {
    } else if s[0] == '|' && s[1] == '|' {
      assert p == "";
    } else {
      var rest := SplitBars(s[1..]);
      FirstPieceHasNoBars(s[1..]);
      assert p == [s[0]] + rest[0];
      forall i | 0 <= i < |p| - 1 ensures !(p[i] == '|' && p[i + 1] == '|') {
        if i == 0 {
          FirstPieceStartsAfterBars(s[1..]);
        } else {
          assert p[i] == rest[0][i - 1] && p[i + 1] == rest[0][i];
        }
      }
    }
  }

  /** A non-empty first piece starts with the first character of the input. */
  lemma {:induction false} FirstPieceStartsAfterBars(s: string)
    requires |SplitBars(s)[0]| > 0
    ensures SplitBars(s)[0][0] == s[0]
    decreases |s|
  {
    if |s| < 2 {
    } else if s[0] == '|' && s[1] == '|' {
    } else {
    }
  }

  predicate BarFree(s: string) {
    forall i :: 0 <= i < |s| ==> s[i] != '|'
  }

  /** A piece that `split` can cut off before a delimiter: it holds no `||`,
      and it does not end in `|`, which would make the cut start one
      character earlier. */
  predicate CutPiece(x: string) {
    !HasBars(x) && (x == [] || x[|x| - 1] != '|')
  }

  /** Every piece but the last is one `split` can cut off: the scan takes the
      leftmost `||`, so a piece before a delimiter never ends in `|`. */
  lemma {:induction false} SplitBarsCutsLeftmost(s: string)
    ensures forall k :: 0 <= k < |SplitBars(s)| - 1 ==> CutPiece(SplitBars(s)[k])
    decreases |s|
  {
    var parts := SplitBars(s);
    if |s| < 2 {
    } else if s[0] == '|' && s[1] == '|' {
      var rest := SplitBars(s[2..]);
      SplitBarsCutsLeftmost(s[2..]);
      assert parts == [""] + rest;
      forall k | 0 <= k < |parts| - 1 ensures CutPiece(parts[k]) {
        if k > 0 {
          assert parts[k] == rest[k - 1];
        }
      }
    } else {
      var rest := SplitBars(s[1..]);
      SplitBarsCutsLeftmost(s[1..]);
      assert parts == [[s[0]] + rest[0]] + rest[1..];
      if |parts| >= 2 {
        assert CutPiece(parts[0]) by {
          FirstPieceHasNoBars(s);
          if rest[0] == [] {
            SplitBarsStartsWithCut(s[1..]);
          } else {
            assert parts[0][|parts[0]| - 1] == rest[0][|rest[0]| - 1];
          }
        }
      }
      forall k | 0 < k < |parts| - 1 ensures CutPiece(parts[k]) {
        assert parts[k] == rest[k];
      }
    }
  }

  /** When the first piece is empty and followed by a delimiter, the input
      starts with that delimiter. */
  lemma {:induction false} SplitBarsStartsWithCut(s: string)
    requires |SplitBars(s)| >= 2 && SplitBars(s)[0] == []
    ensures |s| >= 2 && s[0] == '|' && s[1] == '|'
    decreases |s|
  {
  }

  /** A string without `||` is its own single piece. */
  lemma {:induction false} SplitBarsWithoutBar(y: string)
    requires !HasBars(y)
    ensures SplitBars(y) == [y]
    decreases |y|
  {
    if |y| >= 2 {
      assert !(y[0] == '|' && y[1] == '|');
      assert !HasBars(y[1..]) by {
        forall i | 0 <= i < |y[1..]| - 1 ensures !(y[1..][i] == '|' && y[1..][i + 1] == '|') {
          assert y[1..][i] == y[i + 1] && y[1..][i + 1] == y[i + 2];
        }
      }
      SplitBarsWithoutBar(y[1..]);
      assert [y[0]] + y[1..] == y;
    }
  }

  /** A piece `split` can cut off, followed by the delimiter, is split off first. */
  lemma {:induction false} SplitBarsAfter(x: string, y: string)
    requires CutPiece(x)
    ensures SplitBars(x + "||" + y) == [x] + SplitBars(y)
    decreases |x|
  {
    var s := x + "||" + y;
    if x == [] {
      assert s[2..] == y;
    } else {
      assert s[0] == x[0];
      assert s[1] == if |x| >= 2 then x[1] else '|';
      assert !(s[0] == '|' && s[1] == '|');
      assert s[1..] == x[1..] + "||" + y;
      assert CutPiece(x[1..]) by {
        forall i | 0 <= i < |x[1..]| - 1 ensures !(x[1..][i] == '|' && x[1..][i + 1] == '|') {
          assert x[1..][i] == x[i + 1] && x[1..][i + 1] == x[i + 2];
        }
      }
      SplitBarsAfter(x[1..], y);
      assert [x[0]] + x[1..] == x;
    }
  }

  /** `split` is the only way to cut a string into pieces that rejoin to it,
      hold no `||`, and (all but the last) do not end in `|`: joining such
      pieces and splitting again gives the pieces back. */
  lemma {:induction false} JoinBarsSplit(pieces: seq<string>)
    requires |pieces| >= 1
    requires forall k :: 0 <= k < |pieces| - 1 ==> CutPiece(pieces[k])
    requires !HasBars(pieces[|pieces| - 1])
    ensures SplitBars(JoinBars(pieces)) == pieces
    decreases |pieces|
  {
    if |pieces| == 1 {
      SplitBarsWithoutBar(pieces[0]);
    } else {
      JoinBarsSplit(pieces[1..]);
      SplitBarsAfter(pieces[0], JoinBars(pieces[1..]));
    }
  }

  /** Bar-free pieces meet the requirements of `JoinBarsSplit`. */
  lemma BarFreeIsCut(x: string)
    requires BarFree(x)
    ensures CutPiece(x)
  {
  }
}
