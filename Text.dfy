/** String operations for the login form. The JavaScript built-ins it calls:
    white space as `String.prototype.trim` and the regular-expression class
    `\s` see it, `trim`, ASCII lower-casing and `Array.prototype.join`. Two
    helpers it does not call: `IndexOf` serves the written-out e-mail check,
    and `Split` models how a space-separated id list is read back. */
module Text {
  import opened Wrappers

  /** ECMAScript WhiteSpace and LineTerminator code points: exactly the
      characters `trim` removes and `\s` matches. */
  predicate IsSpace(c: char) {
    var n := c as int;
    || 0x09 <= n <= 0x0D || n == 0x20 || n == 0xA0 || n == 0x1680
    || 0x2000 <= n <= 0x200A || n == 0x2028 || n == 0x2029 || n == 0x202F
    || n == 0x205F || n == 0x3000 || n == 0xFEFF
  }

  predicate AllSpace(s: string) {
    forall k | 0 <= k < |s| :: IsSpace(s[k])
  }

  /** A string that starts and ends with a non-space character (or is empty). */
  predicate Trimmed(s: string) {
    s == [] || (!IsSpace(s[0]) && !IsSpace(s[|s| - 1]))
  }

  /** Drops leading white space (`trimStart`). */
  function TrimStart(s: string): (r: string)
    ensures |r| <= |s|
  {
    if |s| > 0 && IsSpace(s[0]) then TrimStart(s[1..]) else s
  }

  /** Drops trailing white space (`trimEnd`). */
  function TrimEnd(s: string): (r: string)
    ensures |r| <= |s|
  {
    if |s| > 0 && IsSpace(s[|s| - 1]) then TrimEnd(s[..|s| - 1]) else s
  }

  /** `String.prototype.trim`. */
  function Trim(s: string): (r: string)
    ensures |r| <= |s|
  {
    TrimEnd(TrimStart(s))
  }

  /** `TrimStart(s)` is the suffix of `s` after an all-space prefix, and does
      not itself start with white space. */
  lemma {:induction false} TrimStartSpec(s: string)
    ensures var r := TrimStart(s);
            && r == s[|s| - |r|..] && AllSpace(s[..|s| - |r|])
            && (r == [] || !IsSpace(r[0]))
    decreases |s|
  {
    if |s| > 0 && IsSpace(s[0]) {
      TrimStartSpec(s[1..]);
      var r := TrimStart(s);
      assert s[..|s| - |r|] == [s[0]] + s[1..][..|s| - 1 - |r|];
    }
  }

  /** `TrimEnd(s)` is the prefix of `s` before an all-space suffix, and does
      not itself end with white space. */
  lemma {:induction false} TrimEndSpec(s: string)
    ensures var r := TrimEnd(s);
            && r == s[..|r|] && AllSpace(s[|r|..])
            && (r == [] || !IsSpace(r[|r| - 1]))
    decreases |s|
  {
    if |s| > 0 && IsSpace(s[|s| - 1]) {
      TrimEndSpec(s[..|s| - 1]);
      var r := TrimEnd(s);
      assert s[|r|..] == s[..|s| - 1][|r|..] + [s[|s| - 1]];
    }
  }

  /** The trimmed string has no white space at either end, and is empty
      exactly when `s` is all white space. */
  lemma TrimSpec(s: string)
    ensures Trimmed(Trim(s))
    ensures Trim(s) == [] <==> AllSpace(s)
  {
    var u := TrimStart(s);
    var r := TrimEnd(u);
    TrimStartSpec(s);
    TrimEndSpec(u);
    var i := |s| - |u|;
    assert u != [] ==> u[0] == s[i];
    if r != [] {
      assert r[0] == u[0];
    }
    if r == [] {
      assert u[0..] == u;
      assert u == [];
      assert s == s[..i];
    }
  }

  /** Trimming removes white space and nothing else: `s` is the trimmed
      string with an all-space prefix and an all-space suffix put back. */
  lemma TrimRemovesOnlyEdgeSpace(s: string) returns (p: string, q: string)
    ensures AllSpace(p) && AllSpace(q) && s == p + Trim(s) + q
  {
    var u := TrimStart(s);
    var r := TrimEnd(u);
    TrimStartSpec(s);
    TrimEndSpec(u);
    p, q := s[..|s| - |u|], u[|r|..];
    SliceAroundInfix(s, u, r);
  }

  /** Cutting `s` before its suffix `u`, and `u` after its prefix `r`. */
  lemma SliceAroundInfix(s: string, u: string, r: string)
    requires |u| <= |s| && u == s[|s| - |u|..]
    requires |r| <= |u| && r == u[..|r|]
    ensures s == s[..|s| - |u|] + r + u[|r|..]
  {
    assert u == r + u[|r|..];
    assert s == s[..|s| - |u|] + u;
  }

  lemma {:induction false} TrimStartSkips(p: string, u: string)
    requires AllSpace(p)
    requires u == [] || !IsSpace(u[0])
    ensures TrimStart(p + u) == u
    decreases |p|
  {
    if p != [] {
      assert (p + u)[1..] == p[1..] + u;
      TrimStartSkips(p[1..], u);
    } else {
      assert p + u == u;
    }
  }

  lemma {:induction false} TrimEndSkips(u: string, q: string)
    requires AllSpace(q)
    requires u == [] || !IsSpace(u[|u| - 1])
    ensures TrimEnd(u + q) == u
    decreases |q|
  {
    if q != [] {
      assert (u + q)[..|u + q| - 1] == u + q[..|q| - 1];
      TrimEndSkips(u, q[..|q| - 1]);
    } else {
      assert u + q == u;
    }
  }

  /** Trimming is determined by the decomposition into leading white space,
      a trimmed core and trailing white space. */
  lemma TrimOfPadded(p: string, t: string, q: string)
    requires AllSpace(p) && AllSpace(q) && Trimmed(t)
    ensures Trim(p + t + q) == t
  {
    assert p + t + q == p + (t + q);
    if t == [] {
      assert p + t + q == p + q;
      assert AllSpace(p + q);
      TrimSpec(p + q);
    } else {
      TrimStartSkips(p, t + q);
      TrimEndSkips(t, q);
    }
  }

  lemma TrimIdempotent(s: string)
    ensures Trim(Trim(s)) == Trim(s)
  {
    TrimSpec(s);
    TrimOfPadded([], Trim(s), []);
    assert [] + Trim(s) + [] == Trim(s);
  }

  function LowerChar(c: char): char {
    if 'A' <= c <= 'Z' then (c as int + 32) as char else c
  }

  /** `toLowerCase` restricted to ASCII letters. */
  function Lower(s: string): (r: string)
    ensures |r| == |s|
    ensures forall k | 0 <= k < |s| :: r[k] == LowerChar(s[k])
  {
    seq(|s|, k requires 0 <= k < |s| => LowerChar(s[k]))
  }

  /** `indexOf` for one character: the first position holding `c`. */
  function IndexOf(s: string, c: char): (r: Option<nat>)
    ensures r.None? <==> c !in s
    ensures r.Some? ==> r.value < |s| && s[r.value] == c && c !in s[..r.value]
  {
    if |s| == 0 then None
    else if s[0] == c then Some(0)
    else
      match IndexOf(s[1..], c)
      case None => None
      case Some(i) =>
        assert s[..i + 1] == [s[0]] + s[1..][..i];
        Some(i + 1)
  }

  /** Any occurrence of `c` with no earlier occurrence is the one `IndexOf` finds. */
  lemma IndexOfFirst(s: string, c: char, i: nat)
    requires i < |s| && s[i] == c && c !in s[..i]
    ensures IndexOf(s, c) == Some(i)
  {
    assert s[i] in s;
    var j := IndexOf(s, c).value;
    assert forall k | 0 <= k < i :: s[..i][k] == s[k];
    assert forall k | 0 <= k < j :: s[..j][k] == s[k];
  }

  /** `Array.prototype.join(sep)`. */
  function Join(xs: seq<string>, sep: string): string {
    if |xs| == 0 then ""
    else if |xs| == 1 then xs[0]
    else xs[0] + sep + Join(xs[1..], sep)
  }

  /** Joining non-empty strings yields the empty string only for an empty list. */
  lemma {:induction false} JoinEmpty(xs: seq<string>, sep: string)
    requires forall k | 0 <= k < |xs| :: xs[k] != ""
    ensures Join(xs, sep) == "" <==> xs == []
  {
    if |xs| > 1 {
      assert |Join(xs, sep)| >= |xs[0]| > 0;
    }
  }

  /** Reading a `sep`-separated list back into its pieces. */
  function Split(s: string, sep: char): (parts: seq<string>)
    ensures |parts| >= 1
    decreases |s|
  {
    match IndexOf(s, sep)
    case None => [s]
    case Some(i) => [s[..i]] + Split(s[i + 1..], sep)
  }

  /** Splitting undoes joining, as long as no piece contains the separator. */
  lemma {:induction false} SplitJoin(xs: seq<string>, sep: char)
    requires |xs| >= 1
    requires forall k | 0 <= k < |xs| :: sep !in xs[k]
    ensures Split(Join(xs, [sep]), sep) == xs
  {
    if |xs| > 1 {
      SplitJoin(xs[1..], sep);
      SplitAfterFirstPiece(xs[0], Join(xs[1..], [sep]), sep);
      assert xs == [xs[0]] + xs[1..];
    }
  }

  /** The first separator of `piece + [sep] + rest` is the one after `piece`. */
  lemma SplitAfterFirstPiece(piece: string, rest: string, sep: char)
    requires sep !in piece
    ensures Split(piece + [sep] + rest, sep) == [piece] + Split(rest, sep)
  {
    var s := piece + [sep] + rest;
    assert s[..|piece|] == piece;
    IndexOfFirst(s, sep, |piece|);
    assert s[|piece| + 1..] == rest;
  }
}
