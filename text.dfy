/**
 * The pieces of Python's `str` and JavaScript's `String` that the core relies on.
 * Dafny strings are sequences of Unicode scalar values, so `|s|` counts code
 * points, as Python's `len` does; JavaScript's UTF-16 `length` is `Utf16Length`.
 */
module Text {
  import Seqs

  /** Python's `str.isspace()`; it is also what `\s` matches in a `str` pattern. */
  predicate IsPySpace(c: char) {
    c == ' ' || '\t' <= c <= '\r' || '\U{1C}' <= c <= '\U{1F}' || c == '\U{85}' || c == '\U{A0}'
    || c == '\U{1680}' || '\U{2000}' <= c <= '\U{200A}' || c == '\U{2028}' || c == '\U{2029}'
    || c == '\U{202F}' || c == '\U{205F}' || c == '\U{3000}'
  }

  predicate NotPySpace(c: char) {
    !IsPySpace(c)
  }

  /** JavaScript's WhiteSpace and LineTerminator: what `trim()` removes and what `\s` matches. */
  predicate IsJsSpace(c: char) {
    c == ' ' || '\t' <= c <= '\r' || c == '\U{A0}' || c == '\U{FEFF}' || c == '\U{1680}'
    || '\U{2000}' <= c <= '\U{200A}' || c == '\U{2028}' || c == '\U{2029}'
    || c == '\U{202F}' || c == '\U{205F}' || c == '\U{3000}'
  }

  /** The characters a JavaScript `.` does not match (no `s` flag). */
  predicate IsJsLineTerminator(c: char) {
    c == '\n' || c == '\r' || c == '\U{2028}' || c == '\U{2029}'
  }

  /** `\w` of a JavaScript pattern without the `u` flag. */
  predicate IsAsciiWord(c: char) {
    'a' <= c <= 'z' || 'A' <= c <= 'Z' || '0' <= c <= '9' || c == '_'
  }

  function Min(a: int, b: int): int {
    if a < b then a else b
  }

  predicate IsDigit(c: char) {
    '0' <= c <= '9'
  }

  /** Length of the longest prefix of `s` whose characters all satisfy `p`. */
  function PrefixRun(s: string, p: char -> bool): (n: nat)
    ensures n <= |s|
    ensures forall i | 0 <= i < n :: p(s[i])
    ensures n < |s| ==> !p(s[n])
  {
    if |s| == 0 || !p(s[0]) then 0 else 1 + PrefixRun(s[1..], p)
  }

  lemma PrefixRunAll(s: string, p: char -> bool)
    requires forall i | 0 <= i < |s| :: p(s[i])
    ensures PrefixRun(s, p) == |s|
  {
  }

  /** Length of the longest suffix of `s` whose characters all satisfy `p`. */
  function SuffixRun(s: string, p: char -> bool): (n: nat)
    ensures n <= |s|
    ensures forall i | |s| - n <= i < |s| :: p(s[i])
    ensures n < |s| ==> !p(s[|s| - n - 1])
  {
    if |s| == 0 || !p(s[|s| - 1]) then 0 else 1 + SuffixRun(s[..|s| - 1], p)
  }

  /** `s` without the characters satisfying `ws` at either end. */
  function TrimWith(s: string, ws: char -> bool): (r: string)
    ensures |r| <= |s|
  {
    var a := PrefixRun(s, ws);
    var t := s[a..];
    t[..|t| - SuffixRun(t, ws)]
  }

  /** Trimming keeps the slice after the leading run. */
  lemma TrimIsSlice(s: string, ws: char -> bool)
    ensures var r := TrimWith(s, ws);
      PrefixRun(s, ws) + |r| <= |s| && r == s[PrefixRun(s, ws)..PrefixRun(s, ws) + |r|]
  {
    var a := PrefixRun(s, ws);
    var t := s[a..];
    var r := t[..|t| - SuffixRun(t, ws)];
    assert r == s[a..a + |r|];
  }

  /** A trimmed string has nothing left to trim at either end. */
  lemma TrimEnds(s: string, ws: char -> bool)
    ensures var r := TrimWith(s, ws); r == [] || (!ws(r[0]) && !ws(r[|r| - 1]))
  {
    var a := PrefixRun(s, ws);
    var t := s[a..];
    var b := SuffixRun(t, ws);
    var r := t[..|t| - b];
    if r != [] {
      assert r[0] == t[0] && r[|r| - 1] == t[|t| - b - 1];
    }
  }

  /** Trimming drops only characters satisfying `ws`. */
  lemma TrimDropsOnly(s: string, ws: char -> bool)
    ensures var r := TrimWith(s, ws);
      (forall i | 0 <= i < PrefixRun(s, ws) :: ws(s[i]))
      && (forall i | PrefixRun(s, ws) + |r| <= i < |s| :: ws(s[i]))
  {
    var a := PrefixRun(s, ws);
    var t := s[a..];
    var b := SuffixRun(t, ws);
    assert |TrimWith(s, ws)| == |t| - b;
    assert forall i | a + |t| - b <= i < |s| :: ws(s[i]) by {
      forall i | a + |t| - b <= i < |s|
        ensures ws(s[i])
      {
        assert s[i] == t[i - a];
      }
    }
  }

  /** Python's `str.strip()`. */
  function Strip(s: string): string {
    TrimWith(s, IsPySpace)
  }

  /** JavaScript's `String.prototype.trim()` (and Mongoose's `trim: true`). */
  function JsTrim(s: string): string {
    TrimWith(s, IsJsSpace)
  }

  /** Trimming a string that has nothing to trim leaves it unchanged. */
  lemma TrimNothing(s: string, ws: char -> bool)
    requires s == [] || (!ws(s[0]) && !ws(s[|s| - 1]))
    ensures TrimWith(s, ws) == s
  {
    if s != [] {
      assert PrefixRun(s, ws) == 0;
      assert SuffixRun(s, ws) == 0;
      assert s[0..] == s;
    }
  }

  /** Python's `s.split(sep)` for a non-empty separator: scan left to right, cut at each non-overlapping occurrence. */
  function SplitOn(s: string, sep: string): (parts: seq<string>)
    requires |sep| > 0
    ensures |parts| >= 1
    decreases |s|
  {
    if |s| < |sep| then [s]
    else if s[..|sep|] == sep then [""] + SplitOn(s[|sep|..], sep)
    else
      var rest := SplitOn(s[1..], sep);
      [[s[0]] + rest[0]] + rest[1..]
  }

  /** Python's `s.split(c)` for a one-character separator. */
  function Split(s: string, c: char): seq<string> {
    SplitOn(s, [c])
  }

  /** Python's `sep.join(parts)`. */
  function Join(sep: string, parts: seq<string>): string {
    if |parts| == 0 then ""
    else if |parts| == 1 then parts[0]
    else parts[0] + sep + Join(sep, parts[1..])
  }

  /** Where the i-th part starts in `Join([c], parts)`: the lengths of the parts before it, one separator after each. */
  function JoinOffset(parts: seq<string>, i: nat): nat
    requires i <= |parts|
  {
    if i == 0 then 0 else |parts[0]| + 1 + JoinOffset(parts[1..], i - 1)
  }

  /**
   * The i-th part sits at its offset in `j`, and unless it is the last part the separator
   * `c` follows it.
   */
  predicate PartAt(c: char, j: string, parts: seq<string>, i: nat)
    requires i < |parts|
  {
    var o := JoinOffset(parts, i);
    o + |parts[i]| <= |j| && j[o..o + |parts[i]|] == parts[i]
    && (i < |parts| - 1 ==> o + |parts[i]| < |j| && j[o + |parts[i]|] == c)
  }

  /**
   * The layout of a join with a one-character separator: every part sits at its offset,
   * the separator follows each part but the last, and nothing else is in the result.
   */
  lemma {:induction false} JoinLayout(c: char, parts: seq<string>)
    requires parts != []
    ensures |Join([c], parts)| + 1 == JoinOffset(parts, |parts|)
    ensures forall i | 0 <= i < |parts| :: PartAt(c, Join([c], parts), parts, i)
    decreases |parts|
  {
    var j := Join([c], parts);
    if |parts| == 1 {
      assert JoinOffset(parts, 1) == |parts[0]| + 1 + JoinOffset(parts[1..], 0);
      assert j[0..|parts[0]|] == parts[0];
    } else {
      var tail := parts[1..];
      var r := Join([c], tail);
      JoinLayout(c, tail);
      assert j == parts[0] + [c] + r;
      assert parts == [parts[0]] + tail;
      assert JoinOffset(parts, |parts|) == |parts[0]| + 1 + JoinOffset(tail, |tail|);
      forall i | 0 <= i < |parts|
        ensures PartAt(c, j, parts, i)
      {
        if i == 0 {
          assert j[0..|parts[0]|] == parts[0];
        } else {
          PartAtShift(c, parts[0], tail, r, i - 1);
        }
      }
    }
  }

  /** A part of the tail keeps its place, shifted by the head and one separator. */
  lemma PartAtShift(c: char, head: string, tail: seq<string>, r: string, i: nat)
    requires i < |tail| && PartAt(c, r, tail, i)
    ensures PartAt(c, head + [c] + r, [head] + tail, i + 1)
  {
    var parts := [head] + tail;
    var j := head + [c] + r;
    var h := |head| + 1;
    var o := JoinOffset(tail, i);
    assert parts[1..] == tail && parts[i + 1] == tail[i];
    assert JoinOffset(parts, i + 1) == h + o;
    assert j[h + o..h + o + |tail[i]|] == r[o..o + |tail[i]|];
    if i < |tail| - 1 {
      assert j[h + o + |tail[i]|] == r[o + |tail[i]|];
    }
  }

  lemma JoinConsHead(sep: string, c: char, head: string, tail: seq<string>)
    ensures Join(sep, [[c] + head] + tail) == [c] + Join(sep, [head] + tail)
  {
    if |tail| > 0 {
      assert ([[c] + head] + tail)[1..] == tail;
      assert ([head] + tail)[1..] == tail;
    }
  }

  /** Joining the pieces of a split with the same separator gives back the string. */
  lemma {:induction false} JoinSplitOn(s: string, sep: string)
    requires |sep| > 0
    ensures Join(sep, SplitOn(s, sep)) == s
    decreases |s|
  {
    if |s| < |sep| {
    } else if s[..|sep|] == sep {
      var rest := SplitOn(s[|sep|..], sep);
      assert SplitOn(s, sep) == [""] + rest;
      assert ([""] + rest)[1..] == rest;
      assert Join(sep, [""] + rest) == sep + Join(sep, rest);
      JoinSplitOn(s[|sep|..], sep);
      assert s == sep + s[|sep|..];
    } else {
      var rest := SplitOn(s[1..], sep);
      assert SplitOn(s, sep) == [[s[0]] + rest[0]] + rest[1..];
      JoinSplitOn(s[1..], sep);
      assert rest == [rest[0]] + rest[1..];
      JoinConsHead(sep, s[0], rest[0], rest[1..]);
      assert s == [s[0]] + s[1..];
    }
  }

  /** Rejoining the first k pieces of a split gives a prefix of the string. */
  lemma {:induction false} JoinSplitPrefix(s: string, sep: string, k: nat)
    requires |sep| > 0 && 1 <= k <= |SplitOn(s, sep)|
    ensures Join(sep, SplitOn(s, sep)[..k]) <= s
    decreases |s|
  {
    if |s| < |sep| {
      assert SplitOn(s, sep)[..k] == [s];
    } else if s[..|sep|] == sep {
      if k > 1 {
        JoinSplitPrefix(s[|sep|..], sep, k - 1);
      }
      SepStep(s, sep, k);
    } else {
      JoinSplitPrefix(s[1..], sep, k);
      CharStep(s, sep, k);
    }
  }

  /** The step of the above when the string starts with the separator. */
  lemma SepStep(s: string, sep: string, k: nat)
    requires 0 < |sep| <= |s| && s[..|sep|] == sep && 1 <= k <= |SplitOn(s, sep)|
    requires k > 1 ==> Join(sep, SplitOn(s[|sep|..], sep)[..k - 1]) <= s[|sep|..]
    ensures Join(sep, SplitOn(s, sep)[..k]) <= s
  {
    var rest := SplitOn(s[|sep|..], sep);
    assert SplitOn(s, sep) == [""] + rest;
    if k == 1 {
      assert SplitOn(s, sep)[..k] == [""];
    } else {
      JoinEmptyHeadPrefix(sep, rest, k);
      PrefixInFront(sep, Join(sep, rest[..k - 1]), s[|sep|..]);
      assert s == sep + s[|sep|..];
    }
  }

  /** The step of the above when the string starts with another character. */
  lemma CharStep(s: string, sep: string, k: nat)
    requires 0 < |sep| <= |s| && s[..|sep|] != sep && 1 <= k <= |SplitOn(s, sep)|
    requires k <= |SplitOn(s[1..], sep)| && Join(sep, SplitOn(s[1..], sep)[..k]) <= s[1..]
    ensures Join(sep, SplitOn(s, sep)[..k]) <= s
  {
    var rest := SplitOn(s[1..], sep);
    assert SplitOn(s, sep) == [[s[0]] + rest[0]] + rest[1..];
    JoinConsPrefix(sep, s[0], rest, k);
    PrefixInFront([s[0]], Join(sep, rest[..k]), s[1..]);
    assert s == [s[0]] + s[1..];
  }

  lemma PrefixInFront(front: string, x: string, y: string)
    requires x <= y
    ensures front + x <= front + y
  {
    assert front + x == (front + y)[..|front| + |x|];
  }

  lemma JoinEmptyHeadPrefix(sep: string, rest: seq<string>, k: nat)
    requires 2 <= k <= |rest| + 1
    ensures Join(sep, ([""] + rest)[..k]) == sep + Join(sep, rest[..k - 1])
  {
    var p := ([""] + rest)[..k];
    assert p == [""] + rest[..k - 1];
    assert p[1..] == rest[..k - 1];
  }

  lemma JoinConsPrefix(sep: string, c: char, rest: seq<string>, k: nat)
    requires 1 <= k <= |rest|
    ensures Join(sep, ([[c] + rest[0]] + rest[1..])[..k]) == [c] + Join(sep, rest[..k])
  {
    assert ([[c] + rest[0]] + rest[1..])[..k] == [[c] + rest[0]] + rest[1..k];
    assert rest[..k] == [rest[0]] + rest[1..k];
    JoinConsHead(sep, c, rest[0], rest[1..k]);
  }

  /** A piece without the separator, then the separator, splits off as one part. */
  lemma {:induction false} SplitFirstPiece(p: string, t: string, c: char)
    requires c !in p
    ensures Split(p + [c] + t, c) == [p] + Split(t, c)
    decreases |p|
  {
    var s := p + [c] + t;
    if p == [] {
      assert s[..1] == [c] && s[1..] == t;
    } else {
      assert s[..1] == [p[0]] && s[..1] != [c];
      assert s[1..] == p[1..] + [c] + t;
      SplitFirstPiece(p[1..], t, c);
      assert [p[0]] + p[1..] == p;
    }
  }

  /** A string without the separator is a single part. */
  lemma {:induction false} SplitWithout(s: string, c: char)
    requires c !in s
    ensures Split(s, c) == [s]
    decreases |s|
  {
    if |s| >= 1 {
      assert s[..1] == [s[0]] && s[..1] != [c];
      SplitWithout(s[1..], c);
      assert [s[0]] + s[1..] == s;
    }
  }

  /** Splitting a join gives back the parts, when no part holds the separator. */
  lemma {:induction false} SplitJoin(parts: seq<string>, c: char)
    requires |parts| >= 1 && forall i | 0 <= i < |parts| :: c !in parts[i]
    ensures Split(Join([c], parts), c) == parts
    decreases |parts|
  {
    if |parts| == 1 {
      SplitWithout(parts[0], c);
    } else {
      SplitJoin(parts[1..], c);
      SplitFirstPiece(parts[0], Join([c], parts[1..]), c);
      assert [parts[0]] + parts[1..] == parts;
    }
  }

  /** Number of characters of `s` equal to `c`. */
  function Occurrences(s: string, c: char): (n: nat)
    ensures n <= |s|
  {
    if |s| == 0 then 0 else (if s[0] == c then 1 else 0) + Occurrences(s[1..], c)
  }

  /** Splitting on a character gives one piece more than there are separators, and no piece holds the separator. */
  lemma {:induction false} SplitPieces(s: string, c: char)
    ensures |Split(s, c)| == Occurrences(s, c) + 1
    ensures forall i | 0 <= i < |Split(s, c)| :: c !in Split(s, c)[i]
    decreases |s|
  {
    if |s| == 0 {
    } else {
      SplitPieces(s[1..], c);
      assert s[..1] == [s[0]];
      assert s[1..] == s[|[c]|..];
    }
  }

  /** A word of `s.split()`: a non-empty run of non-whitespace. */
  predicate IsWord(w: string) {
    |w| > 0 && forall j | 0 <= j < |w| :: !IsPySpace(w[j])
  }

  /** Python's `s.split()` without arguments: the maximal runs of non-whitespace. */
  function Words(s: string): (ws: seq<string>)
    ensures forall i | 0 <= i < |ws| :: IsWord(ws[i])
    decreases |s|
  {
    var a := PrefixRun(s, IsPySpace);
    if a == |s| then []
    else
      var t := s[a..];
      var n := PrefixRun(t, NotPySpace);
      var w := t[..n];
      assert IsWord(w) by {
        assert NotPySpace(t[0]);
        forall j | 0 <= j < |w| ensures !IsPySpace(w[j]) {
          assert w[j] == t[j] && NotPySpace(t[j]);
        }
      }
      [w] + Words(t[n..])
  }

  /** A leading run of `k` characters satisfying `p` adds `k` to the run. */
  lemma {:induction false} PrefixRunSkip(s: string, p: char -> bool, k: nat)
    requires k <= |s| && forall i | 0 <= i < k :: p(s[i])
    ensures PrefixRun(s, p) == k + PrefixRun(s[k..], p)
    decreases k
  {
    if k > 0 {
      assert forall i | 0 <= i < k - 1 :: s[1..][i] == s[i + 1];
      PrefixRunSkip(s[1..], p, k - 1);
      assert s[1..][k - 1..] == s[k..];
    }
  }

  /** One step of `Words`, for the text `t` left after the leading whitespace run. */
  lemma WordsStep(s: string, t: string)
    requires t == s[PrefixRun(s, IsPySpace)..]
    ensures t == [] ==> Words(s) == []
    ensures t != [] ==> Words(s) == [t[..PrefixRun(t, NotPySpace)]] + Words(t[PrefixRun(t, NotPySpace)..])
  {
  }

  /** The run is at least `k` long: it is `k` plus the run after `k`. */
  lemma {:induction false} PrefixRunAtLeast(s: string, p: char -> bool, k: nat)
    requires k <= PrefixRun(s, p)
    ensures PrefixRun(s, p) == k + PrefixRun(s[k..], p)
    decreases k
  {
    if k > 0 {
      PrefixRunAtLeast(s[1..], p, k - 1);
      assert s[1..][k - 1..] == s[k..];
    }
  }

  /** Whitespace in front does not change the words. */
  lemma WordsDropSpaces(s: string, k: nat)
    requires k <= PrefixRun(s, IsPySpace)
    ensures Words(s) == Words(s[k..])
  {
    PrefixRunAtLeast(s, IsPySpace, k);
    var a := PrefixRun(s, IsPySpace);
    assert s[a..] == s[k..][a - k..];
    WordsSameRest(s, s[k..], s[a..]);
  }

  /** Two texts with the same rest after their leading whitespace have the same words. */
  lemma WordsSameRest(s1: string, s2: string, t: string)
    requires t == s1[PrefixRun(s1, IsPySpace)..] && t == s2[PrefixRun(s2, IsPySpace)..]
    ensures Words(s1) == Words(s2)
  {
    WordsStep(s1, t);
    WordsStep(s2, t);
  }

  /** A text that starts with a visible character starts with its first word. */
  lemma WordsFirst(s: string)
    requires s != [] && !IsPySpace(s[0])
    ensures var n := PrefixRun(s, NotPySpace); Words(s) == [s[..n]] + Words(s[n..])
  {
    assert PrefixRun(s, IsPySpace) == 0;
    assert s[0..] == s;
  }

  /** A visible character in front either joins the first word or is a word of its own. */
  lemma WordsCons(c: char, x: string)
    requires !IsPySpace(c)
    ensures x == [] || IsPySpace(x[0]) ==> Words([c] + x) == [[c]] + Words(x)
    ensures x != [] && !IsPySpace(x[0]) ==>
      Words(x) != [] && Words([c] + x) == [[c] + Words(x)[0]] + Words(x)[1..]
  {
    var s := [c] + x;
    assert s[1..] == x;
    WordsFirst(s);
    if x == [] || IsPySpace(x[0]) {
      assert PrefixRun(s, NotPySpace) == 1;
      assert s[..1] == [c];
    } else {
      WordsFirst(x);
      var n := PrefixRun(x, NotPySpace);
      assert PrefixRun(s, NotPySpace) == n + 1;
      assert s[..n + 1] == [c] + x[..n];
      assert s[n + 1..] == x[n..];
    }
  }

  /** The run of a concatenation: the run of the first part, continued into the second if it spans the first. */
  lemma {:induction false} PrefixRunAppend(u: string, v: string, p: char -> bool)
    ensures PrefixRun(u + v, p) == if PrefixRun(u, p) < |u| then PrefixRun(u, p) else |u| + PrefixRun(v, p)
    decreases |u|
  {
    if u == [] {
      assert u + v == v;
    } else {
      assert (u + v)[0] == u[0] && (u + v)[1..] == u[1..] + v;
      PrefixRunAppend(u[1..], v, p);
    }
  }

  lemma AppendSlices(t: string, v: string, n: nat)
    requires n <= |t|
    ensures (t + v)[..n] == t[..n] && (t + v)[n..] == t[n..] + v
  {
  }

  /** Whitespace behind does not change the words. */
  lemma {:induction false} WordsDropTrail(u: string, v: string)
    requires PrefixRun(v, IsPySpace) == |v|
    ensures Words(u + v) == Words(u)
    decreases |u|
  {
    var s := u + v;
    var a := PrefixRun(u, IsPySpace);
    PrefixRunAppend(u, v, IsPySpace);
    WordsDropSpaces(s, a);
    WordsDropSpaces(u, a);
    var t := u[a..];
    AppendSlices(u, v, a);
    if a == |u| {
      WordsDropSpaces(t + v, |v|);
      assert (t + v)[|v|..] == [] && t == [];
      WordsStep([], []);
    } else {
      WordsFirst(t);
      WordsFirst(t + v);
      var n := PrefixRun(t, NotPySpace);
      PrefixRunAppend(t, v, NotPySpace);
      assert v != [] ==> IsPySpace(v[0]);
      AppendSlices(t, v, n);
      WordsDropTrail(t[n..], v);
    }
  }

  /** The trailing run, taken off as a string of its own, is all run. */
  lemma SuffixRunTail(t: string, p: char -> bool)
    ensures var b := SuffixRun(t, p); PrefixRun(t[|t| - b..], p) == b
  {
    var b := SuffixRun(t, p);
    var tail := t[|t| - b..];
    forall i | 0 <= i < b
      ensures p(tail[i])
    {
      assert tail[i] == t[|t| - b + i];
    }
    PrefixRunAll(tail, p);
  }

  /** `strip()` does not change the words. */
  lemma WordsStrip(s: string)
    ensures Words(Strip(s)) == Words(s)
  {
    var a := PrefixRun(s, IsPySpace);
    var t := s[a..];
    var b := SuffixRun(t, IsPySpace);
    var r := t[..|t| - b];
    assert Strip(s) == r;
    WordsDropSpaces(s, a);
    Seqs.TakeDrop(t, |t| - b);
    SuffixRunTail(t, IsPySpace);
    WordsDropTrail(r, t[|t| - b..]);
  }

  /**
   * Lower-casing, one character at a time: ASCII and Latin-1 capitals, and the
   * Turkish capitals outside Latin-1. Python and JavaScript turn 'İ' into the two
   * code points "i̇"; here it becomes 'i'.
   */
  function LowerChar(c: char): char {
    if 'A' <= c <= 'Z' || ('\U{C0}' <= c <= '\U{DE}' && c != '\U{D7}') then (c as int + 32) as char
    else if c == '\U{11E}' || c == '\U{15E}' then (c as int + 1) as char
    else if c == '\U{130}' then 'i'
    else c
  }

  function Lower(s: string): (r: string)
    ensures |r| == |s|
    ensures forall i | 0 <= i < |s| :: r[i] == LowerChar(s[i])
  {
    seq(|s|, i requires 0 <= i < |s| => LowerChar(s[i]))
  }

  lemma LowerIdempotent(s: string)
    ensures Lower(Lower(s)) == Lower(s)
  {
  }

  /** Number of characters of `s` satisfying `p`. */
  function CountWhere(s: string, p: char -> bool): (n: nat)
    ensures n <= |s|
  {
    if |s| == 0 then 0 else (if p(s[0]) then 1 else 0) + CountWhere(s[1..], p)
  }

  lemma {:induction false} CountWhereAppend(a: string, b: string, p: char -> bool)
    ensures CountWhere(a + b, p) == CountWhere(a, p) + CountWhere(b, p)
    decreases |a|
  {
    if |a| > 0 {
      CountWhereAppend(a[1..], b, p);
      assert (a + b)[1..] == a[1..] + b;
    } else {
      assert a + b == b;
    }
  }

  predicate IsAstral(c: char) {
    c as int > 0xFFFF
  }

  /** JavaScript's `length`: UTF-16 code units, two for a character outside the Basic Multilingual Plane. */
  function Utf16Length(s: string): nat {
    |s| + CountWhere(s, IsAstral)
  }

  /** The two variation selectors, U+FE0E and U+FE0F. */
  predicate IsVariationSelector(c: char) {
    c == '\U{FE0E}' || c == '\U{FE0F}'
  }

  /**
   * The length the validator library's `isLength` tests: the UTF-16 length less the surrogate
   * pairs and the variation selectors, that is the code points other than U+FE0E and U+FE0F.
   */
  function ValidatorLength(s: string): (n: nat)
    ensures n <= |s|
  {
    |s| - CountWhere(s, IsVariationSelector)
  }

  /** Without variation selectors, `isLength` counts every character. */
  lemma {:induction false} ValidatorLengthPlain(s: string)
    requires forall i | 0 <= i < |s| :: !IsVariationSelector(s[i])
    ensures ValidatorLength(s) == |s|
    decreases |s|
  {
    if |s| > 0 {
      ValidatorLengthPlain(s[1..]);
    }
  }

  /** Appending a variation selector leaves the `isLength` count as it was. */
  lemma ValidatorLengthSelector(s: string, c: char)
    requires IsVariationSelector(c)
    ensures ValidatorLength(s + [c]) == ValidatorLength(s)
  {
    CountWhereAppend(s, [c], IsVariationSelector);
    assert CountWhere([c], IsVariationSelector) == 1 by {
      assert [c][1..] == [];
    }
  }

  function DigitChar(d: nat): (c: char)
    requires d < 10
    ensures IsDigit(c)
  {
    (48 + d) as char
  }

  /** Decimal notation without leading zeros (Python `str(n)` for n >= 0). */
  function NatToString(n: nat): (s: string)
    ensures |s| >= 1
    ensures forall i | 0 <= i < |s| :: IsDigit(s[i])
  {
    if n < 10 then [DigitChar(n)] else NatToString(n / 10) + [DigitChar(n % 10)]
  }

  /** Three decimal digits with leading zeros. */
  function Pad3(n: nat): (s: string)
    requires n < 1000
    ensures |s| == 3
  {
    [DigitChar(n / 100), DigitChar(n / 10 % 10), DigitChar(n % 10)]
  }

  /** Python's `f"{n:,}"` for n >= 0: decimal digits in groups of three separated by ','. */
  function GroupThousands(n: nat): (s: string)
    ensures |s| >= 1 && IsDigit(s[0]) && IsDigit(s[|s| - 1])
  {
    if n < 1000 then NatToString(n) else GroupThousands(n / 1000) + "," + Pad3(n % 1000)
  }
}
