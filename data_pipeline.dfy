/**
 * The transcript pipeline of `server/src/python/data_pipeline.py`: text cleaning,
 * the Turkish/English detector, paragraph accumulation, term ranking, the reshaping
 * loop of `process`, and the term slice of `format_transcript_for_openai`.
 */
module DataPipeline {
  import opened Wrappers
  import opened Text
  import opened Seqs

  // ---------------------------------------------------------------------------
  // clean_text
  // ---------------------------------------------------------------------------

  /** The characters of `s` satisfying `p`, in order. */
  function Keep(s: string, p: char -> bool): (r: string)
    ensures |r| <= |s|
    ensures forall i | 0 <= i < |r| :: p(r[i])
    decreases |s|
  {
    if s == [] then [] else (if p(s[0]) then [s[0]] else []) + Keep(s[1..], p)
  }

  lemma {:induction false} KeepAppend(a: string, b: string, p: char -> bool)
    ensures Keep(a + b, p) == Keep(a, p) + Keep(b, p)
    decreases |a|
  {
    if a == [] {
      assert a + b == b;
    } else {
      var c := if p(a[0]) then [a[0]] else [];
      assert (a + b)[0] == a[0] && (a + b)[1..] == a[1..] + b;
      assert Keep(a + b, p) == c + Keep(a[1..] + b, p);
      KeepAppend(a[1..], b, p);
      assert Keep(a, p) == c + Keep(a[1..], p);
    }
  }

  lemma {:induction false} KeepNone(s: string, p: char -> bool)
    requires forall i | 0 <= i < |s| :: !p(s[i])
    ensures Keep(s, p) == []
    decreases |s|
  {
    if s != [] {
      KeepNone(s[1..], p);
    }
  }

  /** Every whitespace character of `s` is a plain space. */
  predicate BlankSpaces(s: string) {
    forall i | 0 <= i < |s| :: IsPySpace(s[i]) ==> s[i] == ' '
  }

  /** No two neighbouring characters are both spaces. */
  predicate NoDoubleSpace(s: string) {
    forall i | 0 <= i < |s| - 1 :: !(s[i] == ' ' && s[i + 1] == ' ')
  }

  /**
   * What the collapse `r` of `s` is: never longer; whitespace only as single plain spaces;
   * the same visible characters in the same order; empty exactly when `s` is; and starting
   * (ending) with a space exactly when `s` starts (ends) with whitespace.
   */
  ghost predicate CollapsedFrom(r: string, s: string) {
    && |r| <= |s|
    && BlankSpaces(r) && NoDoubleSpace(r)
    && Keep(r, NotPySpace) == Keep(s, NotPySpace)
    && (r == [] <==> s == [])
    && (r != [] ==> (r[0] == ' ' <==> IsPySpace(s[0])))
    && (r != [] ==> (r[|r| - 1] == ' ' <==> IsPySpace(s[|s| - 1])))
  }

  /** `re.sub(r'\s+', ' ', text)`: every maximal whitespace run becomes one space. */
  function CollapseSpace(s: string): (r: string)
    ensures CollapsedFrom(r, s)
    decreases |s|
  {
    if s == [] then []
    else if IsPySpace(s[0]) then
      var n := PrefixRun(s, IsPySpace);
      var r := CollapseSpace(s[n..]);
      CollapseSpaceRun(s, n, r);
      " " + r
    else
      var r := CollapseSpace(s[1..]);
      CollapseSpaceChar(s, r);
      [s[0]] + r
  }


  /** One space for the leading whitespace run of `s`, in front of the collapsed rest. */
  lemma CollapseSpaceRun(s: string, n: nat, r: string)
    requires s != [] && IsPySpace(s[0]) && n == PrefixRun(s, IsPySpace)
    requires CollapsedFrom(r, s[n..])
    ensures CollapsedFrom(" " + r, s)
  {
    assert 0 < n <= |s| && forall i | 0 <= i < n :: IsPySpace(s[i]);
    RunKeepsNothing(s, n, r);
    assert r != [] ==> r[0] != ' ' by {
      if r != [] {
        assert s[n..][0] == s[n];
      }
    }
    SpaceInFront(r);
    RunLast(s, n, r);
  }

  /** A space put in front of a collapsed text that does not start with one keeps it collapsed. */
  lemma SpaceInFront(r: string)
    requires BlankSpaces(r) && NoDoubleSpace(r) && (r != [] ==> r[0] != ' ')
    ensures BlankSpaces(" " + r) && NoDoubleSpace(" " + r)
  {
    assert forall i | 1 <= i < |" " + r| :: (" " + r)[i] == r[i - 1];
  }

  /** The last character of the collapse stands for the last character of `s`. */
  lemma RunLast(s: string, n: nat, r: string)
    requires 0 < n <= |s|
    requires n == |s| ==> IsPySpace(s[|s| - 1])
    requires r == [] <==> n == |s|
    requires r != [] ==> (r[|r| - 1] == ' ' <==> IsPySpace(s[n..][|s| - n - 1]))
    ensures (" " + r)[|r|] == ' ' <==> IsPySpace(s[|s| - 1])
  {
    if r != [] {
      assert s[n..][|s| - n - 1] == s[|s| - 1];
    }
  }

  /** A whitespace run in front adds no visible character. */
  lemma RunKeepsNothing(s: string, n: nat, r: string)
    requires n <= |s| && forall i | 0 <= i < n :: IsPySpace(s[i])
    requires Keep(r, NotPySpace) == Keep(s[n..], NotPySpace)
    ensures Keep(" " + r, NotPySpace) == Keep(s, NotPySpace)
  {
    assert (" " + r)[1..] == r;
    KeepDropRun(s, n);
  }

  lemma {:induction false} KeepDropRun(s: string, n: nat)
    requires n <= |s| && forall i | 0 <= i < n :: IsPySpace(s[i])
    ensures Keep(s, NotPySpace) == Keep(s[n..], NotPySpace)
    decreases n
  {
    if n == 0 {
      assert s[n..] == s;
    } else {
      assert Keep(s, NotPySpace) == Keep(s[1..], NotPySpace);
      KeepDropRun(s[1..], n - 1);
      assert s[1..][n - 1..] == s[n..];
    }
  }

  /** The visible first character of `s`, in front of the collapsed rest. */
  lemma CollapseSpaceChar(s: string, r: string)
    requires s != [] && !IsPySpace(s[0])
    requires CollapsedFrom(r, s[1..])
    ensures CollapsedFrom([s[0]] + r, s)
  {
    assert s == [s[0]] + s[1..];
    KeepAppend([s[0]], s[1..], NotPySpace);
    KeepAppend([s[0]], r, NotPySpace);
    assert r != [] ==> s[1..][|s| - 2] == s[|s| - 1];
  }

  /** The collapse keeps the words of `s.split()`: it only shortens the whitespace between them. */
  lemma {:induction false} CollapseSpaceWords(s: string)
    ensures Words(CollapseSpace(s)) == Words(s)
    decreases |s|
  {
    if s != [] {
      if IsPySpace(s[0]) {
        var n := PrefixRun(s, IsPySpace);
        CollapseSpaceWords(s[n..]);
        WordsOfRun(s, n, CollapseSpace(s[n..]));
      } else {
        CollapseSpaceWords(s[1..]);
        WordsOfChar(s, CollapseSpace(s[1..]));
      }
    }
  }

  /** The words behind one space are those behind the whitespace run it replaces. */
  lemma WordsOfRun(s: string, n: nat, r: string)
    requires 0 < n <= |s| && n == PrefixRun(s, IsPySpace)
    requires r == CollapseSpace(s[n..]) && Words(r) == Words(s[n..])
    ensures Words(CollapseSpace(s)) == Words(s)
  {
    assert CollapseSpace(s) == " " + r;
    PrefixRunAppend(" ", r, IsPySpace);
    assert (" " + r)[1..] == r;
    WordsDropSpaces(" " + r, 1);
    WordsDropSpaces(s, n);
  }

  /** A visible first character joins the same word before and after the collapse. */
  lemma WordsOfChar(s: string, r: string)
    requires s != [] && !IsPySpace(s[0])
    requires r == CollapseSpace(s[1..]) && Words(r) == Words(s[1..])
    ensures Words(CollapseSpace(s)) == Words(s)
  {
    assert CollapseSpace(s) == [s[0]] + r;
    assert s == [s[0]] + s[1..];
    WordsCons(s[0], r);
    WordsCons(s[0], s[1..]);
  }

  /** A character other than the space that the text lacks, the collapse lacks too. */
  lemma {:induction false} CollapseSpaceAbsent(s: string, c: char)
    requires c != ' ' && c !in s
    ensures c !in CollapseSpace(s)
    decreases |s|
  {
    if s != [] {
      var n := if IsPySpace(s[0]) then PrefixRun(s, IsPySpace) else 1;
      assert c !in s[n..];
      CollapseSpaceAbsent(s[n..], c);
      assert CollapseSpace(s) == (if IsPySpace(s[0]) then " " else [s[0]]) + CollapseSpace(s[n..]);
    }
  }

  /** `re.sub(pat, rep, s)` for a literal pattern: leftmost, non-overlapping, left to right. */
  function ReplaceAll(s: string, pat: string, rep: string): (r: string)
    requires |pat| > 0
    ensures |rep| <= |pat| ==> |r| <= |s|
    ensures BlankSpaces(s) && (forall i | 0 <= i < |rep| :: !IsPySpace(rep[i])) ==> BlankSpaces(r)
    decreases |s|
  {
    if |s| < |pat| then s
    else if s[..|pat|] == pat then rep + ReplaceAll(s[|pat|..], pat, rep)
    else [s[0]] + ReplaceAll(s[1..], pat, rep)
  }

  /** A text without the pattern's first character is left alone. */
  lemma {:induction false} ReplaceAbsent(s: string, pat: string, rep: string)
    requires |pat| > 0 && pat[0] !in s
    ensures ReplaceAll(s, pat, rep) == s
    decreases |s|
  {
    if |s| >= |pat| {
      assert s[..|pat|][0] == s[0];
      ReplaceAbsent(s[1..], pat, rep);
    }
  }

  /** The five character references, replaced one after the other in source order. */
  function Unescape(s: string): (r: string)
    ensures |r| <= |s|
    ensures BlankSpaces(s) ==> BlankSpaces(r)
  {
    var a := ReplaceAll(s, "&amp;", "&");
    var b := ReplaceAll(a, "&lt;", "<");
    var c := ReplaceAll(b, "&gt;", ">");
    var d := ReplaceAll(c, "&quot;", "\"");
    ReplaceAll(d, "&#39;", "'")
  }

  /** Example: because `&amp;` goes first, an escaped reference is decoded twice. */
  lemma UnescapeTwice()
    ensures Unescape("&amp;lt;") == "<"
  {
    assert "&amp;lt;"[..5] == "&amp;";
    assert ReplaceAll("&amp;lt;", "&amp;", "&") == "&lt;" by {
      assert "&amp;lt;"[5..] == "lt;";
      assert ReplaceAll("lt;", "&amp;", "&") == "lt;";
    }
    assert "&lt;"[..4] == "&lt;";
    assert ReplaceAll("&lt;", "&lt;", "<") == "<";
    ReplaceAbsent("<", "&gt;", ">");
    ReplaceAbsent("<", "&quot;", "\"");
    ReplaceAbsent("<", "&#39;", "'");
  }

  predicate IsMark(c: char) {
    c == '.' || c == '!' || c == '?'
  }

  predicate NotMark(c: char) {
    !IsMark(c)
  }

  /** No two neighbouring characters are both '.', '!' or '?'. */
  predicate NoMarkPair(s: string) {
    forall i | 0 <= i < |s| - 1 :: !(IsMark(s[i]) && IsMark(s[i + 1]))
  }

  /** `re.sub(r'[.!?]{2,}', '.', text)`: a run of two or more marks becomes one '.'. */
  function CollapseMarks(s: string): (r: string)
    ensures |r| <= |s|
    decreases |s|
  {
    if s == [] then []
    else if IsMark(s[0]) then
      var n := PrefixRun(s, IsMark);
      (if n >= 2 then "." else [s[0]]) + CollapseMarks(s[n..])
    else [s[0]] + CollapseMarks(s[1..])
  }

  /** The result is empty only for the empty text, and starts with a mark exactly when the text does. */
  lemma CollapseMarksHead(s: string)
    ensures var r := CollapseMarks(s);
      (r == [] <==> s == []) && (r != [] ==> (IsMark(r[0]) <==> IsMark(s[0])))
  {
  }

  /** After the collapse no two marks are neighbours. */
  lemma {:induction false} CollapseMarksSeparates(s: string)
    ensures NoMarkPair(CollapseMarks(s))
    decreases |s|
  {
    if s != [] {
      var n := if IsMark(s[0]) then PrefixRun(s, IsMark) else 1;
      CollapseMarksSeparates(s[n..]);
      CollapseMarksHead(s[n..]);
      assert IsMark(s[0]) && n < |s| ==> !IsMark(s[n]);
    }
  }

  /** A leading run of marks contributes nothing to the kept characters of the collapse. */
  lemma {:induction false} CollapseMarkRun(s: string)
    requires s != [] && IsMark(s[0])
    ensures Keep(CollapseMarks(s), NotMark) == Keep(CollapseMarks(s[PrefixRun(s, IsMark)..]), NotMark)
  {
    var n := PrefixRun(s, IsMark);
    var head := if n >= 2 then "." else [s[0]];
    assert CollapseMarks(s) == head + CollapseMarks(s[n..]);
    KeepAppend(head, CollapseMarks(s[n..]), NotMark);
    KeepNone(head, NotMark);
  }

  /** Nor to those of the text. */
  lemma {:induction false} KeepAfterMarks(s: string)
    ensures Keep(s, NotMark) == Keep(s[PrefixRun(s, IsMark)..], NotMark)
  {
    var n := PrefixRun(s, IsMark);
    TakeDrop(s, n);
    KeepAppend(s[..n], s[n..], NotMark);
    KeepNone(s[..n], NotMark);
  }

  /** A leading character that is not a mark is kept, before and after the collapse. */
  lemma {:induction false} CollapseMarkOther(s: string)
    requires s != [] && !IsMark(s[0])
    ensures Keep(CollapseMarks(s), NotMark) == [s[0]] + Keep(CollapseMarks(s[1..]), NotMark)
    ensures Keep(s, NotMark) == [s[0]] + Keep(s[1..], NotMark)
  {
    var r := CollapseMarks(s);
    assert r == [s[0]] + CollapseMarks(s[1..]);
    assert r[0] == s[0] && r[1..] == CollapseMarks(s[1..]);
  }

  /** Only marks are rewritten: the other characters stay, in order. */
  lemma {:induction false} CollapseMarksKeeps(s: string)
    ensures Keep(CollapseMarks(s), NotMark) == Keep(s, NotMark)
    decreases |s|
  {
    if s != [] {
      if IsMark(s[0]) {
        CollapseMarksKeeps(s[PrefixRun(s, IsMark)..]);
        CollapseMarkRun(s);
        KeepAfterMarks(s);
      } else {
        CollapseMarksKeeps(s[1..]);
        CollapseMarkOther(s);
      }
    }
  }

  /** The collapse adds no whitespace. */
  lemma {:induction false} CollapseMarksBlank(s: string)
    ensures BlankSpaces(s) ==> BlankSpaces(CollapseMarks(s))
    decreases |s|
  {
    if s != [] {
      var n := if IsMark(s[0]) then PrefixRun(s, IsMark) else 1;
      CollapseMarksBlank(s[n..]);
      assert BlankSpaces(s) ==> BlankSpaces(s[n..]) by {
        assert forall i | 0 <= i < |s| - n :: s[n..][i] == s[n + i];
      }
    }
  }

  /** A text with no neighbouring marks is left alone. */
  lemma {:induction false} CollapseMarksIdle(s: string)
    requires NoMarkPair(s)
    ensures CollapseMarks(s) == s
    decreases |s|
  {
    if s != [] {
      if IsMark(s[0]) {
        assert |s| == 1 || !IsMark(s[1]);
        assert PrefixRun(s, IsMark) == 1;
      }
      assert NoMarkPair(s[1..]) by {
        assert forall i | 0 <= i < |s| - 1 :: s[1..][i] == s[i + 1];
      }
      CollapseMarksIdle(s[1..]);
    }
  }

  /**
   * The collapse works piece by piece: a text that is empty or ends in a character other
   * than a mark can be collapsed apart from what follows it.
   */
  lemma {:induction false} CollapseMarksAppend(a: string, t: string)
    requires a == [] || !IsMark(a[|a| - 1])
    ensures CollapseMarks(a + t) == CollapseMarks(a) + CollapseMarks(t)
    decreases |a|
  {
    if a == [] {
      assert a + t == t;
    } else {
      var n := if IsMark(a[0]) then PrefixRun(a, IsMark) else 1;
      assert 0 < n < |a| || n == |a| == 1;
      PrefixRunAppend(a, t, IsMark);
      AppendSlices(a, t, n);
      assert (a + t)[0] == a[0];
      if n < |a| {
        assert a[n..][|a| - n - 1] == a[|a| - 1];
      }
      CollapseMarksAppend(a[n..], t);
      CollapseMarksStep(a);
      CollapseMarksStep(a + t);
      var head := if IsMark(a[0]) && n >= 2 then "." else [a[0]];
      Seqs.AppendAssoc(head, CollapseMarks(a[n..]), CollapseMarks(t));
    }
  }

  /** One step of the collapse: the first character, or the leading run of marks. */
  lemma CollapseMarksStep(s: string)
    requires s != []
    ensures var n := if IsMark(s[0]) then PrefixRun(s, IsMark) else 1;
      1 <= n <= |s|
      && CollapseMarks(s) == (if IsMark(s[0]) && n >= 2 then "." else [s[0]]) + CollapseMarks(s[n..])
  {
  }

  /** A run of marks followed by the end or by another character: one '.' for two or more, a lone mark kept. */
  lemma CollapseMarksRun(m: string, b: string)
    requires m != [] && forall i | 0 <= i < |m| :: IsMark(m[i])
    requires b == [] || !IsMark(b[0])
    ensures |m| >= 2 ==> CollapseMarks(m + b) == "." + CollapseMarks(b)
    ensures |m| == 1 ==> CollapseMarks(m + b) == m + CollapseMarks(b)
  {
    PrefixRunAll(m, IsMark);
    WholeRunThenOther(m, b);
  }

  lemma WholeRunThenOther(m: string, b: string)
    requires m != [] && PrefixRun(m, IsMark) == |m|
    requires b == [] || !IsMark(b[0])
    ensures |m| >= 2 ==> CollapseMarks(m + b) == "." + CollapseMarks(b)
    ensures |m| == 1 ==> CollapseMarks(m + b) == m + CollapseMarks(b)
  {
    PrefixRunAppend(m, b, IsMark);
    AppendSlices(m, b, |m|);
    assert (m + b)[0] == m[0];
    CollapseMarksStep(m + b);
    assert |m| == 1 ==> m == [m[0]];
  }

  /**
   * A whole run of two or more marks inside a text becomes one '.', and the text on
   * either side is collapsed on its own.
   */
  lemma CollapseMarksSplice(a: string, m: string, b: string)
    requires a == [] || !IsMark(a[|a| - 1])
    requires |m| >= 2 && forall i | 0 <= i < |m| :: IsMark(m[i])
    requires b == [] || !IsMark(b[0])
    ensures CollapseMarks(a + m + b) == CollapseMarks(a) + "." + CollapseMarks(b)
  {
    SpliceSteps(a, m, b);
    Seqs.AppendAssoc(CollapseMarks(a), ".", CollapseMarks(b));
  }

  /** A lone mark inside a text stays, and the text on either side is collapsed on its own. */
  lemma CollapseMarksLone(a: string, m: string, b: string)
    requires a == [] || !IsMark(a[|a| - 1])
    requires |m| == 1 && IsMark(m[0])
    requires b == [] || !IsMark(b[0])
    ensures CollapseMarks(a + m + b) == CollapseMarks(a) + m + CollapseMarks(b)
  {
    SpliceSteps(a, m, b);
    Seqs.AppendAssoc(CollapseMarks(a), m, CollapseMarks(b));
  }

  lemma SpliceSteps(a: string, m: string, b: string)
    requires a == [] || !IsMark(a[|a| - 1])
    requires m != [] && forall i | 0 <= i < |m| :: IsMark(m[i])
    requires b == [] || !IsMark(b[0])
    ensures CollapseMarks(a + m + b) == CollapseMarks(a) + CollapseMarks(m + b)
    ensures |m| >= 2 ==> CollapseMarks(m + b) == "." + CollapseMarks(b)
    ensures |m| == 1 ==> CollapseMarks(m + b) == m + CollapseMarks(b)
  {
    Seqs.AppendAssoc(a, m, b);
    CollapseMarksAppend(a, m + b);
    CollapseMarksRun(m, b);
  }

  /** An `https?://\S+` token starts at `k`: the scheme and at least one non-whitespace character. */
  predicate UrlStart(s: string, k: nat) {
    k + 8 <= |s| && s[k] == 'h' && s[k + 1] == 't' && s[k + 2] == 't' && s[k + 3] == 'p'
    && ((s[k + 4] == ':' && s[k + 5] == '/' && s[k + 6] == '/' && !IsPySpace(s[k + 7]))
        || (k + 9 <= |s| && s[k + 4] == 's' && s[k + 5] == ':' && s[k + 6] == '/' && s[k + 7] == '/'
            && !IsPySpace(s[k + 8])))
  }

  /** No `https?://\S+` token starts anywhere in `s`. */
  predicate NoUrl(s: string) {
    forall k | 0 <= k < |s| :: !UrlStart(s, k)
  }

  /** The greedy `\S+` takes the token up to the next whitespace. */
  function UrlLength(s: string): (n: nat)
    requires UrlStart(s, 0)
    ensures 8 <= n <= |s|
    ensures forall i | 0 <= i < n :: !IsPySpace(s[i])
    ensures n < |s| ==> IsPySpace(s[n])
  {
    assert forall i | 0 <= i < 8 :: NotPySpace(s[i]);
    PrefixRun(s, NotPySpace)
  }

  /** Whether a token starts at 0 is decided by the leading non-whitespace run alone. */
  lemma UrlStartPrefix(r: string, s: string)
    requires PrefixRun(r, NotPySpace) <= |s|
    requires r[..PrefixRun(r, NotPySpace)] == s[..PrefixRun(r, NotPySpace)]
    ensures UrlStart(r, 0) ==> UrlStart(s, 0)
  {
    var m := PrefixRun(r, NotPySpace);
    if UrlStart(r, 0) {
      assert forall i | 0 <= i < 8 :: NotPySpace(r[i]);
      assert m >= 8;
      assert forall i | 0 <= i < 8 :: r[i] == s[i] by {
        assert forall i | 0 <= i < 8 :: r[i] == r[..m][i] && s[i] == s[..m][i];
      }
      if r[4] == 's' {
        assert NotPySpace(r[8]);
        assert m >= 9;
        assert r[8] == r[..m][8] == s[..m][8] == s[8];
      }
    }
  }

  lemma UrlStartCons(c: char, t: string, k: nat)
    ensures UrlStart([c] + t, k + 1) <==> UrlStart(t, k)
  {
    var s := [c] + t;
    assert forall i | 0 <= i < |t| :: s[i + 1] == t[i];
  }

  /** `re.sub(r'https?://\S+', '', text)`. */
  function RemoveUrls(s: string): (r: string)
    ensures |r| <= |s|
    decreases |s|
  {
    if s == [] then []
    else if UrlStart(s, 0) then RemoveUrls(s[UrlLength(s)..])
    else [s[0]] + RemoveUrls(s[1..])
  }

  /** A text without ':' holds no token and is left alone. */
  lemma {:induction false} RemoveUrlsNoColon(s: string)
    requires ':' !in s
    ensures RemoveUrls(s) == s
    decreases |s|
  {
    if s != [] {
      assert !UrlStart(s, 0) by {
        if |s| >= 6 {
          assert s[4] in s && s[5] in s;
        }
      }
      assert ':' !in s[1..];
      RemoveUrlsNoColon(s[1..]);
    }
  }

  /**
   * The result keeps the text's first character or starts with the whitespace that
   * ended a removed token, and its leading non-whitespace run is a prefix of the text.
   */
  lemma {:induction false} RemoveUrlsHead(s: string)
    ensures var r := RemoveUrls(s);
      (r == [] || r[0] == s[0] || IsPySpace(r[0]))
      && PrefixRun(r, NotPySpace) <= |s| && r[..PrefixRun(r, NotPySpace)] == s[..PrefixRun(r, NotPySpace)]
    decreases |s|
  {
    if s == [] {
    } else if UrlStart(s, 0) {
      var t := s[UrlLength(s)..];
      RemoveUrlsHead(t);
      assert RemoveUrls(s) == RemoveUrls(t);
      assert PrefixRun(RemoveUrls(t), NotPySpace) == 0 by {
        assert t == [] || IsPySpace(t[0]);
      }
    } else {
      RemoveUrlsHead(s[1..]);
      assert RemoveUrls(s) == [s[0]] + RemoveUrls(s[1..]);
      RemoveUrlsHeadStep(s, RemoveUrls(s[1..]));
    }
  }

  /** The step of the above: the text's first character put in front of the rest's result. */
  lemma RemoveUrlsHeadStep(s: string, rest: string)
    requires s != []
    requires PrefixRun(rest, NotPySpace) <= |s| - 1
    requires rest[..PrefixRun(rest, NotPySpace)] == s[1..][..PrefixRun(rest, NotPySpace)]
    ensures var r := [s[0]] + rest;
      PrefixRun(r, NotPySpace) <= |s| && r[..PrefixRun(r, NotPySpace)] == s[..PrefixRun(r, NotPySpace)]
  {
    if !IsPySpace(s[0]) {
      ConsRun(s[0], rest);
      ConsSamePrefix(rest, s, PrefixRun(rest, NotPySpace));
    } else {
      assert PrefixRun([s[0]] + rest, NotPySpace) == 0;
    }
  }

  /** A visible character in front lengthens the leading visible run by one. */
  lemma ConsRun(c: char, x: string)
    requires NotPySpace(c)
    ensures PrefixRun([c] + x, NotPySpace) == PrefixRun(x, NotPySpace) + 1
  {
    assert ([c] + x)[1..] == x;
  }

  /** A prefix of the rest of `y`, behind the first character of `y`, is a prefix of `y`. */
  lemma ConsSamePrefix(x: string, y: string, m: nat)
    requires 1 <= |y| && m <= |x| && m < |y| && x[..m] == y[1..][..m]
    ensures ([y[0]] + x)[..m + 1] == y[..m + 1]
  {
    assert ([y[0]] + x)[..m + 1] == [y[0]] + x[..m];
    assert y[..m + 1] == [y[0]] + y[1..][..m];
  }

  /** Every token is removed, and the removal cannot form a new one. */
  lemma {:induction false} RemoveUrlsComplete(s: string)
    ensures NoUrl(RemoveUrls(s))
    decreases |s|
  {
    if s == [] {
    } else if UrlStart(s, 0) {
      RemoveUrlsComplete(s[UrlLength(s)..]);
      assert RemoveUrls(s) == RemoveUrls(s[UrlLength(s)..]);
    } else {
      var rest := RemoveUrls(s[1..]);
      var r := [s[0]] + rest;
      assert RemoveUrls(s) == r;
      RemoveUrlsComplete(s[1..]);
      RemoveUrlsHead(s);
      UrlStartPrefix(r, s);
      forall k | 1 <= k < |r|
        ensures !UrlStart(r, k)
      {
        assert !UrlStart(rest, k - 1);
        UrlStartCons(s[0], rest, k - 1);
      }
    }
  }

  /** No two marks become neighbours, because a removed token is followed by whitespace or the end. */
  lemma {:induction false} RemoveUrlsSeparated(s: string)
    ensures NoMarkPair(s) ==> NoMarkPair(RemoveUrls(s))
    decreases |s|
  {
    if s == [] {
    } else if UrlStart(s, 0) {
      var t := s[UrlLength(s)..];
      RemoveUrlsSeparated(t);
      assert NoMarkPair(s) ==> NoMarkPair(t) by {
        assert forall i | 0 <= i < |t| :: t[i] == s[UrlLength(s) + i];
      }
    } else {
      RemoveUrlsSeparated(s[1..]);
      RemoveUrlsHead(s[1..]);
      assert NoMarkPair(s) ==> NoMarkPair(s[1..]) by {
        assert forall i | 0 <= i < |s| - 1 :: s[1..][i] == s[i + 1];
      }
    }
  }

  /** The removal adds no whitespace. */
  lemma {:induction false} RemoveUrlsBlank(s: string)
    ensures BlankSpaces(s) ==> BlankSpaces(RemoveUrls(s))
    decreases |s|
  {
    if s != [] {
      var n := if UrlStart(s, 0) then UrlLength(s) else 1;
      RemoveUrlsBlank(s[n..]);
      assert BlankSpaces(s) ==> BlankSpaces(s[n..]) by {
        assert forall i | 0 <= i < |s| - n :: s[n..][i] == s[n + i];
      }
    }
  }

  /** Properties of a text carry over to any slice of it. */
  lemma SliceKeeps(s: string, a: nat, t: string)
    requires a + |t| <= |s| && t == s[a..a + |t|]
    ensures BlankSpaces(s) ==> BlankSpaces(t)
    ensures NoMarkPair(s) ==> NoMarkPair(t)
    ensures NoUrl(s) ==> NoUrl(t)
  {
    assert forall i | 0 <= i < |t| :: t[i] == s[a + i];
    forall k | 0 <= k < |t| && UrlStart(t, k)
      ensures UrlStart(s, a + k)
    {
    }
  }

  /**
   * `clean_text`: whitespace collapse, the five references, mark runs, URL tokens,
   * then `strip()`.
   */
  function CleanText(text: string): (r: string)
    ensures |r| <= |text|
  {
    Strip(RemoveUrls(CollapseMarks(Unescape(CollapseSpace(text)))))
  }

  /** `strip()` keeps the properties of its argument and leaves no whitespace at either end. */
  lemma StripKeeps(s: string)
    ensures var r := Strip(s);
      (r == [] || (!IsPySpace(r[0]) && !IsPySpace(r[|r| - 1])))
      && (BlankSpaces(s) ==> BlankSpaces(r))
      && (NoMarkPair(s) ==> NoMarkPair(r))
      && (NoUrl(s) ==> NoUrl(r))
  {
    TrimEnds(s, IsPySpace);
    TrimIsSlice(s, IsPySpace);
    SliceKeeps(s, PrefixRun(s, IsPySpace), Strip(s));
  }

  /** The stages after the references, on a text whose only whitespace is plain spaces. */
  lemma LaterStages(u: string)
    requires BlankSpaces(u)
    ensures var r := Strip(RemoveUrls(CollapseMarks(u)));
      (r == [] || (!IsPySpace(r[0]) && !IsPySpace(r[|r| - 1])))
      && BlankSpaces(r) && NoMarkPair(r) && NoUrl(r)
  {
    var marks := CollapseMarks(u);
    CollapseMarksSeparates(u);
    CollapseMarksBlank(u);
    RemoveUrlsSeparated(marks);
    RemoveUrlsBlank(marks);
    RemoveUrlsComplete(marks);
    StripKeeps(RemoveUrls(marks));
  }

  /**
   * A cleaned text has no whitespace at either end, no whitespace but plain spaces,
   * no two neighbouring marks and no URL token left.
   */
  lemma CleanTextShape(text: string)
    ensures var r := CleanText(text);
      (r == [] || (!IsPySpace(r[0]) && !IsPySpace(r[|r| - 1])))
      && BlankSpaces(r) && NoMarkPair(r) && NoUrl(r)
  {
    var collapsed := CollapseSpace(text);
    assert BlankSpaces(collapsed);
    LaterStages(Unescape(collapsed));
  }

  /**
   * On a text without references, marks or ':' every stage but the whitespace collapse
   * and `strip()` is idle, and the cleaned text has exactly the words of `text.split()`:
   * the collapse and `strip()` change only the whitespace between and around them.
   */
  lemma CleanTextPlain(text: string)
    requires '&' !in text && ':' !in text && '.' !in text && '!' !in text && '?' !in text
    ensures CleanText(text) == Strip(CollapseSpace(text))
    ensures Words(CleanText(text)) == Words(text)
  {
    var c := CollapseSpace(text);
    CollapseSpaceAbsent(text, '&');
    CollapseSpaceAbsent(text, ':');
    CollapseSpaceAbsent(text, '.');
    CollapseSpaceAbsent(text, '!');
    CollapseSpaceAbsent(text, '?');
    LaterStagesIdle(c);
    WordsStrip(c);
    CollapseSpaceWords(text);
  }

  /** The references, the mark runs and the URL tokens leave a text without '&', marks or ':' alone. */
  lemma LaterStagesIdle(c: string)
    requires '&' !in c && ':' !in c && '.' !in c && '!' !in c && '?' !in c
    ensures RemoveUrls(CollapseMarks(Unescape(c))) == c
  {
    UnescapeAbsent(c);
    assert NoMarkPair(c) by {
      assert forall i | 0 <= i < |c| :: c[i] in c;
    }
    CollapseMarksIdle(c);
    RemoveUrlsNoColon(c);
  }

  /** A text without '&' holds no reference and is left alone. */
  lemma UnescapeAbsent(c: string)
    requires '&' !in c
    ensures Unescape(c) == c
  {
    ReplaceAbsent(c, "&amp;", "&");
    ReplaceAbsent(c, "&lt;", "<");
    ReplaceAbsent(c, "&gt;", ">");
    ReplaceAbsent(c, "&quot;", "\"");
    ReplaceAbsent(c, "&#39;", "'");
  }

  // ---------------------------------------------------------------------------
  // detect_language
  // ---------------------------------------------------------------------------

  /** The twelve letters of `[ğĞüÜşŞıİöÖçÇ]`. */
  predicate IsTurkishLetter(c: char) {
    c == 'ğ' || c == 'Ğ' || c == 'ü' || c == 'Ü' || c == 'ş' || c == 'Ş'
    || c == 'ı' || c == 'İ' || c == 'ö' || c == 'Ö' || c == 'ç' || c == 'Ç'
  }

  /** `detect_language`, with the float test `count > len * 0.01` read exactly as `100 * count > len`. */
  function DetectLanguage(text: string): (lang: string)
    ensures lang == "tr" || lang == "en"
  {
    if 100 * CountWhere(text, IsTurkishLetter) > |text| then "tr" else "en"
  }

  lemma {:induction false} CountWhereAll(s: string, p: char -> bool)
    requires forall i | 0 <= i < |s| :: p(s[i])
    ensures CountWhere(s, p) == |s|
    decreases |s|
  {
    if s != [] {
      CountWhereAll(s[1..], p);
    }
  }

  lemma {:induction false} CountWhereNone(s: string, p: char -> bool)
    requires forall i | 0 <= i < |s| :: !p(s[i])
    ensures CountWhere(s, p) == 0
    decreases |s|
  {
    if s != [] {
      CountWhereNone(s[1..], p);
    }
  }

  lemma {:induction false} CountWhereSome(s: string, p: char -> bool, i: nat)
    requires i < |s| && p(s[i])
    ensures CountWhere(s, p) >= 1
    decreases i
  {
    if i > 0 {
      CountWhereSome(s[1..], p, i - 1);
    }
  }

  /** A text without any of the twelve letters, the empty text included, is English. */
  lemma DetectWithoutTurkishLetters(text: string)
    requires forall i | 0 <= i < |text| :: !IsTurkishLetter(text[i])
    ensures DetectLanguage(text) == "en"
  {
    CountWhereNone(text, IsTurkishLetter);
  }

  /** A non-empty text made only of the twelve letters is Turkish. */
  lemma DetectOnlyTurkishLetters(text: string)
    requires text != [] && forall i | 0 <= i < |text| :: IsTurkishLetter(text[i])
    ensures DetectLanguage(text) == "tr"
  {
    CountWhereAll(text, IsTurkishLetter);
  }

  /** Below 100 characters a single one of the letters already decides for Turkish. */
  lemma DetectShortText(text: string, i: nat)
    requires |text| < 100 && i < |text| && IsTurkishLetter(text[i])
    ensures DetectLanguage(text) == "tr"
  {
    CountWhereSome(text, IsTurkishLetter, i);
  }

  /** Exactly one letter in a hundred is not enough: the ratio must exceed 1%. */
  lemma DetectThreshold(text: string)
    requires |text| == 100 && CountWhere(text, IsTurkishLetter) == 1
    ensures DetectLanguage(text) == "en"
  {
  }

  // ---------------------------------------------------------------------------
  // extract_paragraphs
  // ---------------------------------------------------------------------------

  /** A `TranscriptSegment`; start and duration are carried, never computed with. */
  datatype Segment = Segment(text: string, start: real, duration: real)

  /** `s.endswith(('.', '!', '?'))`. */
  predicate EndsSentence(s: string) {
    |s| > 0 && IsMark(s[|s| - 1])
  }

  /** The texts of the segments, each followed by one space, as the loops accumulate them. */
  function Glue(segments: seq<Segment>): string {
    if segments == [] then "" else segments[0].text + " " + Glue(segments[1..])
  }

  /** Paragraphs still to come, given the segments left and the paragraph accumulated so far. */
  function ParagraphsFrom(segments: seq<Segment>, current: string, minChars: int): seq<string>
    decreases |segments|
  {
    if segments == [] then (if Strip(current) != "" then [Strip(current)] else [])
    else
      var grown := current + segments[0].text + " ";
      if |grown| >= minChars && EndsSentence(Strip(grown)) then [Strip(grown)] + ParagraphsFrom(segments[1..], "", minChars)
      else ParagraphsFrom(segments[1..], grown, minChars)
  }

  /** What `extract_paragraphs` returns: never more paragraphs than segments. */
  function Paragraphs(segments: seq<Segment>, minChars: int): (r: seq<string>)
    ensures |r| <= |segments|
  {
    StripEmpty();
    ParagraphsFromCount(segments, "", minChars);
    ParagraphsFrom(segments, "", minChars)
  }

  /** `extract_paragraphs`. */
  method ExtractParagraphs(segments: seq<Segment>, minChars: int) returns (paragraphs: seq<string>)
    ensures paragraphs == Paragraphs(segments, minChars)
  {
    paragraphs := [];
    var current := "";
    var i := 0;
    while i < |segments|
      invariant 0 <= i <= |segments|
      invariant paragraphs + ParagraphsFrom(segments[i..], current, minChars) == Paragraphs(segments, minChars)
    {
      assert segments[i..][1..] == segments[i + 1..];
      current := current + segments[i].text + " ";
      if |current| >= minChars && EndsSentence(Strip(current)) {
        paragraphs := paragraphs + [Strip(current)];
        current := "";
      }
      i := i + 1;
    }
    if Strip(current) != "" {
      paragraphs := paragraphs + [Strip(current)];
    }
  }

  /** Dropping leading whitespace keeps the same visible characters. */
  lemma {:induction false} KeepAfterLead(s: string)
    ensures Keep(s[PrefixRun(s, IsPySpace)..], NotPySpace) == Keep(s, NotPySpace)
  {
    var a := PrefixRun(s, IsPySpace);
    TakeDrop(s, a);
    KeepAppend(s[..a], s[a..], NotPySpace);
    KeepNone(s[..a], NotPySpace);
  }

  /** Dropping trailing whitespace keeps the same visible characters. */
  lemma {:induction false} KeepBeforeTrail(t: string)
    ensures Keep(t[..|t| - SuffixRun(t, IsPySpace)], NotPySpace) == Keep(t, NotPySpace)
  {
    var c := |t| - SuffixRun(t, IsPySpace);
    TakeDrop(t, c);
    KeepAppend(t[..c], t[c..], NotPySpace);
    KeepNone(t[c..], NotPySpace);
  }

  /** `strip()` removes whitespace only, and a blank text strips to nothing. */
  lemma {:induction false} StripVisible(s: string)
    ensures Keep(Strip(s), NotPySpace) == Keep(s, NotPySpace)
    ensures Strip(s) == "" ==> Keep(s, NotPySpace) == ""
  {
    var t := s[PrefixRun(s, IsPySpace)..];
    assert Strip(s) == t[..|t| - SuffixRun(t, IsPySpace)];
    KeepAfterLead(s);
    KeepBeforeTrail(t);
  }

  lemma StripEmpty()
    ensures Strip("") == ""
  {
    assert PrefixRun("", IsPySpace) == 0;
  }

  /** There are never more paragraphs than segments. */
  lemma {:induction false} ParagraphsFromCount(segments: seq<Segment>, current: string, minChars: int)
    ensures |ParagraphsFrom(segments, current, minChars)| <= |segments| + (if Strip(current) == "" then 0 else 1)
    decreases |segments|
  {
    StripEmpty();
    if segments != [] {
      var grown := current + segments[0].text + " ";
      ParagraphsFromCount(segments[1..], "", minChars);
      ParagraphsFromCount(segments[1..], grown, minChars);
    }
  }

  /** Non-empty, with no whitespace at either end. */
  predicate Stripped(p: string) {
    p != "" && !IsPySpace(p[0]) && !IsPySpace(p[|p| - 1])
  }

  /** Every paragraph is stripped, and all but the last end with '.', '!' or '?'. */
  predicate ParagraphsShaped(r: seq<string>) {
    (forall i | 0 <= i < |r| :: Stripped(r[i])) && forall i | 0 <= i < |r| - 1 :: EndsSentence(r[i])
  }

  lemma {:induction false} ParagraphsFromShape(segments: seq<Segment>, current: string, minChars: int)
    ensures ParagraphsShaped(ParagraphsFrom(segments, current, minChars))
    decreases |segments|
  {
    if segments == [] {
      StripStripped(current);
    } else {
      var grown := current + segments[0].text + " ";
      if |grown| >= minChars && EndsSentence(Strip(grown)) {
        StripStripped(grown);
        ParagraphsFromShape(segments[1..], "", minChars);
        ConsShaped(Strip(grown), ParagraphsFrom(segments[1..], "", minChars));
      } else {
        ParagraphsFromShape(segments[1..], grown, minChars);
      }
    }
  }

  lemma StripStripped(s: string)
    ensures Strip(s) != "" ==> Stripped(Strip(s))
  {
    TrimEnds(s, IsPySpace);
  }

  /** A finished paragraph in front of well-shaped ones keeps the shape. */
  lemma ConsShaped(p: string, tail: seq<string>)
    requires Stripped(p) && EndsSentence(p) && ParagraphsShaped(tail)
    ensures ParagraphsShaped([p] + tail)
  {
    var r := [p] + tail;
    assert forall i | 1 <= i < |r| :: r[i] == tail[i - 1];
  }

  /**
   * `p` is a paragraph closed inside the loop: the stripped glue of consecutive segments
   * `all[j..k]`, from `lo` on, that had gathered at least `minChars` characters.
   */
  predicate ClosedBlock(all: seq<Segment>, lo: nat, p: string, minChars: int) {
    exists j, k | lo <= j < k <= |all| :: Block(all, j, k, p, minChars)
  }

  /** `p` is the stripped glue of `all[j..k]`, which has at least `minChars` characters. */
  predicate Block(all: seq<Segment>, j: nat, k: nat, p: string, minChars: int)
    requires j <= k <= |all|
  {
    p == Strip(Glue(all[j..k])) && |Glue(all[j..k])| >= minChars
  }

  /**
   * The paragraphs still to come when the segments before `m` have been read and those
   * from `j0` on are accumulated: all but the last are closed blocks from `j0` on.
   */
  lemma {:induction false} ParagraphsFromBlocks(all: seq<Segment>, j0: nat, m: nat, minChars: int)
    requires j0 <= m <= |all|
    ensures var r := ParagraphsFrom(all[m..], Glue(all[j0..m]), minChars);
      forall i | 0 <= i < |r| - 1 :: ClosedBlock(all, j0, r[i], minChars)
    decreases |all| - m
  {
    if m == |all| {
      assert all[m..] == [];
    } else {
      var grown := Glue(all[j0..m + 1]);
      ParagraphsStep(all, j0, m, minChars);
      if |grown| >= minChars && EndsSentence(Strip(grown)) {
        ParagraphsFromBlocks(all, m + 1, m + 1, minChars);
        assert Block(all, j0, m + 1, Strip(grown), minChars);
        ClosedCons(all, j0, m + 1, Strip(grown), ParagraphsFrom(all[m + 1..], Glue(all[m + 1..m + 1]), minChars), minChars);
      } else {
        ParagraphsFromBlocks(all, j0, m + 1, minChars);
      }
    }
  }

  /** A closed block from `lo` on is one from any earlier start. */
  lemma ClosedWiden(all: seq<Segment>, j0: nat, lo: nat, p: string, minChars: int)
    requires j0 <= lo && ClosedBlock(all, lo, p, minChars)
    ensures ClosedBlock(all, j0, p, minChars)
  {
    var j, k :| lo <= j < k <= |all| && Block(all, j, k, p, minChars);
  }

  /** One turn of the loop, with the accumulation written as the glue of the segments since `j0`. */
  lemma ParagraphsStep(all: seq<Segment>, j0: nat, m: nat, minChars: int)
    requires j0 <= m < |all|
    ensures var grown := Glue(all[j0..m + 1]);
      ParagraphsFrom(all[m..], Glue(all[j0..m]), minChars)
      == if |grown| >= minChars && EndsSentence(Strip(grown))
         then [Strip(grown)] + ParagraphsFrom(all[m + 1..], Glue(all[m + 1..m + 1]), minChars)
         else ParagraphsFrom(all[m + 1..], grown, minChars)
  {
    var rest := all[m..];
    assert rest[0] == all[m] && rest[1..] == all[m + 1..];
    assert all[j0..m + 1] == all[j0..m] + [all[m]];
    GlueAppend(all[j0..m], all[m]);
    assert all[m + 1..m + 1] == [];
  }

  /** A closed block in front of paragraphs that are closed blocks from a later start. */
  lemma ClosedCons(all: seq<Segment>, j0: nat, lo: nat, p: string, tail: seq<string>, minChars: int)
    requires j0 <= lo && ClosedBlock(all, j0, p, minChars)
    requires forall i | 0 <= i < |tail| - 1 :: ClosedBlock(all, lo, tail[i], minChars)
    ensures var r := [p] + tail; forall i | 0 <= i < |r| - 1 :: ClosedBlock(all, j0, r[i], minChars)
  {
    var r := [p] + tail;
    forall i | 1 <= i < |r| - 1
      ensures ClosedBlock(all, j0, r[i], minChars)
    {
      Seqs.ConsIndex(p, tail, i);
      ClosedWiden(all, j0, lo, tail[i - 1], minChars);
    }
  }

  /**
   * Every paragraph is stripped and all but the last end with '.', '!' or '?'. All but
   * the last were closed inside the loop, so each is the stripped glue of a stretch of
   * consecutive segments that had gathered at least `minChars` characters.
   */
  lemma ParagraphShape(segments: seq<Segment>, minChars: int)
    ensures ParagraphsShaped(Paragraphs(segments, minChars))
    ensures var r := Paragraphs(segments, minChars);
      forall i | 0 <= i < |r| - 1 :: ClosedBlock(segments, 0, r[i], minChars)
  {
    ParagraphsFromShape(segments, "", minChars);
    assert segments[0..] == segments && segments[0..0] == [];
    ParagraphsFromBlocks(segments, 0, 0, minChars);
    var r := Paragraphs(segments, minChars);
    assert r == ParagraphsFrom(segments[0..], Glue(segments[0..0]), minChars);
  }

  /** The paragraphs, one after the other. */
  function Concat(parts: seq<string>): string {
    if parts == [] then "" else parts[0] + Concat(parts[1..])
  }

  /** The paragraphs hold exactly the non-whitespace characters of the accumulation, in order. */
  lemma {:induction false} ParagraphsFromContent(segments: seq<Segment>, current: string, minChars: int)
    ensures Keep(Concat(ParagraphsFrom(segments, current, minChars)), NotPySpace) == Keep(current + Glue(segments), NotPySpace)
    decreases |segments|
  {
    if segments == [] {
      StripVisible(current);
      assert current + Glue(segments) == current;
      if Strip(current) != "" {
        assert [Strip(current)][1..] == [];
        assert Concat([Strip(current)]) == Strip(current);
      } else {
        assert Keep("", NotPySpace) == "";
      }
    } else {
      var grown := current + segments[0].text + " ";
      var rest := segments[1..];
      assert current + Glue(segments) == grown + Glue(rest);
      if |grown| >= minChars && EndsSentence(Strip(grown)) {
        var tail := ParagraphsFrom(rest, "", minChars);
        ParagraphsFromContent(rest, "", minChars);
        assert ([Strip(grown)] + tail)[1..] == tail;
        assert Concat([Strip(grown)] + tail) == Strip(grown) + Concat(tail);
        KeepAppend(Strip(grown), Concat(tail), NotPySpace);
        StripVisible(grown);
        assert "" + Glue(rest) == Glue(rest);
        KeepAppend(grown, Glue(rest), NotPySpace);
      } else {
        ParagraphsFromContent(rest, grown, minChars);
      }
    }
  }

  /** Paragraphs keep segment order and drop nothing but whitespace. */
  lemma ParagraphContent(segments: seq<Segment>, minChars: int)
    ensures Keep(Concat(Paragraphs(segments, minChars)), NotPySpace) == Keep(Glue(segments), NotPySpace)
  {
    ParagraphsFromContent(segments, "", minChars);
    assert "" + Glue(segments) == Glue(segments);
  }

  // ---------------------------------------------------------------------------
  // extract_important_terms
  // ---------------------------------------------------------------------------

  /**
   * `\w` of a Python `str` pattern, for the scripts the transcripts use: ASCII letters,
   * digits and '_', the letters and numeric characters of Latin-1 (the superscripts
   * '²', '³', '¹' and the fractions '¼', '½', '¾' count as digits or numerals there)
   * and the letters of Latin Extended-A/B.
   */
  predicate IsPyWord(c: char) {
    IsAsciiWord(c) || c == '\U{AA}' || c == '\U{B5}' || c == '\U{BA}'
    || c == '\U{B2}' || c == '\U{B3}' || c == '\U{B9}' || ('\U{BC}' <= c <= '\U{BE}')
    || ('\U{C0}' <= c <= '\U{24F}' && c != '\U{D7}' && c != '\U{F7}')
  }

  /** The class `[a-zA-ZğĞüÜşŞıİöÖçÇ]`. */
  predicate IsTermLetter(c: char) {
    'a' <= c <= 'z' || 'A' <= c <= 'Z' || IsTurkishLetter(c)
  }

  /**
   * `re.findall(r'\b[a-zA-ZğĞüÜşŞıİöÖçÇ]{3,}\b', s)`. A match needs a word boundary on
   * both sides, and every letter of the class is a word character, so the matches are
   * exactly the maximal runs of word characters that have three or more characters, all
   * from the class.
   */
  function FindTerms(s: string): (terms: seq<string>)
    ensures forall i | 0 <= i < |terms| :: |terms[i]| >= 3 && forall j | 0 <= j < |terms[i]| :: IsTermLetter(terms[i][j])
    decreases |s|
  {
    if s == [] then []
    else if !IsPyWord(s[0]) then FindTerms(s[1..])
    else
      var n := PrefixRun(s, IsPyWord);
      (if n >= 3 && forall j | 0 <= j < n :: IsTermLetter(s[j]) then [s[..n]] else []) + FindTerms(s[n..])
  }

  /**
   * A run of word characters with one character outside the class (a digit, '_', a
   * superscript, an accented letter) is no term, however long: the pattern needs a
   * boundary on both sides, so no part of the run matches either.
   */
  lemma FindTermsGlued(w: string, rest: string)
    requires w != [] && forall j | 0 <= j < |w| :: IsPyWord(w[j])
    requires exists j | 0 <= j < |w| :: !IsTermLetter(w[j])
    requires rest == [] || !IsPyWord(rest[0])
    ensures FindTerms(w + rest) == FindTerms(rest)
  {
    var s := w + rest;
    PrefixRunAll(w, IsPyWord);
    PrefixRunAppend(w, rest, IsPyWord);
    assert PrefixRun(s, IsPyWord) == |w|;
    AppendSlices(w, rest, |w|);
    assert s[..|w|] == w && s[|w|..] == rest;
    assert s[0] == w[0];
  }

  /** Example: a digit glued to a word hides it, and the next word is found. */
  lemma FindTermsDigitGlued()
    ensures FindTerms("cay2 kahve") == ["kahve"]
  {
    FindTermsWhole("kahve");
    var s := "cay2 kahve";
    var w := s[..4];
    assert IsPyWord(w[0]) && IsPyWord(w[1]) && IsPyWord(w[2]) && IsPyWord(w[3]) && !IsTermLetter(w[3]);
    assert !IsPyWord(s[4..][0]);
    FindTermsGlued(w, s[4..]);
    Seqs.TakeDrop(s, 4);
    assert s[4..][1..] == "kahve";
  }

  /** Example: a superscript is a word character, so a unit such as `km²` is no term. */
  lemma FindTermsSuperscriptGlued()
    ensures FindTerms("km² alan") == ["alan"]
  {
    FindTermsWhole("alan");
    var s := "km² alan";
    var w := s[..3];
    assert IsPyWord(w[0]) && IsPyWord(w[1]) && IsPyWord(w[2]) && !IsTermLetter(w[2]);
    assert !IsPyWord(s[3..][0]);
    FindTermsGlued(w, s[3..]);
    Seqs.TakeDrop(s, 3);
    assert s[3..][1..] == "alan";
  }

  /** A text that is one run of three or more letters of the class is one term. */
  lemma FindTermsWhole(s: string)
    requires |s| >= 3 && forall j | 0 <= j < |s| :: IsTermLetter(s[j])
    ensures FindTerms(s) == [s]
  {
    assert forall j | 0 <= j < |s| :: IsPyWord(s[j]);
    PrefixRunAll(s, IsPyWord);
    assert s[..|s|] == s && s[|s|..] == [];
  }

  /** `[word for word in words if word not in STOP_WORDS]`. */
  function WithoutStopWords(words: seq<string>, stopWords: set<string>): (r: seq<string>)
    ensures forall w :: w in r <==> w in words && w !in stopWords
    decreases |words|
  {
    if words == [] then []
    else (if words[0] in stopWords then [] else [words[0]]) + WithoutStopWords(words[1..], stopWords)
  }

  /** Number of occurrences of `w` in `ws`: what `Counter` records. */
  function Count(ws: seq<string>, w: string): nat
    decreases |ws|
  {
    if ws == [] then 0 else (if ws[0] == w then 1 else 0) + Count(ws[1..], w)
  }

  /** Index of the first occurrence of `w` in `ws`. */
  function FirstIndex(ws: seq<string>, w: string): (i: nat)
    requires w in ws
    ensures i < |ws| && ws[i] == w
    ensures forall j | 0 <= j < i :: ws[j] != w
    decreases |ws|
  {
    if ws[0] == w then 0 else 1 + FirstIndex(ws[1..], w)
  }

  lemma {:induction false} FirstIndexPrefix(ws: seq<string>, k: nat, w: string)
    requires k <= |ws| && w in ws[..k]
    ensures FirstIndex(ws, w) == FirstIndex(ws[..k], w)
    decreases k
  {
    if ws[0] != w {
      assert ws[..k][0] == ws[0];
      assert ws[1..][..k - 1] == ws[..k][1..];
      FirstIndexPrefix(ws[1..], k - 1, w);
    }
  }

  lemma NotInPrefix(ws: seq<string>, k: nat, w: string)
    requires k <= |ws| && w !in ws[..k]
    ensures forall j | 0 <= j < k :: ws[j] != w
  {
    assert forall j | 0 <= j < k :: ws[j] == ws[..k][j];
  }

  /** The distinct words in order of first occurrence: the key order of `Counter`. */
  function Uniques(ws: seq<string>): (u: seq<string>)
    ensures Distinct(u)
    ensures forall w :: w in u <==> w in ws
    decreases |ws|
  {
    if ws == [] then []
    else
      var prefix := ws[..|ws| - 1];
      var u := Uniques(prefix);
      assert ws == prefix + [ws[|ws| - 1]];
      if ws[|ws| - 1] in u then u else u + [ws[|ws| - 1]]
  }

  lemma {:induction false} UniquesOrder(ws: seq<string>)
    ensures forall i, j | 0 <= i < j < |Uniques(ws)| :: Rank(ws, Uniques(ws)[i]) < Rank(ws, Uniques(ws)[j])
    decreases |ws|
  {
    if ws != [] {
      var n := |ws| - 1;
      var prefix := ws[..n];
      var u := Uniques(prefix);
      UniquesOrder(prefix);
      forall x | x in u
        ensures Rank(ws, x) == Rank(prefix, x) < n
      {
        FirstIndexPrefix(ws, n, x);
      }
      if ws[n] !in u {
        NotInPrefix(ws, n, ws[n]);
        assert Rank(ws, ws[n]) == n;
        var v := u + [ws[n]];
        assert Uniques(ws) == v;
        assert forall i | 0 <= i < |u| :: v[i] == u[i] && v[i] in u;
      } else {
        assert Uniques(ws) == u;
        assert forall i | 0 <= i < |u| :: u[i] in u;
      }
    }
  }

  /** A counted term, as `most_common` returns it. */
  datatype TermCount = TermCount(term: string, count: nat)

  /** The `Counter` items in key order. */
  function Tally(keys: seq<string>, ws: seq<string>): (r: seq<TermCount>)
    ensures |r| == |keys| && forall i | 0 <= i < |keys| :: r[i] == TermCount(keys[i], Count(ws, keys[i]))
  {
    seq(|keys|, i requires 0 <= i < |keys| => TermCount(keys[i], Count(ws, keys[i])))
  }

  /** Stable insertion: after every entry whose count is at least `x`'s. */
  function Insert(s: seq<TermCount>, x: TermCount): (r: seq<TermCount>)
    ensures multiset(r) == multiset(s) + multiset{x}
    decreases |s|
  {
    if s == [] then [x]
    else if s[0].count >= x.count then
      assert s == [s[0]] + s[1..];
      [s[0]] + Insert(s[1..], x)
    else [x] + s
  }

  /** Stable sort by descending count: `sorted(..., key=count, reverse=True)`. */
  function SortByCount(s: seq<TermCount>): (r: seq<TermCount>)
    ensures multiset(r) == multiset(s)
    decreases |s|
  {
    if s == [] then []
    else
      assert s == s[..|s| - 1] + [s[|s| - 1]];
      Insert(SortByCount(s[..|s| - 1]), s[|s| - 1])
  }

  /** Position of the first occurrence of `w` in `ws`, and `|ws|` for a word that does not occur. */
  function Rank(ws: seq<string>, w: string): nat {
    if w in ws then FirstIndex(ws, w) else |ws|
  }

  /** `a` comes before `b`: a higher count, or the same count and an earlier first occurrence in `ws`. */
  predicate Precedes(a: TermCount, b: TermCount, ws: seq<string>) {
    a.count > b.count || (a.count == b.count && Rank(ws, a.term) < Rank(ws, b.term))
  }

  /** `s` is in `most_common` order for the words `ws`. */
  predicate RankedBy(s: seq<TermCount>, ws: seq<string>) {
    forall i, j | 0 <= i < j < |s| :: Precedes(s[i], s[j], ws)
  }

  /** Every entry is a word of `ws` with its number of occurrences. */
  predicate Counted(s: seq<TermCount>, ws: seq<string>) {
    forall y | y in s :: y.term in ws && y.count == Count(ws, y.term)
  }

  lemma SameMembers<T>(a: seq<T>, b: seq<T>)
    requires multiset(a) == multiset(b)
    ensures forall y :: y in a <==> y in b
  {
    forall y
      ensures y in a <==> y in b
    {
      assert y in a <==> y in multiset(a);
      assert y in b <==> y in multiset(b);
    }
  }

  lemma RankedTail(s: seq<TermCount>, ws: seq<string>)
    requires s != [] && RankedBy(s, ws)
    ensures RankedBy(s[1..], ws)
    ensures forall y | y in s[1..] :: Precedes(s[0], y, ws)
  {
    assert forall i | 0 <= i < |s| - 1 :: s[1..][i] == s[i + 1];
  }

  lemma ConsRanked(h: TermCount, t: seq<TermCount>, ws: seq<string>)
    requires RankedBy(t, ws) && forall y | y in t :: Precedes(h, y, ws)
    ensures RankedBy([h] + t, ws)
  {
    var r := [h] + t;
    assert forall i | 1 <= i < |r| :: r[i] == t[i - 1] && r[i] in t;
  }

  lemma {:induction false} InsertRanked(s: seq<TermCount>, x: TermCount, ws: seq<string>)
    requires RankedBy(s, ws)
    requires forall y | y in s :: Rank(ws, y.term) < Rank(ws, x.term)
    ensures RankedBy(Insert(s, x), ws)
    decreases |s|
  {
    if s != [] {
      RankedTail(s, ws);
      if s[0].count >= x.count {
        var tail := Insert(s[1..], x);
        InsertRanked(s[1..], x, ws);
        SameMembers(tail, s[1..] + [x]);
        assert Precedes(s[0], x, ws);
        ConsRanked(s[0], tail, ws);
      } else {
        ConsRanked(x, s, ws);
      }
    }
  }

  lemma {:induction false} SortRanked(s: seq<TermCount>, ws: seq<string>)
    requires forall i, j | 0 <= i < j < |s| :: Rank(ws, s[i].term) < Rank(ws, s[j].term)
    ensures RankedBy(SortByCount(s), ws)
    decreases |s|
  {
    if s != [] {
      var n := |s| - 1;
      var prefix := s[..n];
      SortRanked(prefix, ws);
      var sorted := SortByCount(prefix);
      SameMembers(sorted, prefix);
      assert forall y | y in prefix :: Rank(ws, y.term) < Rank(ws, s[n].term);
      InsertRanked(sorted, s[n], ws);
    }
  }

  /** The filtered words of `extract_important_terms`. */
  function TermWords(text: string, stopWords: set<string>): seq<string> {
    WithoutStopWords(FindTerms(Lower(text)), stopWords)
  }

  /** Every counted term in `most_common` order. */
  function Ranking(text: string, stopWords: set<string>): seq<TermCount> {
    var ws := TermWords(text, stopWords);
    SortByCount(Tally(Uniques(ws), ws))
  }

  /** `extract_important_terms(text, top_n)`: `Counter(filtered_words).most_common(top_n)`. */
  function TopTerms(text: string, stopWords: set<string>, topN: nat): (r: seq<TermCount>)
    ensures |r| <= topN
  {
    var ranking := Ranking(text, stopWords);
    ranking[..Min(topN, |ranking|)]
  }

  /** The tally lists the distinct words in order of first occurrence, each with its count. */
  lemma TallyFacts(ws: seq<string>)
    ensures var tally := Tally(Uniques(ws), ws);
      Counted(tally, ws)
      && (forall i, j | 0 <= i < j < |tally| :: Rank(ws, tally[i].term) < Rank(ws, tally[j].term))
      && forall w | w in ws :: TermCount(w, Count(ws, w)) in tally
  {
    var u := Uniques(ws);
    var tally := Tally(u, ws);
    UniquesOrder(ws);
    forall w | w in ws
      ensures TermCount(w, Count(ws, w)) in tally
    {
      var k :| 0 <= k < |u| && u[k] == w;
      assert tally[k] == TermCount(w, Count(ws, w));
    }
  }

  /** The ranking respects `Precedes` and holds exactly the tally's entries. */
  lemma RankingFacts(text: string, stopWords: set<string>)
    ensures var ws := TermWords(text, stopWords); var r := Ranking(text, stopWords);
      RankedBy(r, ws) && Counted(r, ws)
      && forall w | w in ws :: TermCount(w, Count(ws, w)) in r
  {
    var ws := TermWords(text, stopWords);
    var tally := Tally(Uniques(ws), ws);
    TallyFacts(ws);
    SortRanked(tally, ws);
    SameMembers(Ranking(text, stopWords), tally);
  }

  /** Ranked, counted entries never repeat a term. */
  lemma RankedDistinct(r: seq<TermCount>, ws: seq<string>)
    requires RankedBy(r, ws) && Counted(r, ws)
    ensures forall i, j | 0 <= i < j < |r| :: r[i].term != r[j].term
  {
    assert forall i | 0 <= i < |r| :: r[i] in r;
  }

  /**
   * The properties of `extract_important_terms`: at most `topN` entries, counts that
   * never increase, equal counts in order of first occurrence, each count the number of
   * occurrences among the filtered words, no stop word, each term a run of three or
   * more letters of the class, and no term twice.
   */
  lemma TopTermsFacts(text: string, stopWords: set<string>, topN: nat)
    ensures var ws := TermWords(text, stopWords); var r := TopTerms(text, stopWords, topN);
      |r| <= topN
      && (forall i, j | 0 <= i < j < |r| :: r[i].count >= r[j].count)
      && (forall i, j | 0 <= i < j < |r| && r[i].count == r[j].count :: Rank(ws, r[i].term) < Rank(ws, r[j].term))
      && (forall i | 0 <= i < |r| ::
            r[i].count == Count(ws, r[i].term) && r[i].term !in stopWords && r[i].term in FindTerms(Lower(text)))
      && (forall i, j | 0 <= i < j < |r| :: r[i].term != r[j].term)
  {
    var ws := TermWords(text, stopWords);
    RankingFacts(text, stopWords);
    var ranking := Ranking(text, stopWords);
    var r := TopTerms(text, stopWords, topN);
    RankedPrefix(ranking, ws, |r|);
    assert r == ranking[..|r|];
    RankedDistinct(r, ws);
    forall i | 0 <= i < |r|
      ensures r[i].count == Count(ws, r[i].term) && r[i].term in ws
    {
      assert r[i] in r;
    }
  }

  /** A prefix of a ranked, counted sequence is ranked and counted. */
  lemma RankedPrefix(s: seq<TermCount>, ws: seq<string>, n: nat)
    requires n <= |s| && RankedBy(s, ws) && Counted(s, ws)
    ensures RankedBy(s[..n], ws) && Counted(s[..n], ws)
  {
    assert forall i | 0 <= i < n :: s[..n][i] == s[i] && s[i] in s;
  }

  /** A filtered word missing from the result was cut by `topN`, and counts no more than any entry kept. */
  lemma TopTermsComplete(text: string, stopWords: set<string>, topN: nat, w: string)
    requires w in TermWords(text, stopWords)
    ensures var r := TopTerms(text, stopWords, topN);
      (exists i | 0 <= i < |r| :: r[i].term == w)
      || (|r| == topN && forall i | 0 <= i < |r| :: r[i].count >= Count(TermWords(text, stopWords), w))
  {
    var ws := TermWords(text, stopWords);
    RankingFacts(text, stopWords);
    var ranking := Ranking(text, stopWords);
    var r := TopTerms(text, stopWords, topN);
    var j :| 0 <= j < |ranking| && ranking[j] == TermCount(w, Count(ws, w));
    if j < |r| {
      assert r[j].term == w;
    } else {
      assert forall i | 0 <= i < |r| :: r[i] == ranking[i] && Precedes(ranking[i], ranking[j], ws);
    }
  }

  // ---------------------------------------------------------------------------
  // format_transcript_for_openai: the term slice
  // ---------------------------------------------------------------------------

  /** The dictionary `{term: count}` filled from the pairs in order; a later pair overwrites an earlier one. */
  function TermMap(ps: seq<TermCount>): map<string, nat>
    decreases |ps|
  {
    if ps == [] then map[] else TermMap(ps[..|ps| - 1])[ps[|ps| - 1].term := ps[|ps| - 1].count]
  }

  /** The loop over `important_terms[:10]`. */
  method FormatTerms(terms: seq<TermCount>) returns (m: map<string, nat>)
    ensures m == TermMap(terms[..Min(10, |terms|)])
  {
    var top := terms[..Min(10, |terms|)];
    m := map[];
    for i := 0 to |top|
      invariant m == TermMap(top[..i])
    {
      assert top[..i + 1][..i] == top[..i];
      m := m[top[i].term := top[i].count];
    }
    assert top[..|top|] == top;
  }

  /** With distinct terms the dictionary has exactly those keys, each with its own count. */
  lemma {:induction false} TermMapLookup(ps: seq<TermCount>)
    requires forall i, j | 0 <= i < j < |ps| :: ps[i].term != ps[j].term
    ensures forall w :: w in TermMap(ps) <==> exists i | 0 <= i < |ps| :: ps[i].term == w
    ensures forall i | 0 <= i < |ps| :: TermMap(ps)[ps[i].term] == ps[i].count
    decreases |ps|
  {
    if ps != [] {
      var n := |ps| - 1;
      var prefix := ps[..n];
      TermMapLookup(prefix);
      assert forall i | 0 <= i < n :: prefix[i] == ps[i];
    }
  }

  /** The dictionary has no more keys than there are pairs. */
  lemma {:induction false} TermMapSize(ps: seq<TermCount>)
    ensures |TermMap(ps).Keys| <= |ps|
    decreases |ps|
  {
    if ps != [] {
      var n := |ps| - 1;
      TermMapSize(ps[..n]);
      var m := TermMap(ps[..n]);
      assert TermMap(ps).Keys == m.Keys + {ps[n].term};
    }
  }

  /**
   * The dictionary sent on is built from the ten best terms of the top twenty, which are
   * the ten best terms: each key maps to its number of occurrences, and there are at most ten.
   */
  lemma FormattedTerms(text: string, stopWords: set<string>)
    ensures var top := TopTerms(text, stopWords, 20);
      top[..Min(10, |top|)] == TopTerms(text, stopWords, 10)
    ensures var m := TermMap(TopTerms(text, stopWords, 10));
      |m.Keys| <= 10
      && forall w | w in m :: m[w] == Count(TermWords(text, stopWords), w)
  {
    var ten := TopTerms(text, stopWords, 10);
    TopTermsFacts(text, stopWords, 10);
    TermMapLookup(ten);
    TermMapSize(ten);
  }

  // ---------------------------------------------------------------------------
  // process
  // ---------------------------------------------------------------------------

  /** An item of the transcript list: a dictionary whose keys may be missing. */
  datatype RawItem = RawItem(text: Option<string>, start: Option<real>, duration: Option<real>)

  function OrDefault<T>(o: Option<T>, d: T): T {
    if o.Some? then o.value else d
  }

  /** The segment `process` builds from an item: its cleaned text, `start` and `duration` defaulting to 0. */
  function SegmentOf(item: RawItem): Segment {
    Segment(CleanText(OrDefault(item.text, "")), OrDefault(item.start, 0.0), OrDefault(item.duration, 0.0))
  }

  /** The segments `process` keeps: those whose cleaned text is non-empty, in input order. */
  function KeptSegments(items: seq<RawItem>): seq<Segment>
    decreases |items|
  {
    if items == [] then []
    else
      KeptSegments(items[..|items| - 1]) + KeepIfText(SegmentOf(items[|items| - 1]))
  }

  /** What `process` returns, less the sentences (NLTK) and the float duration total. */
  datatype ProcessedTranscript = ProcessedTranscript(
    fullText: string, segments: seq<Segment>, language: string, wordCount: nat,
    importantTerms: seq<TermCount>, paragraphs: seq<string>)

  lemma {:induction false} GlueAppend(segments: seq<Segment>, s: Segment)
    ensures Glue(segments + [s]) == Glue(segments) + s.text + " "
    decreases |segments|
  {
    if segments == [] {
      assert [] + [s] == [s];
    } else {
      var head := segments[0].text + " ";
      assert (segments + [s])[0] == segments[0] && (segments + [s])[1..] == segments[1..] + [s];
      assert Glue(segments + [s]) == head + Glue(segments[1..] + [s]);
      GlueAppend(segments[1..], s);
      assert Glue(segments) == head + Glue(segments[1..]);
    }
  }

  /** The segments built from the items, one per item, whether kept or not. */
  function SegmentsOf(items: seq<RawItem>): (r: seq<Segment>)
    ensures |r| == |items|
    decreases |items|
  {
    if items == [] then [] else SegmentsOf(items[..|items| - 1]) + [SegmentOf(items[|items| - 1])]
  }

  /** The segment of an item, as a one-element list when its cleaned text is non-empty. */
  function KeepIfText(seg: Segment): seq<Segment> {
    if seg.text != "" then [seg] else []
  }

  /** One step of `KeptSegments` and `SegmentsOf`: the last item. */
  lemma KeptSegmentsLast(items: seq<RawItem>)
    requires items != []
    ensures var n := |items| - 1; var last := SegmentOf(items[n]);
      KeptSegments(items) == KeptSegments(items[..n]) + KeepIfText(last)
      && SegmentsOf(items) == SegmentsOf(items[..n]) + [last]
  {
  }

  /** Kept segments follow the items' order, and each has a non-empty cleaned text. */
  lemma {:induction false} KeptSegmentsFacts(items: seq<RawItem>)
    ensures var kept := KeptSegments(items);
      |kept| <= |items|
      && forall i | 0 <= i < |kept| :: kept[i].text != "" && kept[i] in SegmentsOf(items)
    decreases |items|
  {
    if items != [] {
      var n := |items| - 1;
      KeptSegmentsFacts(items[..n]);
      KeptSegmentsLast(items);
      KeptStep(KeptSegments(items[..n]), SegmentsOf(items[..n]), SegmentOf(items[n]));
    }
  }

  /** The facts above carry over to one more segment. */
  lemma KeptStep(kept: seq<Segment>, all: seq<Segment>, last: Segment)
    requires |kept| <= |all| && forall i | 0 <= i < |kept| :: kept[i].text != "" && kept[i] in all
    ensures var k := kept + KeepIfText(last);
      |k| <= |all| + 1 && forall i | 0 <= i < |k| :: k[i].text != "" && k[i] in all + [last]
  {
  }

  /** Kept segments of a concatenation are the kept segments of each part. */
  lemma {:induction false} KeptSegmentsAppend(a: seq<RawItem>, b: seq<RawItem>)
    ensures KeptSegments(a + b) == KeptSegments(a) + KeptSegments(b)
    decreases |b|
  {
    if b == [] {
      assert a + b == a;
    } else {
      var n := |b| - 1;
      assert (a + b)[..|a + b| - 1] == a + b[..n] && (a + b)[|a + b| - 1] == b[n];
      KeptSegmentsAppend(a, b[..n]);
      KeptSegmentsLast(a + b);
      KeptSegmentsLast(b);
      Seqs.AppendAssoc(KeptSegments(a), KeptSegments(b[..n]), KeepIfText(SegmentOf(b[n])));
    }
  }

  /** `process`, with `min_segment_char_length` and the stop-word set as parameters. */
  method Process(items: seq<RawItem>, minSegmentChars: int, stopWords: set<string>) returns (p: ProcessedTranscript)
    ensures p.segments == KeptSegments(items)
    ensures p.fullText == CleanText(Glue(p.segments))
    ensures p.language == DetectLanguage(p.fullText)
    ensures p.paragraphs == Paragraphs(p.segments, minSegmentChars)
    ensures p.importantTerms == TopTerms(p.fullText, stopWords, 20)
    ensures p.wordCount == |Words(p.fullText)|
    ensures |p.paragraphs| <= |p.segments| <= |items| && |p.importantTerms| <= 20
  {
    var segments: seq<Segment> := [];
    var fullText := "";
    for i := 0 to |items|
      invariant segments == KeptSegments(items[..i])
      invariant fullText == Glue(segments)
    {
      assert items[..i + 1][..i] == items[..i];
      var segment := SegmentOf(items[i]);
      if segment.text != "" {
        GlueAppend(segments, segment);
        segments := segments + [segment];
        fullText := fullText + segment.text + " ";
      }
    }
    assert items[..|items|] == items;
    fullText := CleanText(fullText);
    var language := DetectLanguage(fullText);
    var paragraphs := ExtractParagraphs(segments, minSegmentChars);
    var terms := TopTerms(fullText, stopWords, 20);
    KeptSegmentsFacts(items);
    TopTermsFacts(fullText, stopWords, 20);
    p := ProcessedTranscript(fullText, segments, language, |Words(fullText)|, terms, paragraphs);
  }
}
