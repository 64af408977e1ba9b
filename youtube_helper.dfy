/**
 * The server's YouTube helpers: the video-id extractor and the URL validator
 * (two JavaScript regular expressions, written out here as matchers that follow
 * the engine's backtracking order), and the decision made on the Data API
 * response for a video's details.
 */
module YoutubeHelper {
  import opened Wrappers
  import opened Text

  // ---------------------------------------------------------------------------
  // extractVideoId:
  //   /^.*((youtu.be\/)|(v\/)|(\/u\/\w\/)|(embed\/)|(watch\?))\??v?=?([^#&?]*).*/
  // `^.*` is greedy, so the engine first tries the marker at the largest
  // position the `.*` can reach (the first line) and moves left from there. The
  // five alternatives begin with different characters, so at most one matches at
  // a position. Everything after the marker is optional, so once a marker
  // matches, every later quantifier keeps its greedy first choice.
  // ---------------------------------------------------------------------------

  predicate NotLineTerminator(c: char) {
    !IsJsLineTerminator(c)
  }

  /** How far `^.*` can reach: the index of the first line terminator, or |s|. */
  function FirstLine(s: string): (n: nat)
    ensures n <= |s|
  {
    PrefixRun(s, NotLineTerminator)
  }

  /**
   * Length of the marker alternative of group 1 that matches at position k, 0 when none does.
   * The pattern has no `u` flag, so it runs over UTF-16 code units: the `.` of `youtu.be` takes
   * one code unit, which a character outside the Basic Multilingual Plane is not.
   */
  function MarkerAt(s: string, k: nat): (n: nat)
    ensures n == 0 || (k + n <= |s| && 2 <= n <= 9)
  {
    if k + 9 <= |s| && s[k] == 'y' && s[k + 1] == 'o' && s[k + 2] == 'u' && s[k + 3] == 't' && s[k + 4] == 'u'
      && NotLineTerminator(s[k + 5]) && !IsAstral(s[k + 5]) && s[k + 6] == 'b' && s[k + 7] == 'e' && s[k + 8] == '/' then 9
    else if k + 2 <= |s| && s[k] == 'v' && s[k + 1] == '/' then 2
    else if k + 5 <= |s| && s[k] == '/' && s[k + 1] == 'u' && s[k + 2] == '/' && IsAsciiWord(s[k + 3]) && s[k + 4] == '/' then 5
    else if k + 6 <= |s| && s[k] == 'e' && s[k + 1] == 'm' && s[k + 2] == 'b' && s[k + 3] == 'e' && s[k + 4] == 'd' && s[k + 5] == '/' then 6
    else if k + 6 <= |s| && s[k] == 'w' && s[k + 1] == 'a' && s[k + 2] == 't' && s[k + 3] == 'c' && s[k + 4] == 'h' && s[k + 5] == '?' then 6
    else 0
  }

  /** The largest position below `bound` at which a marker matches. */
  function LastMarker(s: string, bound: nat): (k: Option<nat>)
    requires bound <= |s|
    ensures k.Some? ==> k.value < bound && MarkerAt(s, k.value) > 0
    ensures k.Some? ==> forall j | k.value < j < bound :: MarkerAt(s, j) == 0
    ensures k.None? ==> forall j | 0 <= j < bound :: MarkerAt(s, j) == 0
    decreases bound
  {
    if bound == 0 then None
    else if MarkerAt(s, bound - 1) > 0 then Some(bound - 1)
    else LastMarker(s, bound - 1)
  }

  lemma {:induction false} LastMarkerIs(s: string, bound: nat, k: nat)
    requires k < bound <= |s| && MarkerAt(s, k) > 0
    requires forall j | k < j < bound :: MarkerAt(s, j) == 0
    ensures LastMarker(s, bound) == Some(k)
    decreases bound
  {
    if bound - 1 != k {
      LastMarkerIs(s, bound - 1, k);
    }
  }

  /** Where group 7 starts once the marker ends at m: `\??v?=?` each take their character when present. */
  function CaptureStart(s: string, m: nat): (p: nat)
    requires m <= |s|
    ensures m <= p <= m + 3 && p <= |s|
  {
    var a := if m < |s| && s[m] == '?' then m + 1 else m;
    var b := if a < |s| && s[a] == 'v' then a + 1 else a;
    if b < |s| && s[b] == '=' then b + 1 else b
  }

  predicate NotIdStop(c: char) {
    c != '#' && c != '&' && c != '?'
  }

  /** The outcome of a successful match: the marker position and the span of group 7. */
  datatype UrlMatch = UrlMatch(marker: nat, start: nat, end: nat)

  /** No marker starts at the first line terminator: every marker begins with 'y', 'v', '/', 'e' or 'w'. */
  lemma NoMarkerAtLineEnd(s: string)
    ensures MarkerAt(s, FirstLine(s)) == 0
  {
    var n := FirstLine(s);
    assert n < |s| ==> IsJsLineTerminator(s[n]);
  }

  /** Group 7 from position p: the longest run of characters other than '#', '&' and '?'. */
  lemma RunAt(s: string, p: nat)
    requires p <= |s|
    ensures p + PrefixRun(s[p..], NotIdStop) <= |s|
    ensures forall i | p <= i < p + PrefixRun(s[p..], NotIdStop) :: NotIdStop(s[i])
    ensures p + PrefixRun(s[p..], NotIdStop) < |s| ==> !NotIdStop(s[p + PrefixRun(s[p..], NotIdStop)])
  {
    var n := PrefixRun(s[p..], NotIdStop);
    assert forall i | p <= i < p + n :: s[i] == s[p..][i - p];
    assert p + n < |s| ==> s[p + n] == s[p..][n];
  }

  /** `url.match(regExp)`: None when the pattern does not match, else the marker and group 7. */
  function MatchVideoUrl(s: string): (r: Option<UrlMatch>)
    ensures r.Some? ==> r.value.start <= r.value.end <= |s|
    ensures r.Some? ==> forall i | r.value.start <= i < r.value.end :: NotIdStop(s[i])
    ensures r.Some? ==> r.value.end == |s| || !NotIdStop(s[r.value.end])
  {
    match LastMarker(s, FirstLine(s))
    case None => None
    case Some(k) =>
      var p := CaptureStart(s, k + MarkerAt(s, k));
      RunAt(s, p);
      Some(UrlMatch(k, p, p + PrefixRun(s[p..], NotIdStop)))
  }

  /**
   * The pattern matches exactly when a marker starts on the first line; the marker taken
   * is the rightmost one there, and group 7 starts after it and the optional `?`, `v`, `=`.
   */
  lemma MatchVideoUrlSpec(s: string)
    ensures MatchVideoUrl(s).None? <==> forall j | 0 <= j <= FirstLine(s) :: MarkerAt(s, j) == 0
    ensures MatchVideoUrl(s).Some? ==>
      var m := MatchVideoUrl(s).value;
      && m.marker < FirstLine(s) && MarkerAt(s, m.marker) > 0
      && (forall j | m.marker < j <= FirstLine(s) :: MarkerAt(s, j) == 0)
      && m.start == CaptureStart(s, m.marker + MarkerAt(s, m.marker))
  {
    MatchVideoUrlNone(s);
    MatchVideoUrlSome(s);
  }

  lemma MatchVideoUrlNone(s: string)
    ensures MatchVideoUrl(s).None? <==> forall j | 0 <= j <= FirstLine(s) :: MarkerAt(s, j) == 0
  {
    var n := FirstLine(s);
    NoMarkerAtLineEnd(s);
    match LastMarker(s, n)
    case None =>
      assert MatchVideoUrl(s).None?;
      NoMarkerUpTo(s, -1, n);
    case Some(k) =>
      MatchOfLast(s, k);
  }

  lemma MatchVideoUrlSome(s: string)
    ensures MatchVideoUrl(s).Some? ==>
      var m := MatchVideoUrl(s).value;
      && m.marker < FirstLine(s) && MarkerAt(s, m.marker) > 0
      && (forall j | m.marker < j <= FirstLine(s) :: MarkerAt(s, j) == 0)
      && m.start == CaptureStart(s, m.marker + MarkerAt(s, m.marker))
  {
    var n := FirstLine(s);
    NoMarkerAtLineEnd(s);
    match LastMarker(s, n)
    case None =>
      assert MatchVideoUrl(s).None?;
    case Some(k) =>
      MatchOfLast(s, k);
      NoMarkerUpTo(s, k, n);
  }

  /** A marker-free stretch below `n` stays marker-free with `n` itself added. */
  lemma NoMarkerUpTo(s: string, lo: int, n: nat)
    requires MarkerAt(s, n) == 0 && forall j: nat | lo < j < n :: MarkerAt(s, j) == 0
    ensures forall j: nat | lo < j <= n :: MarkerAt(s, j) == 0
  {
  }

  /**
   * `extractVideoId`: group 7 when the pattern matches and the group's JavaScript `length`,
   * counted in UTF-16 code units, is exactly 11.
   */
  function ExtractVideoId(url: string): (r: Option<string>)
    ensures r.Some? <==> (MatchVideoUrl(url).Some?
      && Utf16Length(url[MatchVideoUrl(url).value.start..MatchVideoUrl(url).value.end]) == 11)
    ensures r.Some? ==> r.value == url[MatchVideoUrl(url).value.start..MatchVideoUrl(url).value.end]
    ensures r.Some? ==> Utf16Length(r.value) == 11 && |r.value| <= 11 && forall i | 0 <= i < |r.value| :: NotIdStop(r.value[i])
  {
    match MatchVideoUrl(url)
    case None => None
    case Some(m) =>
      var g := url[m.start..m.end];
      assert forall i | 0 <= i < |g| :: g[i] == url[m.start + i];
      if Utf16Length(g) == 11 then Some(g) else None
  }

  /** The eleven-character ids YouTube hands out: letters, digits, '_' and '-'. */
  predicate IsIdChar(c: char) {
    'a' <= c <= 'z' || 'A' <= c <= 'Z' || '0' <= c <= '9' || c == '_' || c == '-'
  }

  predicate IsVideoId(id: string) {
    |id| == 11 && forall i | 0 <= i < |id| :: IsIdChar(id[i])
  }

  const WatchPrefix: string := "https://www.youtube.com/watch?v="
  const ShortPrefix: string := "https://youtu.be/"
  const EmbedPrefix: string := "https://www.youtube.com/embed/"

  lemma CleanJoin(a: string, b: string)
    requires NoLineTerminator(a) && NoLineTerminator(b)
    ensures NoLineTerminator(a + b)
  {
    assert forall i | 0 <= i < |a + b| :: (a + b)[i] == if i < |a| then a[i] else b[i - |a|];
  }

  /** The three link prefixes are single-line. */
  lemma PrefixesClean()
    ensures NoLineTerminator(WatchPrefix) && NoLineTerminator(ShortPrefix) && NoLineTerminator(EmbedPrefix)
  {
    CleanJoin("https://", "www.youtube.com/");
    CleanJoin("https://www.youtube.com/", "watch?v=");
    CleanJoin("https://www.youtube.com/", "embed/");
    CleanJoin("https://", "youtu.be/");
  }

  /** After a single-line prefix, an id holds no marker and group 7 can take all of it. */
  lemma IdTail(prefix: string, id: string, s: string)
    requires s == prefix + id && IsVideoId(id) && NoLineTerminator(prefix)
    ensures FirstLine(s) == |s|
    ensures forall i | |prefix| <= i < |s| :: IsIdChar(s[i])
    ensures forall j | |prefix| <= j <= |s| :: MarkerAt(s, j) == 0
    ensures s[|prefix|..] == id && PrefixRun(id, NotIdStop) == 11
  {
    assert forall i | |prefix| <= i < |s| :: s[i] == id[i - |prefix|];
    assert NoLineTerminator(id);
    CleanJoin(prefix, id);
    PrefixRunAll(s, NotLineTerminator);
    PrefixRunAll(id, NotIdStop);
  }

  /** In a watch link the last marker is `watch?` at position 24. */
  lemma WatchMarker(s: string)
    requires |s| >= 32 && s[..32] == WatchPrefix
    ensures MarkerAt(s, 24) == 6 && CaptureStart(s, 30) == 32
    ensures forall j | 24 < j < 32 :: MarkerAt(s, j) == 0
  {
    assert s[24] == 'w' && s[25] == 'a' && s[26] == 't' && s[27] == 'c' && s[28] == 'h' && s[29] == '?';
    assert s[30] == 'v' && s[31] == '=';
    assert MarkerAt(s, 25) == 0 && MarkerAt(s, 26) == 0 && MarkerAt(s, 27) == 0 && MarkerAt(s, 28) == 0;
    assert MarkerAt(s, 29) == 0 && MarkerAt(s, 30) == 0 && MarkerAt(s, 31) == 0;
  }

  /** The standard watch link gives back its id. */
  lemma WatchLinkId(id: string)
    requires IsVideoId(id)
    ensures ExtractVideoId(WatchPrefix + id) == Some(id)
  {
    var s := WatchPrefix + id;
    PrefixesClean();
    IdTail(WatchPrefix, id, s);
    assert s[..32] == WatchPrefix;
    WatchMarker(s);
    LastMarkerIs(s, |s|, 24);
    ExtractAt(s, 24, 32);
  }

  /** In a short link the last marker is `youtu.be/` at position 8. */
  lemma ShortMarker(s: string)
    requires |s| >= 17 && s[..17] == ShortPrefix
    ensures MarkerAt(s, 8) == 9
    ensures forall j | 8 < j < 16 :: MarkerAt(s, j) == 0
  {
    assert s[8] == 'y' && s[9] == 'o' && s[10] == 'u' && s[11] == 't' && s[12] == 'u' && s[13] == '.';
    assert s[14] == 'b' && s[15] == 'e' && s[16] == '/';
    assert MarkerAt(s, 9) == 0 && MarkerAt(s, 10) == 0 && MarkerAt(s, 11) == 0 && MarkerAt(s, 12) == 0;
    assert MarkerAt(s, 13) == 0 && MarkerAt(s, 14) == 0 && MarkerAt(s, 15) == 0;
  }

  /** A short link gives back its id, unless the id begins with 'v': `v?` then eats it and ten characters remain. */
  lemma ShortLinkId(id: string)
    requires IsVideoId(id)
    ensures ExtractVideoId(ShortPrefix + id) == if id[0] == 'v' then None else Some(id)
  {
    var s := ShortPrefix + id;
    PrefixesClean();
    IdTail(ShortPrefix, id, s);
    ShortLast(s);
    assert s[17] == id[0];
    if id[0] == 'v' {
      ShortLinkDropsV(s);
    } else {
      assert CaptureStart(s, 17) == 17;
      ExtractAt(s, 8, 17);
    }
  }

  /** In a short link followed by id characters the last marker is `youtu.be/` at position 8. */
  lemma ShortLast(s: string)
    requires |s| == 28 && s[..17] == ShortPrefix
    requires forall i | 17 <= i < |s| :: IsIdChar(s[i])
    requires forall j | 17 <= j <= |s| :: MarkerAt(s, j) == 0
    ensures LastMarker(s, |s|) == Some(8) && MarkerAt(s, 8) == 9
  {
    ShortMarker(s);
    assert s[18] != '/';
    assert MarkerAt(s, 16) == 0;
    LastMarkerIs(s, |s|, 8);
  }

  /** `v?` takes a leading 'v' of the id, so the capture is ten characters long and is refused. */
  lemma ShortLinkDropsV(s: string)
    requires |s| == 28 && FirstLine(s) == |s| && LastMarker(s, |s|) == Some(8) && MarkerAt(s, 8) == 9
    requires s[17] == 'v' && forall i | 18 <= i < |s| :: IsIdChar(s[i])
    ensures ExtractVideoId(s) == None
  {
    assert CaptureStart(s, 17) == 18;
    MatchOfLast(s, 8);
    IdCharsToEnd(s, 18);
    assert s[18..28] == s[18..];
  }

  /** Id characters from `p` to the end: all of them are captured, each one UTF-16 unit. */
  lemma IdCharsToEnd(s: string, p: nat)
    requires p <= |s| && forall i | p <= i < |s| :: IsIdChar(s[i])
    ensures PrefixRun(s[p..], NotIdStop) == |s| - p && Utf16Length(s[p..]) == |s| - p
  {
    var t := s[p..];
    assert forall i | 0 <= i < |t| :: t[i] == s[p + i] && IsIdChar(t[i]) && NotIdStop(t[i]);
    PrefixRunAll(t, NotIdStop);
    IdCharsUtf16(t);
  }

  /** In an embed link the last marker is `embed/` at position 24. */
  lemma EmbedMarker(s: string)
    requires |s| >= 30 && s[..30] == EmbedPrefix
    ensures MarkerAt(s, 24) == 6
    ensures forall j | 24 < j < 29 :: MarkerAt(s, j) == 0
  {
    assert s[24] == 'e' && s[25] == 'm' && s[26] == 'b' && s[27] == 'e' && s[28] == 'd' && s[29] == '/';
    assert MarkerAt(s, 25) == 0 && MarkerAt(s, 26) == 0 && MarkerAt(s, 27) == 0 && MarkerAt(s, 28) == 0;
  }

  /** An embed link gives back its id, with the same exception for a leading 'v'. */
  lemma EmbedLinkId(id: string)
    requires IsVideoId(id) && id[0] != 'v'
    ensures ExtractVideoId(EmbedPrefix + id) == Some(id)
  {
    var s := EmbedPrefix + id;
    PrefixesClean();
    IdTail(EmbedPrefix, id, s);
    assert s[..30] == EmbedPrefix;
    EmbedMarker(s);
    assert s[31] != '/';
    assert MarkerAt(s, 29) == 0;
    LastMarkerIs(s, |s|, 24);
    assert CaptureStart(s, 30) == 30;
    ExtractAt(s, 24, 30);
  }

  /** After `&next=v/` at position 43, the marker `v/` sits at 49 and the capture starts at 51. */
  lemma NextMarker(s: string)
    requires |s| >= 53 && s[43..51] == "&next=v/" && IsIdChar(s[51]) && s[51] != 'v' && IsIdChar(s[52])
    ensures MarkerAt(s, 49) == 2 && MarkerAt(s, 50) == 0 && CaptureStart(s, 51) == 51
  {
    assert s[49] == s[43..51][6] && s[50] == s[43..51][7];
  }

  /** The match takes the last marker on the first line and starts group 7 after it. */
  lemma MatchOfLast(s: string, k: nat)
    requires LastMarker(s, FirstLine(s)) == Some(k)
    ensures MatchVideoUrl(s).Some? && MatchVideoUrl(s).value.marker == k
    ensures MatchVideoUrl(s).value.start == CaptureStart(s, k + MarkerAt(s, k))
    ensures var p := MatchVideoUrl(s).value.start; MatchVideoUrl(s).value.end == p + PrefixRun(s[p..], NotIdStop)
  {
  }

  /**
   * A single-line text whose last marker is at k, and whose capture from p consists of
   * eleven id characters running to the end, gives back that capture.
   */
  lemma ExtractAt(s: string, k: nat, p: nat)
    requires FirstLine(s) == |s| && LastMarker(s, |s|) == Some(k)
    requires CaptureStart(s, k + MarkerAt(s, k)) == p && p + 11 == |s|
    requires forall i | p <= i < |s| :: IsIdChar(s[i])
    ensures ExtractVideoId(s) == Some(s[p..])
  {
    MatchOfLast(s, k);
    ExtractOfMatch(s, MatchVideoUrl(s).value);
  }

  /** A match whose group 7 starts eleven id characters before the end takes all of them. */
  lemma ExtractOfMatch(s: string, m: UrlMatch)
    requires MatchVideoUrl(s) == Some(m) && m.start + 11 == |s|
    requires forall i | m.start <= i < |s| :: IsIdChar(s[i])
    ensures ExtractVideoId(s) == Some(s[m.start..])
  {
    assert s[m.start..m.end] == s[m.start..];
    IdCharsUtf16(s[m.start..]);
  }

  /** Id characters are ASCII, so a string of them is as long in UTF-16 code units as in characters. */
  lemma {:induction false} IdCharsUtf16(g: string)
    requires forall i | 0 <= i < |g| :: IsIdChar(g[i])
    ensures Utf16Length(g) == |g|
    decreases |g|
  {
    if g != [] {
      IdCharsUtf16(g[1..]);
    }
  }

  /** A `v/` later in the query string wins over the `watch?v=` before it, because `^.*` is greedy. */
  lemma LaterMarkerWins(first: string, second: string)
    requires IsVideoId(first) && IsVideoId(second) && second[0] != 'v'
    ensures ExtractVideoId(WatchPrefix + first + "&next=v/" + second) == Some(second)
  {
    var s := WatchPrefix + first + "&next=v/" + second;
    LaterLinkFacts(first, second);
    LaterLinkLast(s);
    ExtractAt(s, 49, 51);
  }

  /** The shape of the two-marker link: one line of 62 characters, the second id at 51 and `v/` at 49. */
  lemma LaterLinkFacts(first: string, second: string)
    requires IsVideoId(first) && IsVideoId(second) && second[0] != 'v'
    ensures var s := WatchPrefix + first + "&next=v/" + second;
      |s| == 62 && FirstLine(s) == |s| && s[51..] == second
      && (forall i | 51 <= i < |s| :: IsIdChar(s[i]))
      && (forall j | 51 <= j <= |s| :: MarkerAt(s, j) == 0)
      && s[43..51] == "&next=v/" && s[51] != 'v'
  {
    var head := WatchPrefix + first;
    var prefix := head + "&next=v/";
    var s := prefix + second;
    PrefixesClean();
    assert NoLineTerminator(first);
    CleanJoin(WatchPrefix, first);
    CleanJoin(head, "&next=v/");
    IdTail(prefix, second, s);
    assert s[43..51] == prefix[43..51];
    assert s[51] == second[0];
  }

  lemma LaterLinkLast(s: string)
    requires |s| == 62 && s[43..51] == "&next=v/" && s[51] != 'v'
    requires forall i | 51 <= i < |s| :: IsIdChar(s[i])
    requires forall j | 51 <= j <= |s| :: MarkerAt(s, j) == 0
    ensures LastMarker(s, |s|) == Some(49) && CaptureStart(s, 49 + MarkerAt(s, 49)) == 51
  {
    NextMarker(s);
    LastMarkerIs(s, |s|, 49);
  }

  // ---------------------------------------------------------------------------
  // isValidYoutubeUrl:  /^(https?\:\/\/)?(www\.youtube\.com|youtu\.?be)\/.+$/
  // The alternatives of each group begin differently, so backtracking never
  // changes which one is taken; `$` without the `m` flag is the end of input.
  // ---------------------------------------------------------------------------

  /** Length of the optional `https?://` group at the start. */
  function SchemeLength(s: string): nat {
    if "https://" <= s then 8 else if "http://" <= s then 7 else 0
  }

  /** Length of the host alternative at the start of s, 0 when none matches. */
  function HostLength(s: string): nat {
    if "www.youtube.com" <= s then 15 else if "youtube" <= s then 7 else if "youtu.be" <= s then 8 else 0
  }

  /** `regExp.test(url)`: scheme, host, '/', then at least one character up to the end with no line terminator. */
  function IsValidYoutubeUrl(url: string): bool {
    var t := url[SchemeLength(url)..];
    var h := HostLength(t);
    h > 0 && h + 1 < |t| && t[h] == '/' && forall i | h + 1 <= i < |t| :: NotLineTerminator(t[i])
  }

  const Schemes: set<string> := {"", "http://", "https://"}
  const Hosts: set<string> := {"www.youtube.com", "youtube", "youtu.be"}

  predicate NoLineTerminator(s: string) {
    forall i | 0 <= i < |s| :: NotLineTerminator(s[i])
  }

  lemma SchemeOf(scheme: string, t: string)
    requires scheme in Schemes && |t| > 0 && (t[0] == 'w' || t[0] == 'y')
    ensures SchemeLength(scheme + t) == |scheme|
  {
    var u := scheme + t;
    assert u[|scheme|] == t[0];
    assert forall i | 0 <= i < |scheme| :: u[i] == scheme[i];
    if |u| >= 7 { assert u[..7][0] == u[0] && u[..7][4] == u[4]; }
    if |u| >= 8 { assert u[..8][0] == u[0] && u[..8][4] == u[4]; }
    if scheme != "" {
      assert u[0] == 'h';
    }
    if scheme == "http://" {
      assert u[4] == ':';
    }
    assert u[..|scheme|] == scheme;
  }

  lemma HostOf(host: string, rest: string)
    requires host in Hosts
    ensures var t := host + "/" + rest; HostLength(t) == |host| && t[|host|] == '/' && (t[0] == 'w' || t[0] == 'y')
    ensures forall i | |host| + 1 <= i < |host + "/" + rest| :: (host + "/" + rest)[i] == rest[i - |host| - 1]
  {
    var t := host + "/" + rest;
    assert forall i | 0 <= i < |host| :: t[i] == host[i];
    assert t[..7][0] == t[0] && t[..7][5] == t[5];
    if |t| >= 15 { assert t[..15][0] == t[0]; }
    if |t| >= 8 { assert t[..8][0] == t[0] && t[..8][5] == t[5]; }
    assert t[..|host|] == host;
  }

  /** Every URL of the pattern's shape passes: a scheme, a host, '/', and a non-empty single-line rest. */
  lemma ValidFromParts(scheme: string, host: string, rest: string)
    requires scheme in Schemes && host in Hosts && |rest| > 0 && NoLineTerminator(rest)
    ensures IsValidYoutubeUrl(scheme + host + "/" + rest)
  {
    var t := host + "/" + rest;
    var u := scheme + host + "/" + rest;
    HostOf(host, rest);
    assert u == scheme + t;
    SchemeOf(scheme, t);
    assert u[|scheme|..] == t;
    var h := |host|;
    assert h > 0 && h + 1 < |t|;
    assert forall i | h + 1 <= i < |t| :: NotLineTerminator(t[i]);
  }

  /** Every URL that passes has that shape, with the scheme and host the matcher found. */
  lemma ValidHasParts(url: string)
    requires IsValidYoutubeUrl(url)
    ensures var a := SchemeLength(url); var h := HostLength(url[a..]);
      a + h + 1 < |url| && url[..a] in Schemes && url[a..a + h] in Hosts && url[a + h] == '/'
      && url == url[..a] + url[a..a + h] + "/" + url[a + h + 1..] && NoLineTerminator(url[a + h + 1..])
  {
    var a := SchemeLength(url);
    var t := url[a..];
    var h := HostLength(t);
    SchemeIn(url);
    HostIn(t);
    ThreeSlices(url, a, h);
    SuffixClean(t, h + 1);
  }

  lemma SuffixClean(t: string, k: nat)
    requires k <= |t| && forall i | k <= i < |t| :: NotLineTerminator(t[i])
    ensures NoLineTerminator(t[k..])
  {
    assert forall i | 0 <= i < |t| - k :: t[k..][i] == t[i + k];
  }

  lemma SchemeIn(url: string)
    ensures url[..SchemeLength(url)] in Schemes
  {
    var a := SchemeLength(url);
    if a == 8 { assert url[..a] == "https://"; } else if a == 7 { assert url[..a] == "http://"; } else { assert url[..a] == ""; }
  }

  lemma HostIn(t: string)
    requires HostLength(t) > 0
    ensures HostLength(t) <= |t| && t[..HostLength(t)] in Hosts
  {
    var h := HostLength(t);
    if h == 15 { assert t[..h] == "www.youtube.com"; } else if h == 7 { assert t[..h] == "youtube"; } else { assert t[..h] == "youtu.be"; }
  }

  /** A string cut at `a`, at `a + h` and after the character there. */
  lemma ThreeSlices(url: string, a: nat, h: nat)
    requires a + h + 1 < |url|
    ensures url[a..a + h] == url[a..][..h] && url[a + h] == url[a..][h] && url[a + h + 1..] == url[a..][h + 1..]
    ensures url == url[..a] + url[a..a + h] + [url[a + h]] + url[a + h + 1..]
  {
    assert forall i | 0 <= i < h :: url[a..a + h][i] == url[a..][..h][i];
  }

  /** Example: the empty text and a plain word are refused. */
  lemma RejectsEmptyAndPlainText()
    ensures !IsValidYoutubeUrl("")
    ensures !IsValidYoutubeUrl("not-a-url")
  {
    var s := "not-a-url";
    assert s[..7][0] == 'n';
    assert !("youtube" <= s) && !("youtu.be" <= s) by { assert s[..7][0] == 'n'; assert s[..8][0] == 'n'; }
  }

  /**
   * `youtube.com` without `www.` is not a host of the pattern, whatever the scheme and the
   * rest: `youtu\\.?be` stops at "youtube" and the next character is '.'.
   */
  lemma RejectsBareYoutubeCom(scheme: string, rest: string)
    requires scheme in Schemes
    ensures !IsValidYoutubeUrl(scheme + "youtube.com" + rest)
  {
    var t := "youtube.com" + rest;
    var u := scheme + "youtube.com" + rest;
    assert u == scheme + t;
    assert t[0] == 'y' && t[7] == '.';
    SchemeOf(scheme, t);
    assert u[|scheme|..] == t;
    assert t[..7] == "youtube";
  }

  /**
   * A host with a subdomain other than `www` is refused, for any single-label subdomain
   * (no '.' and no '/'), any scheme and any rest.
   */
  lemma RejectsOtherSubdomain(scheme: string, sub: string, rest: string)
    requires scheme in Schemes
    requires sub != "www" && '.' !in sub && '/' !in sub
    ensures !IsValidYoutubeUrl(scheme + sub + ".youtube.com" + rest)
  {
    var t := sub + ".youtube.com" + rest;
    var u := scheme + sub + ".youtube.com" + rest;
    assert u == scheme + t;
    SubdomainChars(sub, rest);
    SchemeBefore(scheme, t);
    SubdomainHost(sub, t);
  }

  /** Up to the end of `.youtube.com`, the text has no '/', and its only '.' behind the subdomain is the one after it. */
  lemma SubdomainChars(sub: string, rest: string)
    requires '.' !in sub && '/' !in sub
    ensures var t := sub + ".youtube.com" + rest;
      |t| >= |sub| + 12 && (forall i | 0 <= i < |sub| + 12 :: t[i] != '/')
      && t[|sub|] == '.' && (forall i | 0 <= i < |sub| :: t[i] == sub[i] && t[i] != '.')
      && t[|sub| + 1] == 'y'
  {
    var t := sub + ".youtube.com" + rest;
    assert forall i | 0 <= i < |sub| :: t[i] == sub[i];
    assert forall i | |sub| <= i < |sub| + 12 :: t[i] == ".youtube.com"[i - |sub|];
  }

  /** A text whose sixth and seventh characters are not '/' has a scheme group only where one was put in front of it. */
  lemma SchemeBefore(scheme: string, t: string)
    requires scheme in Schemes && |t| > 6 && t[5] != '/' && t[6] != '/'
    ensures SchemeLength(scheme + t) == |scheme| && (scheme + t)[|scheme|..] == t
  {
    var u := scheme + t;
    assert forall i | 0 <= i < |scheme| :: u[i] == scheme[i];
    if scheme == "" {
      assert u == t;
      NotPrefixAt("http://", u, 5);
      NotPrefixAt("https://", u, 6);
    } else if scheme == "http://" {
      NotPrefixAt("https://", u, 4);
      assert u[..7] == "http://";
    } else {
      assert u[..8] == "https://";
    }
  }

  /** A text that differs from `p` at an index of both is not an extension of `p`. */
  lemma NotPrefixAt(p: string, t: string, j: nat)
    requires j < |p| && j < |t| && t[j] != p[j]
    ensures !(p <= t)
  {
    if |p| <= |t| {
      assert t[..|p|][j] == t[j];
    }
  }

  /** No host alternative can be followed by '/' behind a single-label subdomain other than `www`. */
  lemma SubdomainHost(sub: string, t: string)
    requires sub != "www" && |t| >= |sub| + 12 && t[|sub|] == '.' && t[|sub| + 1] == 'y'
    requires forall i | 0 <= i < |sub| + 12 :: t[i] != '/'
    requires forall i | 0 <= i < |sub| :: t[i] == sub[i] && t[i] != '.'
    ensures HostLength(t) == 0 || t[HostLength(t)] != '/'
  {
    var k := |sub|;
    // `www.youtube.com` has its first '.' at 3, and the subdomain is not "www".
    if k < 3 {
      NotPrefixAt("www.youtube.com", t, k);
    } else if k > 3 {
      NotPrefixAt("www.youtube.com", t, 3);
    } else if t[0] != 'w' {
      NotPrefixAt("www.youtube.com", t, 0);
    } else if t[1] != 'w' {
      NotPrefixAt("www.youtube.com", t, 1);
    } else {
      assert t[2] != 'w' by {
        assert sub[0] == 'w' && sub[1] == 'w' && sub[2] == t[2];
      }
      NotPrefixAt("www.youtube.com", t, 2);
    }
    // `youtu.be` has its '.' at 5 and a 'b' after it.
    if k < 5 {
      NotPrefixAt("youtu.be", t, k);
    } else if k == 5 {
      NotPrefixAt("youtu.be", t, 6);
    } else {
      NotPrefixAt("youtu.be", t, 5);
    }
    // `youtube` has no '.', so it can only match inside a subdomain of at least seven characters.
    if k < 7 {
      NotPrefixAt("youtube", t, k);
    }
  }

  /** A host followed by '/' alone is refused, whatever the scheme: `.+` needs a character. */
  lemma RejectsEmptyPath(scheme: string, host: string)
    requires scheme in Schemes && host in Hosts
    ensures !IsValidYoutubeUrl(scheme + host + "/")
  {
    var t := host + "/" + "";
    var u := scheme + host + "/";
    assert t == host + "/" && u == scheme + t;
    HostOf(host, "");
    SchemeOf(scheme, t);
    assert u[|scheme|..] == t;
  }

  /** Every watch, short and embed link built from a video id passes the validator. */
  lemma GeneratedLinksAreValid(id: string)
    requires IsVideoId(id)
    ensures IsValidYoutubeUrl(WatchPrefix + id)
    ensures IsValidYoutubeUrl(ShortPrefix + id)
    ensures IsValidYoutubeUrl(EmbedPrefix + id)
  {
    assert NoLineTerminator(id);
    LinkIsValid("www.youtube.com", "watch?v=", id);
    LinkIsValid("youtu.be", "", id);
    LinkIsValid("www.youtube.com", "embed/", id);
    PrefixPieces();
  }

  lemma PrefixPieces()
    ensures WatchPrefix == "https://" + "www.youtube.com" + "/" + "watch?v="
    ensures ShortPrefix == "https://" + "youtu.be" + "/" + ""
    ensures EmbedPrefix == "https://" + "www.youtube.com" + "/" + "embed/"
  {
    assert "https://" + "www.youtube.com" == "https://www.youtube.com";
    assert "https://www.youtube.com" + "/" == "https://www.youtube.com/";
  }

  lemma LinkIsValid(host: string, path: string, id: string)
    requires host in Hosts && NoLineTerminator(path) && NoLineTerminator(id) && |id| > 0
    ensures IsValidYoutubeUrl("https://" + host + "/" + path + id)
  {
    var rest := path + id;
    assert forall i | |path| <= i < |rest| :: rest[i] == id[i - |path|];
    ValidFromParts("https://", host, rest);
    assert "https://" + host + "/" + path + id == "https://" + host + "/" + rest;
  }

  // ---------------------------------------------------------------------------
  // getVideoDetails: the HTTP request is an oracle; its outcome is the input.
  // ---------------------------------------------------------------------------

  /** One entry of the Data API's `items` (the fields the helper reads from `snippet` and `contentDetails`). */
  datatype ApiVideoItem = ApiVideoItem(title: string, description: string, duration: string, publishedAt: string, channelTitle: string)

  /** What the request produced: the `items` array (None when the response has none), or the thrown error's message. */
  type DetailsResponse = Result<Option<seq<ApiVideoItem>>, string>

  datatype VideoDetails = VideoDetails(title: string, description: string, duration: string, publishedAt: string, channelTitle: string)

  const DetailsErrorPrefix: string := "Video detayları alınamadı: "
  const VideoNotFound: string := "Video bulunamadı"

  /** `getVideoDetails`: the first item's fields, or an error whose message carries the fixed prefix. */
  function GetVideoDetails(response: DetailsResponse): (r: Result<VideoDetails, string>)
    ensures r.Ok? <==> response.Ok? && response.value.Some? && |response.value.value| > 0
    ensures r.Ok? ==> var item := response.value.value[0];
      r.value == VideoDetails(item.title, item.description, item.duration, item.publishedAt, item.channelTitle)
    ensures r.Err? ==> DetailsErrorPrefix <= r.error
    ensures response.Err? ==> r.error == DetailsErrorPrefix + response.error
    ensures response.Ok? && (response.value.None? || response.value.value == []) ==> r == Err(DetailsErrorPrefix + VideoNotFound)
  {
    match response
    case Err(message) => Err(DetailsErrorPrefix + message)
    case Ok(items) =>
      if items.Some? && |items.value| > 0 then
        var item := items.value[0];
        Ok(VideoDetails(item.title, item.description, item.duration, item.publishedAt, item.channelTitle))
      else Err(DetailsErrorPrefix + VideoNotFound)
  }
}
