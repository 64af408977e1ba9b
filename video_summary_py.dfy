/**
 * The summariser script: its own video-id recogniser (a Python `re.search`,
 * written out as a matcher that tries positions left to right and alternatives
 * in order), the heuristic summary builder, and the single-video record that
 * the script prints.
 */
module VideoSummaryPy {
  import opened Wrappers
  import opened Text
  import opened Seqs
  import YoutubeHelper

  // ---------------------------------------------------------------------------
  // extract_video_id:
  //   (?:youtube\.com\/(?:[^\/\n\s]+\/\S+\/|(?:v|e(?:mbed)?)\/|\S*?[?&]v=)|youtu\.be\/)([a-zA-Z0-9_-]{11})
  // Each matcher below returns where group 1 starts.
  // ---------------------------------------------------------------------------

  /** Eleven id characters start at k. Nothing is required of what follows them. */
  predicate IdAt(s: string, k: nat) {
    k + 11 <= |s| && forall i | k <= i < k + 11 :: YoutubeHelper.IsIdChar(s[i])
  }

  predicate NotSlashOrSpace(c: char) {
    c != '/' && !IsPySpace(c)
  }

  /** The largest j in [lo, hi) with a '/' at j and an id after it, given as j + 1. */
  function LastSlashBeforeId(s: string, lo: nat, hi: nat): (g: Option<nat>)
    requires hi <= |s|
    ensures g.Some? ==> lo < g.value <= hi && s[g.value - 1] == '/' && IdAt(s, g.value)
    ensures g.Some? ==> forall j | g.value <= j < hi :: !(s[j] == '/' && IdAt(s, j + 1))
    ensures g.None? ==> forall j | lo <= j < hi :: !(s[j] == '/' && IdAt(s, j + 1))
    decreases hi
  {
    if hi <= lo then None
    else if s[hi - 1] == '/' && IdAt(s, hi) then Some(hi)
    else LastSlashBeforeId(s, lo, hi - 1)
  }

  /**
   * `[^\/\n\s]+\/\S+\/` then the id. The first run cannot be shortened (it would
   * end at a character that is not '/'); the greedy `\S+` backs off to the last
   * '/' inside the following non-space run that an id follows.
   */
  function PathAlternative(s: string, q: nat): (g: Option<nat>)
    requires q <= |s|
    ensures g.Some? ==> IdAt(s, g.value)
  {
    var r := PrefixRun(s[q..], NotSlashOrSpace);
    if r == 0 || q + r == |s| || s[q + r] != '/' then None
    else
      var b := q + r + 1;
      var m := PrefixRun(s[b..], NotPySpace);
      LastSlashBeforeId(s, b + 1, b + m)
  }

  /** `(?:v|e(?:mbed)?)\/` then the id: "v/", then "embed/", then "e/". */
  function ShortPathAlternative(s: string, q: nat): (g: Option<nat>)
    ensures g.Some? ==> IdAt(s, g.value)
  {
    if q + 2 <= |s| && s[q] == 'v' && s[q + 1] == '/' && IdAt(s, q + 2) then Some(q + 2)
    else if q + 6 <= |s| && s[q] == 'e' && s[q + 1] == 'm' && s[q + 2] == 'b' && s[q + 3] == 'e' && s[q + 4] == 'd'
      && s[q + 5] == '/' && IdAt(s, q + 6) then Some(q + 6)
    else if q + 2 <= |s| && s[q] == 'e' && s[q + 1] == '/' && IdAt(s, q + 2) then Some(q + 2)
    else None
  }

  predicate QueryVAt(s: string, j: nat) {
    j + 3 <= |s| && (s[j] == '?' || s[j] == '&') && s[j + 1] == 'v' && s[j + 2] == '=' && IdAt(s, j + 3)
  }

  /** The smallest j in [lo, hi) where "?v=" or "&v=" and an id start, given as j + 3. */
  function FirstQueryV(s: string, lo: nat, hi: nat): (g: Option<nat>)
    ensures g.Some? ==> lo + 3 <= g.value < hi + 3 && QueryVAt(s, g.value - 3)
    ensures g.Some? ==> forall j | lo <= j < g.value - 3 :: !QueryVAt(s, j)
    ensures g.None? ==> forall j | lo <= j < hi :: !QueryVAt(s, j)
    decreases hi - lo
  {
    if hi <= lo then None
    else if QueryVAt(s, lo) then Some(lo + 3)
    else FirstQueryV(s, lo + 1, hi)
  }

  /** `\S*?[?&]v=` then the id: the lazy run stops at the first place the rest matches. */
  function QueryAlternative(s: string, q: nat): (g: Option<nat>)
    requires q <= |s|
    ensures g.Some? ==> IdAt(s, g.value)
  {
    FirstQueryV(s, q, q + PrefixRun(s[q..], NotPySpace))
  }

  predicate YoutubeComAt(s: string, p: nat) {
    p + 12 <= |s| && s[p] == 'y' && s[p + 1] == 'o' && s[p + 2] == 'u' && s[p + 3] == 't' && s[p + 4] == 'u'
    && s[p + 5] == 'b' && s[p + 6] == 'e' && s[p + 7] == '.' && s[p + 8] == 'c' && s[p + 9] == 'o'
    && s[p + 10] == 'm' && s[p + 11] == '/'
  }

  predicate YoutuBeAt(s: string, p: nat) {
    p + 9 <= |s| && s[p] == 'y' && s[p + 1] == 'o' && s[p + 2] == 'u' && s[p + 3] == 't' && s[p + 4] == 'u'
    && s[p + 5] == '.' && s[p + 6] == 'b' && s[p + 7] == 'e' && s[p + 8] == '/'
  }

  /** Whether the pattern matches starting exactly at p, and where group 1 then starts. */
  function MatchAt(s: string, p: nat): (g: Option<nat>)
    ensures g.Some? ==> IdAt(s, g.value) && p < |s| && s[p] == 'y'
  {
    if YoutubeComAt(s, p) then
      var q := p + 12;
      var a := PathAlternative(s, q);
      if a.Some? then a
      else
        var b := ShortPathAlternative(s, q);
        if b.Some? then b else QueryAlternative(s, q)
    else if YoutuBeAt(s, p) && IdAt(s, p + 9) then Some(p + 9)
    else None
  }

  /** A match found by the search: where it starts and where group 1 starts. */
  datatype Hit = Hit(start: nat, group: nat)

  /** The first position from p on whose entry is a match. */
  function FirstHit(ms: seq<Option<nat>>, p: nat): (r: Option<Hit>)
    ensures r.Some? ==> p <= r.value.start < |ms| && ms[r.value.start] == Some(r.value.group)
    ensures r.Some? ==> forall k | p <= k < r.value.start :: ms[k].None?
    ensures r.None? ==> forall k | p <= k < |ms| :: ms[k].None?
    decreases |ms| - p
  {
    if p >= |ms| then None
    else if ms[p].Some? then Some(Hit(p, ms[p].value))
    else FirstHit(ms, p + 1)
  }

  lemma {:induction false} FirstHitIs(ms: seq<Option<nat>>, p: nat, k: nat)
    requires p <= k < |ms| && ms[k].Some?
    requires forall j | p <= j < k :: ms[j].None?
    ensures FirstHit(ms, p) == Some(Hit(k, ms[k].value))
    decreases k - p
  {
    if p < k {
      FirstHitIs(ms, p + 1, k);
    }
  }

  /** The outcome of the pattern at every position of s. */
  function Matches(s: string): (ms: seq<Option<nat>>)
    ensures |ms| == |s| && forall k | 0 <= k < |s| :: ms[k] == MatchAt(s, k)
  {
    seq(|s|, k requires 0 <= k < |s| => MatchAt(s, k))
  }

  /** `re.search` from position p: the leftmost position at which the pattern matches. */
  function Search(s: string, p: nat): (r: Option<Hit>)
    ensures r.Some? ==> p <= r.value.start < |s| && MatchAt(s, r.value.start) == Some(r.value.group)
    ensures r.Some? ==> forall k | p <= k < r.value.start :: MatchAt(s, k).None?
    ensures r.None? ==> forall k | p <= k < |s| :: MatchAt(s, k).None?
  {
    var ms := Matches(s);
    var r := FirstHit(ms, p);
    assert r.Some? ==> forall k | p <= k < r.value.start :: ms[k].None?;
    r
  }

  /** `extract_video_id`: the eleven characters of group 1 at the leftmost match, or None. */
  function ExtractVideoId(url: string): (r: Option<string>)
    ensures r.Some? ==> YoutubeHelper.IsVideoId(r.value)
    ensures r.Some? <==> Search(url, 0).Some?
    ensures r.Some? ==> r.value == url[Search(url, 0).value.group..Search(url, 0).value.group + 11]
  {
    match Search(url, 0)
    case None => None
    case Some(hit) =>
      var id := url[hit.group..hit.group + 11];
      assert forall i | 0 <= i < 11 :: id[i] == url[hit.group + i];
      Some(id)
  }

  /** If there is no match before k and one at k, the search finds that one. */
  lemma SearchFinds(s: string, p: nat, k: nat, g: nat)
    requires p <= k < |s| && MatchAt(s, k) == Some(g)
    requires forall j | p <= j < k :: MatchAt(s, j).None?
    ensures Search(s, p) == Some(Hit(k, g))
  {
    var ms := Matches(s);
    assert forall j | p <= j < k :: ms[j].None?;
    FirstHitIs(ms, p, k);
  }

  /** A short link gives its id whatever follows it; a longer run of id characters is cut to eleven. */
  lemma ShortLinkId(id: string, rest: string)
    requires YoutubeHelper.IsVideoId(id)
    ensures ExtractVideoId(YoutubeHelper.ShortPrefix + id + rest) == Some(id)
  {
    var s := YoutubeHelper.ShortPrefix + id + rest;
    assert s[..17] == YoutubeHelper.ShortPrefix;
    assert forall i | 0 <= i < 11 :: s[17 + i] == id[i];
    assert YoutuBeAt(s, 8) && IdAt(s, 17);
    assert forall j | 0 <= j < 8 :: s[j] != 'y';
    SearchFinds(s, 0, 8, 17);
    assert s[17..28] == id;
  }

  /** With no space and no '/' from q on, the path alternative cannot match. */
  lemma NoPathWithoutSlash(s: string, q: nat)
    requires q <= |s| && forall i | q <= i < |s| :: NotSlashOrSpace(s[i])
    ensures PathAlternative(s, q).None?
  {
    assert forall i | 0 <= i < |s[q..]| :: s[q..][i] == s[q + i];
    PrefixRunAll(s[q..], NotSlashOrSpace);
  }

  /** With no space from q on, the lazy run may reach the end of the string. */
  lemma QueryRunToEnd(s: string, q: nat)
    requires q <= |s| && forall i | q <= i < |s| :: NotPySpace(s[i])
    ensures QueryAlternative(s, q) == FirstQueryV(s, q, |s|)
  {
    assert forall i | 0 <= i < |s[q..]| :: s[q..][i] == s[q + i];
    PrefixRunAll(s[q..], NotPySpace);
  }

  lemma {:induction false} FirstQueryVIs(s: string, lo: nat, hi: nat, j: nat)
    requires lo <= j < hi && QueryVAt(s, j)
    requires forall k | lo <= k < j :: !QueryVAt(s, k)
    ensures FirstQueryV(s, lo, hi) == Some(j + 3)
    decreases j - lo
  {
    if lo < j {
      FirstQueryVIs(s, lo + 1, hi, j);
    }
  }

  /** The standard watch link gives back its id, through the `[?&]v=` alternative. */
  lemma WatchLinkId(id: string)
    requires YoutubeHelper.IsVideoId(id)
    ensures ExtractVideoId(YoutubeHelper.WatchPrefix + id) == Some(id)
  {
    var s := YoutubeHelper.WatchPrefix + id;
    assert s[..32] == YoutubeHelper.WatchPrefix && s[32..] == id;
    LinkFacts(s, 32, id);
    WatchLinkMatch(s);
    SearchFinds(s, 0, 12, 32);
    assert s[32..43] == s[32..];
  }

  /** The characters of a link made of a known prefix and an id. */
  lemma LinkFacts(s: string, n: nat, id: string)
    requires n <= |s| && s[n..] == id && YoutubeHelper.IsVideoId(id)
    ensures |s| == n + 11 && forall i | n <= i < |s| :: YoutubeHelper.IsIdChar(s[i])
  {
    assert forall i | n <= i < |s| :: s[i] == id[i - n];
  }

  /** No match starts before n when no 'y' occurs there. */
  lemma NoMatchBefore(s: string, n: nat)
    requires n <= |s| && forall j | 0 <= j < n :: s[j] != 'y'
    ensures forall j | 0 <= j < n :: MatchAt(s, j).None?
  {
  }

  lemma WatchLinkMatch(s: string)
    requires |s| == 43 && s[..32] == YoutubeHelper.WatchPrefix && forall i | 32 <= i < 43 :: YoutubeHelper.IsIdChar(s[i])
    ensures MatchAt(s, 12) == Some(32)
    ensures forall j | 0 <= j < 12 :: MatchAt(s, j).None?
  {
    assert forall i | 0 <= i < 32 :: s[i] == YoutubeHelper.WatchPrefix[i];
    NoMatchBefore(s, 12);
    assert YoutubeComAt(s, 12);
    WatchQuery(s);
  }

  lemma WatchQuery(s: string)
    requires |s| == 43 && s[24..32] == "watch?v=" && forall i | 32 <= i < 43 :: YoutubeHelper.IsIdChar(s[i])
    ensures PathAlternative(s, 24).None? && ShortPathAlternative(s, 24).None? && QueryAlternative(s, 24) == Some(32)
  {
    assert forall i | 24 <= i < 32 :: s[i] == "watch?v="[i - 24];
    NoPathWithoutSlash(s, 24);
    QueryRunToEnd(s, 24);
    assert QueryVAt(s, 29);
    FirstQueryVIs(s, 24, |s|, 29);
  }

  /** An embed link gives back its id, even one beginning with 'v'. */
  lemma EmbedLinkId(id: string)
    requires YoutubeHelper.IsVideoId(id)
    ensures ExtractVideoId(YoutubeHelper.EmbedPrefix + id) == Some(id)
  {
    var s := YoutubeHelper.EmbedPrefix + id;
    assert s[..30] == YoutubeHelper.EmbedPrefix && s[30..] == id;
    LinkFacts(s, 30, id);
    EmbedLinkMatch(s);
    SearchFinds(s, 0, 12, 30);
    assert s[30..41] == s[30..];
  }

  lemma EmbedLinkMatch(s: string)
    requires |s| == 41 && s[..30] == YoutubeHelper.EmbedPrefix && forall i | 30 <= i < 41 :: YoutubeHelper.IsIdChar(s[i])
    ensures MatchAt(s, 12) == Some(30)
    ensures forall j | 0 <= j < 12 :: MatchAt(s, j).None?
  {
    assert forall i | 0 <= i < 30 :: s[i] == YoutubeHelper.EmbedPrefix[i];
    NoMatchBefore(s, 12);
    assert YoutubeComAt(s, 12);
    assert s[24..30] == "embed/";
    EmbedAlternatives(s);
  }

  lemma EmbedAlternatives(s: string)
    requires |s| == 41 && s[24..30] == "embed/" && forall i | 30 <= i < 41 :: YoutubeHelper.IsIdChar(s[i])
    ensures PathAlternative(s, 24).None? && ShortPathAlternative(s, 24) == Some(30)
  {
    assert forall i | 24 <= i < 30 :: s[i] == "embed/"[i - 24];
    EmbedPathFails(s);
  }

  /** In an embed link the only '/' after "embed" is the one right after it, so `\S+\/` finds no second '/'. */
  lemma EmbedPathFails(s: string)
    requires |s| == 41 && s[24..30] == "embed/" && forall i | 30 <= i < 41 :: YoutubeHelper.IsIdChar(s[i])
    ensures PathAlternative(s, 24).None?
  {
    var t := s[24..];
    assert t[..6] == "embed/";
    assert t[5] == '/' && forall i | 0 <= i < 5 :: NotSlashOrSpace(t[i]);
    assert PrefixRun(t, NotSlashOrSpace) == 5;
    assert forall i | 0 <= i < |s[30..]| :: NotPySpace(s[30..][i]);
    PrefixRunAll(s[30..], NotPySpace);
  }

  /** The two recognisers disagree on a short link whose id begins with 'v': the server's `v?` swallows it. */
  lemma RecognisersDisagreeOnLeadingV(id: string)
    requires YoutubeHelper.IsVideoId(id) && id[0] == 'v'
    ensures YoutubeHelper.ExtractVideoId(YoutubeHelper.ShortPrefix + id) == None
    ensures ExtractVideoId(YoutubeHelper.ShortPrefix + id) == Some(id)
  {
    YoutubeHelper.ShortLinkId(id);
    ShortLinkId(id, "");
    assert YoutubeHelper.ShortPrefix + id + "" == YoutubeHelper.ShortPrefix + id;
  }

  /** On the standard watch link the two recognisers agree. */
  lemma RecognisersAgreeOnWatchLink(id: string)
    requires YoutubeHelper.IsVideoId(id)
    ensures YoutubeHelper.ExtractVideoId(YoutubeHelper.WatchPrefix + id) == ExtractVideoId(YoutubeHelper.WatchPrefix + id) == Some(id)
  {
    YoutubeHelper.WatchLinkId(id);
    WatchLinkId(id);
  }

  // ---------------------------------------------------------------------------
  // generate_summary
  // ---------------------------------------------------------------------------

  /** The fields of `get_video_details` that the summary reads; the counts are already converted by `int`. */
  datatype VideoDetails = VideoDetails(
    title: string, channelTitle: string, description: string, tags: seq<string>, viewCount: int, likeCount: int)

  /** One entry of the `important_terms` dictionary; the sequence keeps insertion order. */
  datatype Term = Term(key: string, note: string)

  datatype SummaryResult = SummaryResult(
    summary: string, keyPoints: seq<string>, importantTerms: seq<Term>, transcript: string)

  const TagSuffix: string := " konusu videoda ele alınıyor."
  const ChannelNote: string := "Video içeriğini oluşturan YouTube kanalı"
  const TitleNote: string := "Video başlığında geçen önemli bir terim"
  const TagNote: string := "Videoda bahsedilen önemli bir konu veya anahtar kelime"
  /** What `range` raises when `len(transcript_parts) // 5` is zero. */
  const RangeStepError: string := "range() arg 3 must not be zero"

  function NoTranscriptSentence(v: VideoDetails): string {
    "Bu video, " + v.channelTitle + " kanalında yayınlanan '" + v.title
      + "' başlıklı bir içeriktir. Detaylı transkript bilgisi bulunmamaktadır."
  }

  function ShortSummarySentence(v: VideoDetails): string {
    " Bu video, " + v.channelTitle + " tarafından oluşturulan " + v.title + " başlıklı içeriğin bir parçasıdır."
  }

  /** The first n '.'-pieces of s rejoined with '.', plus a closing '.'. */
  function Sentences(s: string, n: nat): string {
    var pieces := Split(s, '.');
    Join(".", pieces[..Min(n, |pieces|)]) + "."
  }

  /** The `summary` field, built from the description without a transcript and from the transcript otherwise. */
  function SummaryText(v: VideoDetails, transcript: string): string {
    if transcript == "" then
      var short := Sentences(v.description, 3);
      if |short| < 50 then NoTranscriptSentence(v) else short
    else
      var s := Sentences(transcript, 5);
      if |s| < 100 then s + ShortSummarySentence(v) else s
  }

  /** `Sentences` is a prefix of the text followed by '.'. */
  lemma SentencesArePrefix(s: string, n: nat)
    requires n >= 1
    ensures var r := Sentences(s, n); |r| >= 1 && r[|r| - 1] == '.' && r[..|r| - 1] <= s
  {
    var pieces := Split(s, '.');
    var k := Min(n, |pieces|);
    JoinSplitPrefix(s, ".", k);
    var joined := Join(".", pieces[..k]);
    assert Sentences(s, n) == joined + ".";
    assert (joined + ".")[..|joined|] == joined;
  }

  /** With fewer than n '.'-pieces, `Sentences` is the whole text followed by '.'. */
  lemma SentencesOfShortText(s: string, n: nat)
    requires Occurrences(s, '.') < n
    ensures Sentences(s, n) == s + "."
  {
    var pieces := Split(s, '.');
    SplitPieces(s, '.');
    assert Min(n, |pieces|) == |pieces|;
    assert pieces[..|pieces|] == pieces;
    JoinSplitOn(s, ".");
  }

  /** Without a transcript: the description's first three sentences, or the fixed sentence when they are shorter than 50 characters. */
  lemma SummaryWithoutTranscript(v: VideoDetails)
    ensures var short := Sentences(v.description, 3);
      SummaryText(v, "") == (if |short| < 50 then NoTranscriptSentence(v) else short)
      && short[..|short| - 1] <= v.description
      && (Occurrences(v.description, '.') < 3 ==> short == v.description + ".")
  {
    SentencesArePrefix(v.description, 3);
    if Occurrences(v.description, '.') < 3 {
      SentencesOfShortText(v.description, 3);
    }
  }

  /** With a transcript: its first five sentences, followed by a fixed sentence when they are shorter than 100 characters. */
  lemma SummaryWithTranscript(v: VideoDetails, transcript: string)
    requires transcript != ""
    ensures var s := Sentences(transcript, 5);
      SummaryText(v, transcript) == (if |s| < 100 then s + ShortSummarySentence(v) else s)
      && s <= SummaryText(v, transcript)
      && s[..|s| - 1] <= transcript
  {
    SentencesArePrefix(transcript, 5);
  }

  /** `generate_summary` raises when a non-empty transcript has fewer than five '.'-pieces (the `range` step is 0). */
  predicate Crashes(transcript: string) {
    transcript != "" && |Split(transcript, '.')| / 5 == 0
  }

  lemma CrashesMeaning(transcript: string)
    ensures Crashes(transcript) <==> transcript != "" && Occurrences(transcript, '.') < 4
  {
    SplitPieces(transcript, '.');
  }

  /** Key points from the first three tags. */
  function TagPoints(tags: seq<string>): (r: seq<string>)
    ensures |r| == Min(3, |tags|)
  {
    seq(Min(3, |tags|), i requires 0 <= i < Min(3, |tags|) => tags[i] + TagSuffix)
  }

  /** The paragraphs longer than 30 characters, stripped, in order. */
  function LongParagraphs(paras: seq<string>): (r: seq<string>)
    ensures |r| <= |paras|
  {
    if |paras| == 0 then []
    else
      var last := paras[|paras| - 1];
      LongParagraphs(paras[..|paras| - 1]) + (if |last| > 30 then [Strip(last)] else [])
  }

  /** Key points from the first two '\n\n'-paragraphs of the description. */
  function ParagraphPoints(description: string): seq<string> {
    var paras := SplitOn(description, "\n\n");
    LongParagraphs(paras[..Min(2, |paras|)])
  }

  /** One transcript key point: the piece stripped, with '.' added. */
  function TranscriptPoint(piece: string): string {
    Strip(piece) + "."
  }

  /** The pieces at indices i, i + step, ... that are longer than 30 characters, as key points. */
  function StridePoints(parts: seq<string>, step: nat, i: nat): seq<string>
    requires step > 0
    decreases |parts| - i
  {
    if i >= |parts| then []
    else (if |parts[i]| > 30 then [TranscriptPoint(parts[i])] else []) + StridePoints(parts, step, i + step)
  }

  /** Key points from the transcript: every (len/5)-th '.'-piece. */
  function TranscriptPoints(transcript: string): seq<string>
    requires !Crashes(transcript)
  {
    if transcript == "" then []
    else
      var parts := Split(transcript, '.');
      StridePoints(parts, |parts| / 5, 0)
  }

  function CountPoints(v: VideoDetails): seq<string> {
    (if v.viewCount > 1000 then ["Video şu ana kadar " + GroupThousands(v.viewCount) + " kez izlenmiş."] else [])
    + (if v.likeCount > 100 then ["İzleyiciler videoyu " + GroupThousands(v.likeCount) + " kez beğenmiş."] else [])
  }

  /** The key points in the order the source appends them, before padding and truncation. */
  function Candidates(v: VideoDetails, transcript: string): seq<string>
    requires !Crashes(transcript)
  {
    TagPoints(v.tags) + ParagraphPoints(v.description) + TranscriptPoints(transcript) + CountPoints(v)
  }

  function Fallback(channel: string): seq<string> {
    [ channel + " kanalı içeriği profesyonel bir şekilde sunuyor.",
      "Video, konuyla ilgili önemli bilgiler içeriyor.",
      "İçerik, izleyicilere kapsamlı ve detaylı bilgiler sunmaktadır.",
      "Video, konu hakkında çeşitli örnekler ve açıklamalar içeriyor.",
      "İçerik, konuyu anlaşılır bir şekilde ele alıyor." ]
  }

  /** The five fallback points are pairwise different, whatever the channel is called. */
  lemma FallbackDistinct(channel: string)
    ensures |Fallback(channel)| == 5 && Distinct(Fallback(channel))
  {
    var f := Fallback(channel);
    var c := f[0];
    assert c[|c| - 5] == 'u';
    assert f[1][|f[1]| - 5] == 'i' && f[2][|f[2]| - 5] == 'a' && f[3][|f[3]| - 5] == 'i' && f[4][|f[4]| - 5] == 'ı';
    assert f[1] != f[2] && f[1] != f[3] && f[1] != f[4] && f[2] != f[3] && f[2] != f[4] && f[3] != f[4];
  }

  lemma MissingTail<T>(points: seq<T>, kp: seq<T>)
    requires |points| > 0 && points[0] in kp && exists j | 0 <= j < |points| :: points[j] !in kp
    ensures exists j | 0 <= j < |points[1..]| :: points[1..][j] !in kp
  {
    var j :| 0 <= j < |points| && points[j] !in kp;
    assert points[1..][j - 1] == points[j];
  }

  /** The index of the first point not yet in kp (the inner `for`/`break`). */
  function FirstMissing<T(==)>(points: seq<T>, kp: seq<T>): (i: nat)
    requires exists j | 0 <= j < |points| :: points[j] !in kp
    ensures i < |points| && points[i] !in kp && forall j | 0 <= j < i :: points[j] in kp
  {
    if points[0] !in kp then 0
    else
      MissingTail(points, kp);
      1 + FirstMissing(points[1..], kp)
  }

  /** The padding loop: append the first fallback point not yet present until there are five. */
  function Pad<T(==)>(kp: seq<T>, fallback: seq<T>): (r: seq<T>)
    requires |fallback| == 5 && Distinct(fallback)
    ensures |r| == if |kp| >= 5 then |kp| else 5
    ensures r[..|kp|] == kp
    decreases 5 - |kp|
  {
    if |kp| >= 5 then kp
    else
      Cover(fallback, kp);
      var i := FirstMissing(fallback, kp);
      var r := Pad(kp + [fallback[i]], fallback);
      assert r[..|kp|] == (r[..|kp| + 1])[..|kp|];
      r
  }

  /** The points of `points` that `kp` does not contain, in order. */
  function Missing<T(==)>(points: seq<T>, kp: seq<T>): seq<T> {
    if |points| == 0 then [] else (if points[0] !in kp then [points[0]] else []) + Missing(points[1..], kp)
  }

  lemma {:induction false} MissingIgnores<T>(points: seq<T>, kp: seq<T>, x: T)
    requires x !in points
    ensures Missing(points, kp + [x]) == Missing(points, kp)
  {
    if |points| > 0 {
      MissingIgnores(points[1..], kp, x);
    }
  }

  lemma {:induction false} MissingStep<T>(points: seq<T>, kp: seq<T>, i: nat)
    requires Distinct(points) && i < |points| && points[i] !in kp && forall j | 0 <= j < i :: points[j] in kp
    ensures Missing(points, kp) == [points[i]] + Missing(points, kp + [points[i]])
  {
    var x := points[i];
    if i == 0 {
      assert x !in points[1..];
      MissingIgnores(points[1..], kp, x);
    } else {
      assert forall j | 0 <= j < i - 1 :: points[1..][j] == points[j + 1];
      MissingStep(points[1..], kp, i - 1);
    }
  }

  /** Padding adds exactly the first 5 - |kp| fallback points that kp does not already contain. */
  lemma {:induction false} PadAddsMissing<T>(kp: seq<T>, fallback: seq<T>)
    requires |fallback| == 5 && Distinct(fallback) && |kp| < 5
    ensures 5 - |kp| <= |Missing(fallback, kp)|
    ensures Pad(kp, fallback) == kp + Missing(fallback, kp)[..5 - |kp|]
    decreases 5 - |kp|
  {
    Cover(fallback, kp);
    var i := FirstMissing(fallback, kp);
    var next := kp + [fallback[i]];
    MissingStep(fallback, kp, i);
    if |next| < 5 {
      PadAddsMissing(next, fallback);
      assert Missing(fallback, kp)[..5 - |kp|] == [fallback[i]] + Missing(fallback, next)[..5 - |next|];
    }
  }

  /** `keyPoints`: the candidates padded from the fallback list and cut to five. */
  function KeyPoints(v: VideoDetails, transcript: string): seq<string>
    requires !Crashes(transcript)
  {
    FallbackDistinct(v.channelTitle);
    Pad(Candidates(v, transcript), Fallback(v.channelTitle))[..5]
  }

  /** There are always exactly five key points: the first five candidates, or all of them followed by the missing fallback points. */
  lemma KeyPointsShape(v: VideoDetails, transcript: string)
    requires !Crashes(transcript)
    ensures var c := Candidates(v, transcript);
      var k := KeyPoints(v, transcript);
      |k| == 5
      && (|c| >= 5 ==> k == c[..5])
      && (|c| < 5 ==>
            (5 - |c| <= |Missing(Fallback(v.channelTitle), c)| && k == c + Missing(Fallback(v.channelTitle), c)[..5 - |c|]))
  {
    var c := Candidates(v, transcript);
    var fallback := Fallback(v.channelTitle);
    FallbackDistinct(v.channelTitle);
    assert KeyPoints(v, transcript) == Pad(c, fallback)[..5];
    PadShape(c, fallback);
  }

  /** The first five points after padding: the first five of c, or c followed by the missing fallback points. */
  lemma PadShape<T>(c: seq<T>, fallback: seq<T>)
    requires |fallback| == 5 && Distinct(fallback)
    ensures var k := Pad(c, fallback)[..5];
      (|c| >= 5 ==> k == c[..5])
      && (|c| < 5 ==> 5 - |c| <= |Missing(fallback, c)| && k == c + Missing(fallback, c)[..5 - |c|])
  {
    if |c| < 5 {
      PadAddsMissing(c, fallback);
      assert Pad(c, fallback)[..5] == Pad(c, fallback);
    }
  }

  /** The lower-cased keys of the dictionary, as the membership test builds them. */
  function LowerKeys(terms: seq<Term>): (r: seq<string>)
    ensures |r| == |terms| && forall i | 0 <= i < |terms| :: r[i] == Lower(terms[i].key)
  {
    seq(|terms|, i requires 0 <= i < |terms| => Lower(terms[i].key))
  }

  /** The title loop: add each new word longer than 5 characters; stop once there are three keys. */
  function AddTitleTerms(words: seq<string>, terms: seq<Term>): seq<Term>
    decreases |words|
  {
    if |words| == 0 then terms
    else if |words[0]| > 5 && Lower(words[0]) !in LowerKeys(terms) then
      var next := terms + [Term(words[0], TitleNote)];
      if |next| >= 3 then next else AddTitleTerms(words[1..], next)
    else AddTitleTerms(words[1..], terms)
  }

  /** The tag loop: add each new tag; stop once there are five keys. */
  function AddTagTerms(tags: seq<string>, terms: seq<Term>): seq<Term>
    decreases |tags|
  {
    if |tags| == 0 then terms
    else if Lower(tags[0]) !in LowerKeys(terms) then
      var next := terms + [Term(tags[0], TagNote)];
      if |next| >= 5 then next else AddTagTerms(tags[1..], next)
    else AddTagTerms(tags[1..], terms)
  }

  /** `importantTerms`: the channel, then up to two title words, then tags from the first three. */
  function ImportantTerms(v: VideoDetails): seq<Term> {
    AddTagTerms(v.tags[..Min(3, |v.tags|)], AddTitleTerms(Words(v.title), [Term(v.channelTitle, ChannelNote)]))
  }

  lemma LowerKeysAppend(terms: seq<Term>, t: Term)
    ensures LowerKeys(terms + [t]) == LowerKeys(terms) + [Lower(t.key)]
  {
  }

  /** The title loop only appends, and stops at three keys. */
  lemma {:induction false} TitleTermsGrow(words: seq<string>, terms: seq<Term>)
    ensures var r := AddTitleTerms(words, terms);
      |terms| <= |r| && r[..|terms|] == terms
      && |r| <= (if |terms| < 3 then 3 else |terms| + 1)
    decreases |words|
  {
    if |words| > 0 {
      var rest := words[1..];
      if |words[0]| > 5 && Lower(words[0]) !in LowerKeys(terms) {
        var next := terms + [Term(words[0], TitleNote)];
        if |next| < 3 {
          TitleTermsGrow(rest, next);
          var r := AddTitleTerms(rest, next);
          assert r[..|terms|] == r[..|next|][..|terms|];
        }
      } else {
        TitleTermsGrow(rest, terms);
      }
    }
  }

  /** The title loop adds no key that is already there. */
  lemma {:induction false} TitleTermsDistinct(words: seq<string>, terms: seq<Term>)
    ensures Distinct(LowerKeys(terms)) ==> Distinct(LowerKeys(AddTitleTerms(words, terms)))
    decreases |words|
  {
    if |words| > 0 {
      var rest := words[1..];
      if |words[0]| > 5 && Lower(words[0]) !in LowerKeys(terms) {
        var next := terms + [Term(words[0], TitleNote)];
        LowerKeysAppend(terms, Term(words[0], TitleNote));
        if |next| < 3 {
          TitleTermsDistinct(rest, next);
        }
      } else {
        TitleTermsDistinct(rest, terms);
      }
    }
  }

  /** What the title loop adds are title words longer than five characters. */
  lemma {:induction false} TitleTermsFrom(words: seq<string>, terms: seq<Term>)
    ensures forall i | |terms| <= i < |AddTitleTerms(words, terms)| ::
      AddTitleTerms(words, terms)[i].key in words && |AddTitleTerms(words, terms)[i].key| > 5
      && AddTitleTerms(words, terms)[i].note == TitleNote
    decreases |words|
  {
    if |words| > 0 {
      var rest := words[1..];
      if |words[0]| > 5 && Lower(words[0]) !in LowerKeys(terms) {
        var next := terms + [Term(words[0], TitleNote)];
        if |next| < 3 {
          TitleTermsFrom(rest, next);
          TitleTermsGrow(rest, next);
          var r := AddTitleTerms(rest, next);
          assert r[|terms|] == r[..|next|][|terms|] == Term(words[0], TitleNote);
          assert forall i | |next| <= i < |r| :: r[i].key in rest;
        } else {
          assert next[|terms|] == Term(words[0], TitleNote);
        }
      } else {
        TitleTermsFrom(rest, terms);
        var r := AddTitleTerms(rest, terms);
        assert AddTitleTerms(words, terms) == r;
        forall i | |terms| <= i < |r|
          ensures r[i].key in words
        {
          InTail(words, r[i].key);
        }
      }
    }
  }

  lemma TitleTermsFacts(words: seq<string>, terms: seq<Term>)
    ensures var r := AddTitleTerms(words, terms);
      |terms| <= |r| && r[..|terms|] == terms
      && |r| <= (if |terms| < 3 then 3 else |terms| + 1)
      && (Distinct(LowerKeys(terms)) ==> Distinct(LowerKeys(r)))
      && forall i | |terms| <= i < |r| :: r[i].key in words && |r[i].key| > 5 && r[i].note == TitleNote
  {
    TitleTermsGrow(words, terms);
    TitleTermsDistinct(words, terms);
    TitleTermsFrom(words, terms);
  }

  /** The tag loop only appends, and stops at five keys. */
  lemma {:induction false} TagTermsGrow(tags: seq<string>, terms: seq<Term>)
    ensures var r := AddTagTerms(tags, terms);
      |terms| <= |r| <= |terms| + |tags| && r[..|terms|] == terms
      && (|terms| < 5 ==> |r| <= 5)
    decreases |tags|
  {
    if |tags| > 0 {
      var rest := tags[1..];
      if Lower(tags[0]) !in LowerKeys(terms) {
        var next := terms + [Term(tags[0], TagNote)];
        if |next| < 5 {
          TagTermsGrow(rest, next);
          var r := AddTagTerms(rest, next);
          assert r[..|terms|] == r[..|next|][..|terms|];
        }
      } else {
        TagTermsGrow(rest, terms);
      }
    }
  }

  /** The tag loop adds no key that is already there. */
  lemma {:induction false} TagTermsDistinct(tags: seq<string>, terms: seq<Term>)
    ensures Distinct(LowerKeys(terms)) ==> Distinct(LowerKeys(AddTagTerms(tags, terms)))
    decreases |tags|
  {
    if |tags| > 0 {
      var rest := tags[1..];
      if Lower(tags[0]) !in LowerKeys(terms) {
        var next := terms + [Term(tags[0], TagNote)];
        LowerKeysAppend(terms, Term(tags[0], TagNote));
        if |next| < 5 {
          TagTermsDistinct(rest, next);
        }
      } else {
        TagTermsDistinct(rest, terms);
      }
    }
  }

  /** What the tag loop adds are tags. */
  lemma {:induction false} TagTermsFrom(tags: seq<string>, terms: seq<Term>)
    ensures forall i | |terms| <= i < |AddTagTerms(tags, terms)| ::
      AddTagTerms(tags, terms)[i].key in tags && AddTagTerms(tags, terms)[i].note == TagNote
    decreases |tags|
  {
    if |tags| > 0 {
      var rest := tags[1..];
      if Lower(tags[0]) !in LowerKeys(terms) {
        var next := terms + [Term(tags[0], TagNote)];
        if |next| < 5 {
          TagTermsFrom(rest, next);
          TagTermsGrow(rest, next);
          var r := AddTagTerms(rest, next);
          assert r[|terms|] == r[..|next|][|terms|] == Term(tags[0], TagNote);
          assert forall i | |next| <= i < |r| :: r[i].key in rest;
        } else {
          assert next[|terms|] == Term(tags[0], TagNote);
        }
      } else {
        TagTermsFrom(rest, terms);
        var r := AddTagTerms(rest, terms);
        assert AddTagTerms(tags, terms) == r;
        forall i | |terms| <= i < |r|
          ensures r[i].key in tags
        {
          InTail(tags, r[i].key);
        }
      }
    }
  }

  lemma TagTermsFacts(tags: seq<string>, terms: seq<Term>)
    ensures var r := AddTagTerms(tags, terms);
      |terms| <= |r| <= |terms| + |tags| && r[..|terms|] == terms
      && (|terms| < 5 ==> |r| <= 5)
      && (Distinct(LowerKeys(terms)) ==> Distinct(LowerKeys(r)))
      && forall i | |terms| <= i < |r| :: r[i].key in tags && r[i].note == TagNote
  {
    TagTermsGrow(tags, terms);
    TagTermsDistinct(tags, terms);
    TagTermsFrom(tags, terms);
  }

  /** The channel is the first key, and there are at most five keys. */
  lemma ImportantTermsSize(v: VideoDetails)
    ensures var r := ImportantTerms(v);
      1 <= |r| <= 5 && r[0] == Term(v.channelTitle, ChannelNote)
  {
    var first := [Term(v.channelTitle, ChannelNote)];
    var titled := AddTitleTerms(Words(v.title), first);
    TitleTermsFacts(Words(v.title), first);
    TagTermsFacts(v.tags[..Min(3, |v.tags|)], titled);
    var r := ImportantTerms(v);
    assert r[..|titled|] == titled;
    assert r[0] == titled[0] == first[0];
  }

  /** No two keys are equal after lower-casing. */
  lemma ImportantTermsDistinct(v: VideoDetails)
    ensures Distinct(LowerKeys(ImportantTerms(v)))
  {
    var first := [Term(v.channelTitle, ChannelNote)];
    var titled := AddTitleTerms(Words(v.title), first);
    assert Distinct(LowerKeys(first));
    TitleTermsFacts(Words(v.title), first);
    TagTermsFacts(v.tags[..Min(3, |v.tags|)], titled);
  }

  /**
   * Every key after the channel is a title word longer than five characters
   * or one of the first three tags, and from the fourth key on only tags appear.
   */
  lemma ImportantTermsOrigin(v: VideoDetails)
    ensures var r := ImportantTerms(v);
      (forall i | 1 <= i < |r| ::
         ((r[i].key in Words(v.title) && |r[i].key| > 5 && r[i].note == TitleNote)
          || (r[i].key in v.tags[..Min(3, |v.tags|)] && r[i].note == TagNote)))
      && forall i | 3 <= i < |r| :: r[i].note == TagNote
  {
    var first := [Term(v.channelTitle, ChannelNote)];
    var titled := AddTitleTerms(Words(v.title), first);
    TitleTermsFacts(Words(v.title), first);
    TagTermsFacts(v.tags[..Min(3, |v.tags|)], titled);
    var r := ImportantTerms(v);
    assert |titled| <= 3;
    assert forall i | 1 <= i < |titled| :: r[i] == titled[i];
  }

  /** The `transcript` field: the whole text up to 500 characters, else its first 500 and "...". */
  function Excerpt(transcript: string): (r: string)
    ensures |transcript| <= 500 ==> r == transcript
    ensures |transcript| > 500 ==> |r| == 503 && r[..500] == transcript[..500] && r[500..] == "..."
  {
    if |transcript| > 500 then transcript[..500] + "..." else transcript
  }

  /** What `generate_summary` returns, or the message of the error it raises. */
  function Summarize(v: VideoDetails, transcript: string): Result<SummaryResult, string> {
    if Crashes(transcript) then Err(RangeStepError)
    else Ok(SummaryResult(SummaryText(v, transcript), KeyPoints(v, transcript), ImportantTerms(v), Excerpt(transcript)))
  }

  /** The appending loops of `generate_summary`: tags, paragraphs, transcript pieces and counts, or the `range` error. */
  method CollectCandidates(v: VideoDetails, transcript: string) returns (r: Result<seq<string>, string>)
    ensures r.Err? <==> Crashes(transcript)
    ensures r.Err? ==> r.error == RangeStepError
    ensures r.Ok? ==> r.value == Candidates(v, transcript)
  {
    var keyPoints := CollectTagPoints(v.tags);
    var paragraphs := CollectParagraphPoints(v.description);
    keyPoints := keyPoints + paragraphs;

    // transcript_text.split('.') at step len // 5
    var strided: seq<string> := [];
    if transcript != "" {
      var parts := Split(transcript, '.');
      var step := |parts| / 5;
      if step == 0 {
        return Err(RangeStepError);
      }
      strided := CollectStridePoints(parts, step);
    }
    assert strided == TranscriptPoints(transcript);
    keyPoints := keyPoints + strided;

    var counts := CollectCountPoints(v);
    r := Ok(keyPoints + counts);
  }

  /** The `for tag in tags[:3]` loop. */
  method CollectTagPoints(tags: seq<string>) returns (points: seq<string>)
    ensures points == TagPoints(tags)
  {
    points := [];
    var tagCount := Min(3, |tags|);
    var i := 0;
    while i < tagCount
      invariant 0 <= i <= tagCount
      invariant points == TagPoints(tags)[..i]
    {
      points := points + [tags[i] + TagSuffix];
      i := i + 1;
    }
  }

  /** The `for para in description.split('\n\n')[:2]` loop. */
  method CollectParagraphPoints(description: string) returns (points: seq<string>)
    ensures points == ParagraphPoints(description)
  {
    points := [];
    var paras := SplitOn(description, "\n\n");
    var paraCount := Min(2, |paras|);
    var j := 0;
    while j < paraCount
      invariant 0 <= j <= paraCount
      invariant points == LongParagraphs(paras[..j])
    {
      var seen := paras[..j + 1];
      assert seen[..j] == paras[..j] && seen[j] == paras[j];
      assert LongParagraphs(seen) == points + (if |paras[j]| > 30 then [Strip(paras[j])] else []);
      if |paras[j]| > 30 {
        points := points + [Strip(paras[j])];
      }
      j := j + 1;
    }
    assert paras[..j] == paras[..Min(2, |paras|)];
  }

  /** The view and like sentences. */
  method CollectCountPoints(v: VideoDetails) returns (points: seq<string>)
    ensures points == CountPoints(v)
  {
    points := [];
    if v.viewCount > 1000 {
      points := points + ["Video şu ana kadar " + GroupThousands(v.viewCount) + " kez izlenmiş."];
    }
    if v.likeCount > 100 {
      points := points + ["İzleyiciler videoyu " + GroupThousands(v.likeCount) + " kez beğenmiş."];
    }
  }

  /** The `for i in range(0, len(transcript_parts), step)` loop. */
  method CollectStridePoints(parts: seq<string>, step: nat) returns (points: seq<string>)
    requires step > 0
    ensures points == StridePoints(parts, step, 0)
  {
    points := [];
    var k: nat := 0;
    while k < |parts|
      invariant points + StridePoints(parts, step, k) == StridePoints(parts, step, 0)
      decreases |parts| - k
    {
      ghost var rest := StridePoints(parts, step, k + step);
      if |parts[k]| > 30 {
        var point := TranscriptPoint(parts[k]);
        assert StridePoints(parts, step, k) == [point] + rest;
        assert points + ([point] + rest) == (points + [point]) + rest;
        points := points + [point];
      } else {
        assert StridePoints(parts, step, k) == rest;
      }
      k := k + step;
    }
  }

  /** The `while len(key_points) < 5` loop. */
  method PadKeyPoints<T(==)>(candidates: seq<T>, fallback: seq<T>) returns (keyPoints: seq<T>)
    requires |fallback| == 5 && Distinct(fallback)
    ensures keyPoints == Pad(candidates, fallback)
  {
    keyPoints := candidates;
    while |keyPoints| < 5
      invariant Pad(keyPoints, fallback) == Pad(candidates, fallback)
      decreases 5 - |keyPoints|
    {
      PadStep(keyPoints, fallback);
      keyPoints := AddFirstMissing(keyPoints, fallback);
      if |keyPoints| >= 5 {
        break;
      }
    }
  }

  /** The inner `for point in fallback_points` loop, which appends the first point not yet present and breaks. */
  method AddFirstMissing<T(==)>(kp: seq<T>, fallback: seq<T>) returns (r: seq<T>)
    requires exists j | 0 <= j < |fallback| :: fallback[j] !in kp
    ensures r == kp + [fallback[FirstMissing(fallback, kp)]]
  {
    ghost var i := FirstMissing(fallback, kp);
    var p := 0;
    while p < |fallback|
      invariant 0 <= p <= i
      invariant forall q | 0 <= q < p :: fallback[q] in kp
    {
      if fallback[p] !in kp {
        return kp + [fallback[p]];
      }
      p := p + 1;
    }
    r := kp;
  }

  /** One round of the padding loop: the first fallback point not yet present is appended. */
  lemma PadStep<T>(kp: seq<T>, fallback: seq<T>)
    requires |fallback| == 5 && Distinct(fallback) && |kp| < 5
    ensures exists j | 0 <= j < |fallback| :: fallback[j] !in kp
    ensures Pad(kp, fallback) == Pad(kp + [fallback[FirstMissing(fallback, kp)]], fallback)
  {
    Cover(fallback, kp);
  }

  /** The two loops that fill `important_terms`. */
  method CollectTerms(v: VideoDetails) returns (terms: seq<Term>)
    ensures terms == ImportantTerms(v)
  {
    terms := [Term(v.channelTitle, ChannelNote)];
    var words := Words(v.title);
    var w := 0;
    while w < |words|
      invariant 0 <= w <= |words|
      invariant AddTitleTerms(words[w..], terms) == AddTitleTerms(words, [Term(v.channelTitle, ChannelNote)])
    {
      var word := words[w];
      assert words[w..][1..] == words[w + 1..];
      if |word| > 5 && Lower(word) !in LowerKeys(terms) {
        terms := terms + [Term(word, TitleNote)];
        if |terms| >= 3 {
          break;
        }
      }
      w := w + 1;
    }
    var tags := v.tags[..Min(3, |v.tags|)];
    var t := 0;
    while t < |tags|
      invariant 0 <= t <= |tags|
      invariant AddTagTerms(tags[t..], terms) == ImportantTerms(v)
    {
      var tag := tags[t];
      assert tags[t..][1..] == tags[t + 1..];
      if Lower(tag) !in LowerKeys(terms) {
        terms := terms + [Term(tag, TagNote)];
        if |terms| >= 5 {
          break;
        }
      }
      t := t + 1;
    }
  }

  /** `generate_summary`. */
  method GenerateSummary(v: VideoDetails, transcript: string) returns (r: Result<SummaryResult, string>)
    ensures r == Summarize(v, transcript)
    ensures r.Err? <==> Crashes(transcript)
    ensures r.Err? <==> transcript != "" && Occurrences(transcript, '.') < 4
    ensures r.Ok? ==> |r.value.keyPoints| == 5 && 1 <= |r.value.importantTerms| <= 5
  {
    CrashesMeaning(transcript);
    var summary := SummaryText(v, transcript);
    var candidates := CollectCandidates(v, transcript);
    if candidates.Err? {
      return Err(candidates.error);
    }
    FallbackDistinct(v.channelTitle);
    var padded := PadKeyPoints(candidates.value, Fallback(v.channelTitle));
    var keyPoints := padded[..5];
    var terms := CollectTerms(v);
    ImportantTermsSize(v);
    KeyPointsShape(v, transcript);
    r := Ok(SummaryResult(summary, keyPoints, terms, Excerpt(transcript)));
  }

  /** The command-line arguments `main` reads; an absent flag is `None`. */
  datatype ScriptArgs = ScriptArgs(url: Option<string>, videoId: Option<string>, channelId: Option<string>, language: Option<string>)

  /** The JSON object printed in single-video mode. */
  datatype VideoRecord = VideoRecord(
    videoId: string, title: string, channelTitle: string, summary: string,
    keyPoints: seq<string>, importantTerms: seq<Term>, transcriptExcerpt: string)

  /** How a run ends: exit 1 with a message, the single-video record printed with exit 0, or channel mode. */
  datatype RunOutcome = Failed | Printed(record: VideoRecord) | ChannelMode

  /** Python truthiness of an optional string argument. */
  predicate Truthy(arg: Option<string>) {
    arg.Some? && arg.value != ""
  }

  /** The id single-video mode works on: `--video_id` verbatim if given, else the recogniser on `--url`. */
  function ResolveVideoId(args: ScriptArgs): (id: Option<string>)
    ensures Truthy(args.videoId) ==> id == args.videoId
    ensures !Truthy(args.videoId) && args.url.Some? ==> id == ExtractVideoId(args.url.value)
    ensures id.Some? && !Truthy(args.videoId) ==> YoutubeHelper.IsVideoId(id.value)
  {
    if Truthy(args.videoId) then args.videoId
    else if args.url.Some? then ExtractVideoId(args.url.value)
    else None
  }

  /**
   * `main` outside channel mode. `fetch` stands for `get_video_details`, which exits
   * with status 1 (None) when the video is unknown or the request fails;
   * `transcriptOf` stands for the text of `get_video_transcript`, which never raises.
   */
  method RunSingleVideo(args: ScriptArgs, fetch: string -> Option<VideoDetails>, transcriptOf: (string, string) -> string)
    returns (r: RunOutcome)
    ensures !Truthy(args.url) && !Truthy(args.videoId) && !Truthy(args.channelId) ==> r == Failed
    ensures Truthy(args.channelId) <==> r == ChannelMode
    ensures r.Printed? <==>
      !Truthy(args.channelId) && (Truthy(args.url) || Truthy(args.videoId))
      && ResolveVideoId(args).Some? && fetch(ResolveVideoId(args).value).Some?
      && !Crashes(transcriptOf(ResolveVideoId(args).value, if args.language.Some? then args.language.value else "tr"))
    ensures r.Printed? ==>
      var id := ResolveVideoId(args).value;
      var v := fetch(id).value;
      var transcript := transcriptOf(id, if args.language.Some? then args.language.value else "tr");
      var s := Summarize(v, transcript).value;
      r.record == VideoRecord(id, v.title, v.channelTitle, s.summary, s.keyPoints, s.importantTerms, s.transcript)
  {
    if !Truthy(args.url) && !Truthy(args.videoId) && !Truthy(args.channelId) {
      return Failed;
    }
    if Truthy(args.channelId) {
      return ChannelMode;
    }
    var id := ResolveVideoId(args);
    if id.None? {
      return Failed;
    }
    var language := if args.language.Some? then args.language.value else "tr";
    r := SummarizeVideo(id.value, language, fetch, transcriptOf);
  }

  /** The single-video run once the id is known: fetch the details and the transcript, summarise, print. */
  method SummarizeVideo(id: string, language: string, fetch: string -> Option<VideoDetails>, transcriptOf: (string, string) -> string)
    returns (r: RunOutcome)
    ensures r != ChannelMode
    ensures r.Printed? <==> fetch(id).Some? && !Crashes(transcriptOf(id, language))
    ensures r.Printed? ==>
      var v := fetch(id).value;
      var transcript := transcriptOf(id, language);
      var s := Summarize(v, transcript).value;
      r.record == VideoRecord(id, v.title, v.channelTitle, s.summary, s.keyPoints, s.importantTerms, s.transcript)
  {
    var details := fetch(id);
    if details.None? {
      return Failed;
    }
    var v := details.value;
    var transcript := transcriptOf(id, language);
    var summary := GenerateSummary(v, transcript);
    if summary.Err? {
      return Failed;
    }
    var s := summary.value;
    assert s == Summarize(v, transcript).value;
    r := Printed(VideoRecord(id, v.title, v.channelTitle, s.summary, s.keyPoints, s.importantTerms, s.transcript));
  }
}
