/**
 * `server/src/python/get_transcript.py`, the script that reshapes the transcript API's
 * list, and how `getYoutubeTranscript` in `server/src/utils/youtubeHelper.ts` reads the
 * script's exit code and output.
 */
module GetTranscript {
  import opened Wrappers
  import opened Text

  /** An entry of the list `YouTubeTranscriptApi.get_transcript` returns. */
  datatype ApiEntry = ApiEntry(text: string, start: real, duration: real)

  /** A segment of the script's output: `start` is renamed `offset`. */
  datatype OutSegment = OutSegment(text: string, duration: real, offset: real)

  /** The dictionary `get_transcript` returns; `error` is present only on failure. */
  datatype TranscriptResult = TranscriptResult(error: Option<string>, fullTranscript: string, segments: seq<OutSegment>)

  const NotFoundMessage := "Belirtilen dilde transkript bulunamadı"

  function Texts(entries: seq<ApiEntry>): (r: seq<string>)
    ensures |r| == |entries| && forall i | 0 <= i < |entries| :: r[i] == entries[i].text
  {
    seq(|entries|, i requires 0 <= i < |entries| => entries[i].text)
  }

  function Reshape(entries: seq<ApiEntry>): (r: seq<OutSegment>)
    ensures |r| == |entries|
    ensures forall i | 0 <= i < |entries| ::
      r[i].text == entries[i].text && r[i].duration == entries[i].duration && r[i].offset == entries[i].start
  {
    seq(|entries|, i requires 0 <= i < |entries| => OutSegment(entries[i].text, entries[i].duration, entries[i].start))
  }

  /**
   * `get_transcript`, given what the API call produced: the list, or the message of the
   * exception it raised. It never raises itself.
   */
  function GetTranscript(api: Result<seq<ApiEntry>, string>): (r: TranscriptResult)
    ensures r.error.None? <==> api.Ok? && api.value != []
    ensures r.error.Some? ==> r.fullTranscript == "" && r.segments == []
    ensures api.Ok? && api.value == [] ==> r.error == Some(NotFoundMessage)
    ensures api.Err? ==> r.error == Some(api.error)
  {
    if api.Err? then TranscriptResult(Some(api.error), "", [])
    else if api.value == [] then TranscriptResult(Some(NotFoundMessage), "", [])
    else TranscriptResult(None, Join(" ", Texts(api.value)), Reshape(api.value))
  }

  /** On success the segments are the entries in order, with text and duration kept and `start` as `offset`. */
  lemma SegmentsFollowEntries(entries: seq<ApiEntry>)
    requires entries != []
    ensures var r := GetTranscript(Ok(entries));
      |r.segments| == |entries|
      && forall i | 0 <= i < |entries| ::
           r.segments[i] == OutSegment(entries[i].text, entries[i].duration, entries[i].start)
  {
  }

  /**
   * On success the full transcript is the entry texts joined by single spaces, whatever
   * they hold: each text sits at its offset, a space follows each one but the last, and
   * the full text is exactly that long.
   */
  lemma FullTranscriptLayout(entries: seq<ApiEntry>)
    requires entries != []
    ensures var full := GetTranscript(Ok(entries)).fullTranscript;
      var texts := Texts(entries);
      |texts| == |entries| && (forall i | 0 <= i < |entries| :: texts[i] == entries[i].text)
      && |full| + 1 == JoinOffset(texts, |texts|)
      && forall i | 0 <= i < |texts| :: PartAt(' ', full, texts, i)
  {
    JoinLayout(' ', Texts(entries));
  }

  /**
   * When no
   * text holds a space, splitting the full transcript on ' ' gives them back one by one.
   */
  lemma FullTranscriptSplits(entries: seq<ApiEntry>)
    requires entries != [] && forall i | 0 <= i < |entries| :: ' ' !in entries[i].text
    ensures Split(GetTranscript(Ok(entries)).fullTranscript, ' ') == Texts(entries)
  {
    SplitJoin(Texts(entries), ' ');
  }

  /** How the script ends: the usage message with exit code 1, or one JSON document with exit code 0. */
  datatype ScriptRun = Usage | Printed(result: TranscriptResult)

  function ExitCode(run: ScriptRun): int {
    if run.Usage? then 1 else 0
  }

  /**
   * The script's `__main__` block. `argv[0]` is the script path; `api` stands for the
   * transcript API call on a video id and a language.
   */
  function RunScript(argv: seq<string>, api: (string, string) -> Result<seq<ApiEntry>, string>): (r: ScriptRun)
    ensures |argv| < 2 <==> r == Usage
    ensures |argv| == 2 ==> r == Printed(GetTranscript(api(argv[1], "tr")))
    ensures |argv| > 2 ==> r == Printed(GetTranscript(api(argv[1], argv[2])))
  {
    if |argv| < 2 then Usage
    else
      var language := if |argv| > 2 then argv[2] else "tr";
      Printed(GetTranscript(api(argv[1], language)))
  }

  /** What `getYoutubeTranscript` resolves with. */
  datatype Transcript = Transcript(text: string, segments: seq<OutSegment>)

  const ScriptFailedPrefix := "Python transcript script failed: "
  const ParseFailedPrefix := "Failed to parse transcript output: "

  /**
   * The `close` handler of `getYoutubeTranscript`: a non-zero exit code rejects with the
   * collected stderr; otherwise stdout is parsed, `None` standing for output that is not
   * JSON, and the parser's message for why.
   */
  function ResolveTranscript(code: int, stderr: string, parsed: Option<TranscriptResult>, parseError: string): (r: Result<Transcript, string>)
    ensures code != 0 ==> r == Err(ScriptFailedPrefix + stderr)
    ensures code == 0 && parsed.None? ==> r == Err(ParseFailedPrefix + parseError)
    ensures r.Ok? <==> code == 0 && parsed.Some?
    ensures r.Ok? ==> r.value == Transcript(parsed.value.fullTranscript, parsed.value.segments)
  {
    if code != 0 then Err(ScriptFailedPrefix + stderr)
    else if parsed.None? then Err(ParseFailedPrefix + parseError)
    else Ok(Transcript(parsed.value.fullTranscript, parsed.value.segments))
  }

  /**
   * The server always passes a video id and a language. Whatever the API does, the
   * script then exits 0 with its result, so the server resolves: with the joined text,
   * or with the empty text when the API failed or found nothing.
   */
  lemma FailuresReachTheServerAsEmptyText(videoId: string, language: string, scriptPath: string,
                                          api: (string, string) -> Result<seq<ApiEntry>, string>, stderr: string, parseError: string)
    ensures var run := RunScript([scriptPath, videoId, language], api);
      run.Printed? && ExitCode(run) == 0
      && var r := ResolveTranscript(ExitCode(run), stderr, Some(run.result), parseError);
         r.Ok?
         && (api(videoId, language).Err? || api(videoId, language).value == [] ==> r.value == Transcript("", []))
         && (api(videoId, language).Ok? && api(videoId, language).value != [] ==>
               r.value.text == Join(" ", Texts(api(videoId, language).value)))
  {
  }
}
