/**
 * The VideoSummary schema: the stored record, its required paths, the `trim` setters on
 * the URL and the id, and the defaults of language, duration and creation time.
 */
module VideoSummaryModel {
  import opened Wrappers
  import opened Text
  import opened Http
  import opened ObjectIds

  /** The fields given to `new VideoSummary(...)`; absent ones are None. */
  datatype SummaryFields = SummaryFields(
    userId: Option<string>, videoUrl: Option<string>, videoId: Option<string>, title: Option<string>,
    transcript: Option<string>, summary: Option<string>, keyPoints: seq<string>,
    language: Option<string>, duration: Option<int>)

  /** A stored summary. It has no channel title, no term list and no favourite flag. */
  datatype StoredSummary = StoredSummary(
    id: Id, userId: string, videoUrl: string, videoId: string, title: string, transcript: string,
    summary: string, keyPoints: seq<string>, language: string, duration: int, createdAt: int)

  const UserIdRequired: string := "Path `userId` is required."
  const VideoUrlRequired: string := "Video URL zorunludur"
  const VideoIdRequired: string := "Video ID zorunludur"
  const TitleRequired: string := "Video başlığı zorunludur"
  const TranscriptRequired: string := "Transkript zorunludur"
  const SummaryRequired: string := "Özet zorunludur"
  const DefaultLanguage: string := "tr"
  const DefaultDuration: int := 0

  /** `required` on a string path: given and not empty. */
  predicate Present(f: Option<string>) {
    f.Some? && f.value != ""
  }

  /** The `trim` setter; it leaves an absent value absent. */
  function Trimmed(f: Option<string>): Option<string> {
    if f.Some? then Some(JsTrim(f.value)) else None
  }

  function Required(path: string, f: Option<string>, message: string): seq<FieldError> {
    if Present(f) then [] else [FieldError(path, message)]
  }

  /** The required paths as the schema declares them, in schema order, after the setters. */
  function SchemaErrors(f: SummaryFields): (errs: seq<FieldError>)
    ensures errs == [] <==> Present(f.userId) && Present(Trimmed(f.videoUrl)) && Present(Trimmed(f.videoId))
                            && Present(f.title) && Present(f.transcript) && Present(f.summary)
    ensures !Present(f.transcript) ==> FieldError("transcript", TranscriptRequired) in errs
  {
    Required("userId", f.userId, UserIdRequired)
    + Required("videoUrl", Trimmed(f.videoUrl), VideoUrlRequired)
    + Required("videoId", Trimmed(f.videoId), VideoIdRequired)
    + Required("title", f.title, TitleRequired)
    + Required("transcript", f.transcript, TranscriptRequired)
    + Required("summary", f.summary, SummaryRequired)
  }

  /** The schema with an empty transcript allowed, which is what the controller's record needs. */
  function IntendedErrors(f: SummaryFields): (errs: seq<FieldError>)
    ensures errs == [] <==> Present(f.userId) && Present(Trimmed(f.videoUrl)) && Present(Trimmed(f.videoId))
                            && Present(f.title) && Present(f.summary)
    ensures forall e | e in errs :: e in SchemaErrors(f)
  {
    Required("userId", f.userId, UserIdRequired)
    + Required("videoUrl", Trimmed(f.videoUrl), VideoUrlRequired)
    + Required("videoId", Trimmed(f.videoId), VideoIdRequired)
    + Required("title", f.title, TitleRequired)
    + Required("summary", f.summary, SummaryRequired)
  }

  function OrEmpty(f: Option<string>): string {
    if f.Some? then f.value else ""
  }

  /** `save()` after the given validators: the record with setters and defaults applied, or the errors. */
  function Build(f: SummaryFields, id: Id, now: int, errs: seq<FieldError>): (r: Result<StoredSummary, seq<FieldError>>)
    ensures r.Err? <==> errs != []
    ensures r.Err? ==> r.error == errs
    ensures r.Ok? ==>
      && r.value.id == id && r.value.createdAt == now
      && r.value.userId == OrEmpty(f.userId) && r.value.videoUrl == JsTrim(OrEmpty(f.videoUrl))
      && r.value.videoId == JsTrim(OrEmpty(f.videoId))
      && r.value.title == OrEmpty(f.title) && r.value.transcript == OrEmpty(f.transcript)
      && r.value.summary == OrEmpty(f.summary) && r.value.keyPoints == f.keyPoints
      && r.value.language == (if f.language.Some? then f.language.value else DefaultLanguage)
      && r.value.duration == (if f.duration.Some? then f.duration.value else DefaultDuration)
  {
    if errs != [] then Err(errs)
    else
      Ok(StoredSummary(id, OrEmpty(f.userId), OrEmpty(Trimmed(f.videoUrl)), OrEmpty(Trimmed(f.videoId)),
                       OrEmpty(f.title), OrEmpty(f.transcript), OrEmpty(f.summary), f.keyPoints,
                       if f.language.Some? then f.language.value else DefaultLanguage,
                       if f.duration.Some? then f.duration.value else DefaultDuration, now))
  }

  /** Saving under the schema as written. */
  function CreateAsWritten(f: SummaryFields, id: Id, now: int): Result<StoredSummary, seq<FieldError>> {
    Build(f, id, now, SchemaErrors(f))
  }

  /** Saving under the corrected schema, the one the controller model uses. */
  function Create(f: SummaryFields, id: Id, now: int): Result<StoredSummary, seq<FieldError>> {
    Build(f, id, now, IntendedErrors(f))
  }

  /** As written, a record with an empty transcript never saves: `required` refuses the empty string. */
  lemma EmptyTranscriptRejected(f: SummaryFields, id: Id, now: int)
    requires f.transcript == Some("")
    ensures CreateAsWritten(f, id, now).Err?
    ensures FieldError("transcript", TranscriptRequired) in CreateAsWritten(f, id, now).error
  {
  }

  /** Corrected, the same record saves once its other required paths are filled, keeping the empty transcript. */
  lemma EmptyTranscriptAccepted(f: SummaryFields, id: Id, now: int)
    requires f.transcript == Some("")
    requires Present(f.userId) && Present(Trimmed(f.videoUrl)) && Present(Trimmed(f.videoId)) && Present(f.title) && Present(f.summary)
    ensures Create(f, id, now).Ok? && Create(f, id, now).value.transcript == ""
  {
  }

  /** Whatever the corrected schema refuses, the written one refuses too. */
  lemma CorrectionOnlyAccepts(f: SummaryFields, id: Id, now: int)
    ensures CreateAsWritten(f, id, now).Ok? ==> Create(f, id, now) == CreateAsWritten(f, id, now)
  {
  }
}
