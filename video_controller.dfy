/**
 * The summary handlers over the summary store. Fetching video metadata and running the
 * summariser are oracles (`fetch`, `summarize`); the store is a map from ids to records.
 */
module VideoController {
  import opened Wrappers
  import opened Http
  import opened ObjectIds
  import Auth
  import ErrorHandler
  import YoutubeHelper
  import SummarizationService
  import VideoSummaryModel
  import Text

  type StoredSummary = VideoSummaryModel.StoredSummary

  /** The body of `POST /summary`. */
  datatype SummaryBody = SummaryBody(videoUrl: Option<string>, language: Option<string>)

  /** The `data` of a created summary. */
  datatype CreatedData = CreatedData(
    videoId: string, title: string, channelTitle: string, summary: string, keyPoints: seq<string>,
    importantTerms: SummarizationService.Terms, summaryId: Option<string>)

  datatype VideoBody =
    | Invalid(errors: seq<FieldError>)
    | Message(message: string)
    | Created(data: CreatedData)
    | Listed(count: nat, summaries: seq<StoredSummary>)
    | Found(summary: StoredSummary)
    | Failure(error: ErrorHandler.ErrorBody)

  datatype VideoReply = VideoReply(status: int, body: VideoBody)

  const InvalidUrl: string := "Geçersiz YouTube URL formatı"
  const NoVideoId: string := "Video ID bulunamadı"
  const Unauthorized: string := "Yetkilendirme hatası"
  const SummaryMissing: string := "Özet bulunamadı"
  const NotOwner: string := "Bu işlem için yetkiniz bulunmuyor"
  const DeletedMessage: string := "Özet başarıyla silindi"
  const DefaultLanguage: string := "tr"
  const SummaryValidationFailed: string := "VideoSummary validation failed"

  /** A handler's `next(error)`: the error middleware writes the reply. */
  function Forward(err: ErrorHandler.AppError, development: bool): VideoReply {
    var e := ErrorHandler.HandleError(err, development);
    VideoReply(e.status, Failure(e.body))
  }

  /** The URL as the validator regex sees it: an absent field is matched as the string "undefined". */
  function UrlText(field: Option<string>): string {
    if field.Some? then field.value else "undefined"
  }

  /** `const { language = 'tr' } = req.body`. */
  function LanguageOf(body: SummaryBody): string {
    if body.language.Some? then body.language.value else DefaultLanguage
  }

  /** What `createSummary` has gathered once both oracle calls succeeded. */
  datatype Prepared = Prepared(url: string, language: string, videoId: string,
                               details: YoutubeHelper.VideoDetails, data: SummarizationService.SummaryData)

  /**
   * `createSummary` up to the point where it looks at `req.user`: the three 400 checks in
   * order, then the metadata fetch, then the summariser called with the URL, the language
   * and the fetched title. Oracle failures carry no status code and become 500.
   */
  function Prepare(body: SummaryBody, validation: seq<FieldError>,
                   fetch: string -> YoutubeHelper.DetailsResponse,
                   summarize: (string, string, string) -> SummarizationService.Run,
                   development: bool, stack: string): (r: Result<Prepared, VideoReply>)
    ensures validation != [] ==> r == Err(VideoReply(400, Invalid(validation)))
    ensures validation == [] && !YoutubeHelper.IsValidYoutubeUrl(UrlText(body.videoUrl)) ==>
              r == Err(VideoReply(400, Message(InvalidUrl)))
    ensures (validation == [] && YoutubeHelper.IsValidYoutubeUrl(UrlText(body.videoUrl))
             && YoutubeHelper.ExtractVideoId(UrlText(body.videoUrl)).None?) ==>
              r == Err(VideoReply(400, Message(NoVideoId)))
    ensures r.Err? ==> r.error.status == 400 || r.error.status == 500
  {
    var url := UrlText(body.videoUrl);
    if validation != [] then Err(VideoReply(400, Invalid(validation)))
    else if !YoutubeHelper.IsValidYoutubeUrl(url) then Err(VideoReply(400, Message(InvalidUrl)))
    else
      match YoutubeHelper.ExtractVideoId(url)
      case None => Err(VideoReply(400, Message(NoVideoId)))
      case Some(videoId) =>
        match YoutubeHelper.GetVideoDetails(fetch(videoId))
        case Err(message) =>
          ErrorHandler.PlainErrorIsServerError(message, stack, development);
          Err(Forward(ErrorHandler.PlainError(message, stack), development))
        case Ok(details) =>
          match SummarizationService.Outcome(summarize(url, LanguageOf(body), details.title))
          case Err(message) =>
            ErrorHandler.PlainErrorIsServerError(message, stack, development);
            Err(Forward(ErrorHandler.PlainError(message, stack), development))
          case Ok(data) => Ok(Prepared(url, LanguageOf(body), videoId, details, data))
  }

  /** A request passes `Prepare` exactly when the checks pass and both oracle calls succeed, in that order and with those arguments. */
  lemma PrepareSucceeds(body: SummaryBody, validation: seq<FieldError>,
                        fetch: string -> YoutubeHelper.DetailsResponse,
                        summarize: (string, string, string) -> SummarizationService.Run,
                        development: bool, stack: string)
    ensures Prepare(body, validation, fetch, summarize, development, stack).Ok? <==>
      && validation == []
      && YoutubeHelper.IsValidYoutubeUrl(UrlText(body.videoUrl))
      && YoutubeHelper.ExtractVideoId(UrlText(body.videoUrl)).Some?
      && YoutubeHelper.GetVideoDetails(fetch(YoutubeHelper.ExtractVideoId(UrlText(body.videoUrl)).value)).Ok?
      && SummarizationService.Outcome(summarize(UrlText(body.videoUrl), LanguageOf(body),
           YoutubeHelper.GetVideoDetails(fetch(YoutubeHelper.ExtractVideoId(UrlText(body.videoUrl)).value)).value.title)).Ok?
    ensures var p := Prepare(body, validation, fetch, summarize, development, stack);
      p.Ok? ==>
      && p.value.url == UrlText(body.videoUrl) && p.value.language == LanguageOf(body)
      && Some(p.value.videoId) == YoutubeHelper.ExtractVideoId(p.value.url) && Text.Utf16Length(p.value.videoId) == 11
      && Ok(p.value.details) == YoutubeHelper.GetVideoDetails(fetch(p.value.videoId))
      && Ok(p.value.data) == SummarizationService.Outcome(summarize(p.value.url, p.value.language, p.value.details.title))
  {
  }

  /** A request that fails one of the three checks is answered the same whatever the oracles would do. */
  lemma ChecksPrecedeOracles(body: SummaryBody, validation: seq<FieldError>,
                             fetch1: string -> YoutubeHelper.DetailsResponse, summarize1: (string, string, string) -> SummarizationService.Run,
                             fetch2: string -> YoutubeHelper.DetailsResponse, summarize2: (string, string, string) -> SummarizationService.Run,
                             development: bool, stack: string)
    requires validation != [] || !YoutubeHelper.IsValidYoutubeUrl(UrlText(body.videoUrl))
             || YoutubeHelper.ExtractVideoId(UrlText(body.videoUrl)).None?
    ensures Prepare(body, validation, fetch1, summarize1, development, stack)
            == Prepare(body, validation, fetch2, summarize2, development, stack)
    ensures Prepare(body, validation, fetch1, summarize1, development, stack).error.status == 400
  {
  }

  /** The response data, copied from the fetched details and the summariser's result. */
  function DataOf(p: Prepared, summaryId: Option<string>): CreatedData {
    CreatedData(p.videoId, p.details.title, p.details.channelTitle, p.data.summary, p.data.keyPoints,
                p.data.importantTerms, summaryId)
  }

  /** The record `createSummary` builds for a signed-in caller: empty transcript, zero duration. */
  function RecordFields(user: Auth.AuthUser, p: Prepared): VideoSummaryModel.SummaryFields {
    VideoSummaryModel.SummaryFields(Some(user.id), Some(p.url), Some(p.videoId), Some(p.details.title), Some(""),
                                    Some(p.data.summary), p.data.keyPoints, Some(p.language), Some(0))
  }

  /**
   * Under the schema as written, a signed-in caller's request that got this far ends in a
   * validation error and 400, because the record's transcript is empty.
   */
  lemma SignedInCreateFailsAsWritten(user: Auth.AuthUser, p: Prepared, id: Id, now: int, development: bool, stack: string)
    ensures VideoSummaryModel.CreateAsWritten(RecordFields(user, p), id, now).Err?
    ensures Forward(ErrorHandler.AppError("ValidationError", SummaryValidationFailed, None, None,
                    Some(VideoSummaryModel.CreateAsWritten(RecordFields(user, p), id, now).error), stack), development).status == 400
  {
    VideoSummaryModel.EmptyTranscriptRejected(RecordFields(user, p), id, now);
  }

  predicate NewestFirst(s: seq<StoredSummary>) {
    forall i, j | 0 <= i < j < |s| :: s[i].createdAt >= s[j].createdAt
  }

  /** One step of the newest-first insertion sort. */
  function InsertNewest(x: StoredSummary, s: seq<StoredSummary>): (r: seq<StoredSummary>)
    ensures |r| == |s| + 1
  {
    if |s| == 0 || x.createdAt >= s[0].createdAt then [x] + s
    else [s[0]] + InsertNewest(x, s[1..])
  }

  lemma {:induction false} InsertKeepsRecords(x: StoredSummary, s: seq<StoredSummary>)
    ensures multiset(InsertNewest(x, s)) == multiset(s) + multiset{x}
    ensures forall y | y in InsertNewest(x, s) :: y == x || y in s
  {
    if |s| == 0 || x.createdAt >= s[0].createdAt {
    } else {
      InsertKeepsRecords(x, s[1..]);
      assert s == [s[0]] + s[1..];
    }
  }

  lemma {:induction false} InsertKeepsOrder(x: StoredSummary, s: seq<StoredSummary>)
    requires NewestFirst(s)
    ensures NewestFirst(InsertNewest(x, s))
  {
    if |s| == 0 || x.createdAt >= s[0].createdAt {
    } else {
      var rest := InsertNewest(x, s[1..]);
      InsertKeepsOrder(x, s[1..]);
      InsertKeepsRecords(x, s[1..]);
      forall j | 0 <= j < |rest|
        ensures rest[j].createdAt <= s[0].createdAt
      {
        assert rest[j] in rest;
      }
    }
  }

  /** `.sort({ createdAt: -1 })`. */
  function SortNewest(s: seq<StoredSummary>): (r: seq<StoredSummary>)
    ensures |r| == |s|
  {
    if |s| == 0 then [] else InsertNewest(s[0], SortNewest(s[1..]))
  }

  /** The sort puts the newest first and keeps exactly the same records. */
  lemma SortNewestSpec(s: seq<StoredSummary>)
    ensures NewestFirst(SortNewest(s))
    ensures multiset(SortNewest(s)) == multiset(s)
  {
    SortNewestOrder(s);
    SortNewestRecords(s);
  }

  lemma {:induction false} SortNewestOrder(s: seq<StoredSummary>)
    ensures NewestFirst(SortNewest(s))
  {
    if |s| > 0 {
      SortNewestOrder(s[1..]);
      InsertKeepsOrder(s[0], SortNewest(s[1..]));
    }
  }

  lemma {:induction false} SortNewestRecords(s: seq<StoredSummary>)
    ensures multiset(SortNewest(s)) == multiset(s)
  {
    if |s| > 0 {
      SortNewestRecords(s[1..]);
      InsertKeepsRecords(s[0], SortNewest(s[1..]));
      assert s == [s[0]] + s[1..];
    }
  }

  class SummaryStore {
    var summaries: map<Id, StoredSummary>
    var nextId: Id

    /** Every record sits under its own id, and every id was handed out before. */
    ghost predicate Valid()
      reads this
    {
      forall id | id in summaries :: id < nextId && summaries[id].id == id
    }

    constructor ()
      ensures summaries == map[] && nextId == 0 && Valid()
    {
      summaries := map[];
      nextId := 0;
    }

    /** `VideoSummary.find({ userId })` over the ids from `k` on, in id order. */
    function OwnedFrom(owner: string, k: Id): (r: seq<StoredSummary>)
      reads this
      requires Valid()
      ensures forall s | s in r :: s.userId == owner && s.id in summaries && summaries[s.id] == s && k <= s.id
      ensures forall id | id in summaries && k <= id && summaries[id].userId == owner :: summaries[id] in r
      ensures forall i, j | 0 <= i < j < |r| :: r[i].id < r[j].id
      decreases nextId - k
    {
      if k >= nextId then []
      else if k in summaries && summaries[k].userId == owner then [summaries[k]] + OwnedFrom(owner, k + 1)
      else OwnedFrom(owner, k + 1)
    }

    /** Sorting the caller's records neither adds nor drops one. */
    lemma ListedAreOwned(owner: string)
      requires Valid()
      ensures NewestFirst(SortNewest(OwnedFrom(owner, 0)))
      ensures multiset(SortNewest(OwnedFrom(owner, 0))) == multiset(OwnedFrom(owner, 0))
      ensures forall id | id in summaries && summaries[id].userId == owner :: summaries[id] in SortNewest(OwnedFrom(owner, 0))
      ensures forall s | s in SortNewest(OwnedFrom(owner, 0)) :: s.userId == owner && s.id in summaries && summaries[s.id] == s
    {
      var owned := OwnedFrom(owner, 0);
      var sorted := SortNewest(owned);
      SortNewestSpec(owned);
      forall s | s in sorted
        ensures s in owned
      {
        assert s in multiset(sorted);
      }
      forall id | id in summaries && summaries[id].userId == owner
        ensures summaries[id] in sorted
      {
        assert summaries[id] in multiset(owned);
      }
    }

    /**
     * `getUserSummaries`: 401 without a caller. `find({ userId })` casts the caller's id to an
     * ObjectId, so an id that does not cast is a cast error for the error middleware. Otherwise
     * the reply holds exactly the caller's records, newest first, with their count.
     */
    function GetUserSummaries(user: Option<Auth.AuthUser>, development: bool, stack: string): (r: VideoReply)
      reads this
      requires Valid()
      ensures user.None? ==> r == VideoReply(401, Message(Unauthorized))
      ensures user.Some? && ParseId(user.value.id).None? ==>
              r == Forward(CastFailure(user.value.id, "userId", "VideoSummary", stack), development) && r.status == 500
      ensures r.status == 200 <==> user.Some? && ParseId(user.value.id).Some?
      ensures r.status == 200 ==> r.body.Listed? && r.body.count == |r.body.summaries|
      ensures r.status == 200 ==> NewestFirst(r.body.summaries)
      ensures r.status == 200 ==> multiset(r.body.summaries) == multiset(OwnedFrom(user.value.id, 0))
      ensures r.status == 200 ==> forall id | id in summaries && summaries[id].userId == user.value.id :: summaries[id] in r.body.summaries
      ensures r.status == 200 ==> forall s | s in r.body.summaries :: s.userId == user.value.id && s.id in summaries && summaries[s.id] == s
    {
      if user.None? then VideoReply(401, Message(Unauthorized))
      else if ParseId(user.value.id).None? then
        Forward(CastFailure(user.value.id, "userId", "VideoSummary", stack), development)
      else
        var sorted := SortNewest(OwnedFrom(user.value.id, 0));
        ListedAreOwned(user.value.id);
        VideoReply(200, Listed(|sorted|, sorted))
    }

    /** `getSummaryById`: a cast error for a malformed id, 404 when absent, 403 for a caller who is not the owner. */
    function GetSummaryById(id: string, user: Option<Auth.AuthUser>, development: bool, stack: string): (r: VideoReply)
      reads this
      ensures ParseId(id).None? ==> r.status == 500
      ensures r.status == 404 <==> ParseId(id).Some? && ParseId(id).value !in summaries
      ensures r.status == 403 <==> ParseId(id).Some? && ParseId(id).value in summaries
                                   && user.Some? && summaries[ParseId(id).value].userId != user.value.id
      ensures r.status == 200 <==> ParseId(id).Some? && ParseId(id).value in summaries
                                   && (user.None? || summaries[ParseId(id).value].userId == user.value.id)
      ensures r.status == 200 ==> r.body == Found(summaries[ParseId(id).value])
    {
      match ParseId(id)
      case None =>
        Forward(CastFailure(id, "_id", "VideoSummary", stack), development)
      case Some(k) =>
        if k !in summaries then VideoReply(404, Message(SummaryMissing))
        else if user.Some? && summaries[k].userId != user.value.id then VideoReply(403, Message(NotOwner))
        else VideoReply(200, Found(summaries[k]))
    }

    /** `createSummary`: store a record only for a signed-in caller; `summaryId` is null otherwise. */
    method CreateSummary(body: SummaryBody, validation: seq<FieldError>, user: Option<Auth.AuthUser>,
                         fetch: string -> YoutubeHelper.DetailsResponse,
                         summarize: (string, string, string) -> SummarizationService.Run,
                         now: int, development: bool, stack: string)
      returns (reply: VideoReply)
      requires Valid()
      modifies this
      ensures Valid()
      ensures var p := Prepare(body, validation, fetch, summarize, development, stack);
        (p.Err? ==> reply == p.error)
        && (p.Ok? && user.None? ==> reply == VideoReply(200, Created(DataOf(p.value, None))))
        && (p.Ok? && user.Some? && VideoSummaryModel.Create(RecordFields(user.value, p.value), old(nextId), now).Ok? ==>
              summaries == old(summaries)[old(nextId) := VideoSummaryModel.Create(RecordFields(user.value, p.value), old(nextId), now).value]
              && nextId == old(nextId) + 1
              && reply == VideoReply(200, Created(DataOf(p.value, Some(IdText(old(nextId)))))))
        && (p.Ok? && user.Some? && VideoSummaryModel.Create(RecordFields(user.value, p.value), old(nextId), now).Err? ==>
              reply.status == 400)
      ensures !(reply.body.Created? && reply.body.data.summaryId.Some?) ==> summaries == old(summaries) && nextId == old(nextId)
      ensures user.None? ==> summaries == old(summaries)
    {
      var p := Prepare(body, validation, fetch, summarize, development, stack);
      if p.Err? {
        return p.error;
      }
      if user.None? {
        return VideoReply(200, Created(DataOf(p.value, None)));
      }
      var saved := VideoSummaryModel.Create(RecordFields(user.value, p.value), nextId, now);
      if saved.Err? {
        ErrorHandler.FirstMatchDecides(ErrorHandler.AppError("ValidationError", SummaryValidationFailed, None, None, Some(saved.error), stack), development);
        return Forward(ErrorHandler.AppError("ValidationError", SummaryValidationFailed, None, None, Some(saved.error), stack), development);
      }
      var id := nextId;
      summaries := summaries[id := saved.value];
      nextId := nextId + 1;
      reply := VideoReply(200, Created(DataOf(p.value, Some(IdText(id)))));
    }

    /** `deleteSummary`: 401, a cast error, 404, 403, then the owner's record and nothing else is removed. */
    method DeleteSummary(id: string, user: Option<Auth.AuthUser>, development: bool, stack: string)
      returns (reply: VideoReply)
      requires Valid()
      modifies this
      ensures Valid() && nextId == old(nextId)
      ensures user.None? ==> reply == VideoReply(401, Message(Unauthorized))
      ensures user.Some? && ParseId(id).None? ==> reply.status == 500
      ensures reply.status == 404 <==> user.Some? && ParseId(id).Some? && ParseId(id).value !in old(summaries)
      ensures reply.status == 403 <==> user.Some? && ParseId(id).Some? && ParseId(id).value in old(summaries)
                                       && old(summaries)[ParseId(id).value].userId != user.value.id
      ensures reply.status == 200 <==> user.Some? && ParseId(id).Some? && ParseId(id).value in old(summaries)
                                       && old(summaries)[ParseId(id).value].userId == user.value.id
      ensures reply.status == 200 ==> reply.body == Message(DeletedMessage) && summaries == old(summaries) - {ParseId(id).value}
      ensures reply.status != 200 ==> summaries == old(summaries)
    {
      if user.None? {
        return VideoReply(401, Message(Unauthorized));
      }
      var k := ParseId(id);
      if k.None? {
        return Forward(CastFailure(id, "_id", "VideoSummary", stack), development);
      }
      if k.value !in summaries {
        return VideoReply(404, Message(SummaryMissing));
      }
      if summaries[k.value].userId != user.value.id {
        return VideoReply(403, Message(NotOwner));
      }
      summaries := summaries - {k.value};
      reply := VideoReply(200, Message(DeletedMessage));
    }
  }
}
