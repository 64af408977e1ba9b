/**
 * The video router: the body validators of `POST /summary`, and the order of registration
 * that leaves `/summary` in front of `router.use(authenticate)` and the other three behind it.
 */
module VideoRoutes {
  import opened Wrappers
  import opened Http
  import opened ObjectIds
  import Text
  import Auth
  import YoutubeHelper
  import SummarizationService
  import AuthRoutes
  import VideoController

  const UrlStringMessage: string := "Video URL geçerli bir string olmalıdır"
  const UrlEmptyMessage: string := "Video URL boş olamaz"
  const LanguageMessage: string := "Geçerli bir dil kodu giriniz"
  const MinLanguageLength: nat := 2
  const MaxLanguageLength: nat := 5

  /** `router.post('/summary')`, then `router.use(authenticate)`, then the three other routes. */
  const Routes: seq<Route> := [
    Route("POST", "/summary", false), Route("GET", "/my-summaries", true),
    Route("GET", "/summary/:id", true), Route("DELETE", "/summary/:id", true)]

  /**
   * The `/summary` chain. An absent URL fails both `isString` and `notEmpty`; `language`
   * is skipped when absent and otherwise must have 2 to 5 code points, not counting the variation
   * selectors U+FE0E and U+FE0F.
   */
  function SummaryErrors(body: VideoController.SummaryBody): (errs: seq<FieldError>)
    ensures errs == [] <==>
      && body.videoUrl.Some? && body.videoUrl.value != ""
      && (body.language.None? || MinLanguageLength <= Text.ValidatorLength(body.language.value) <= MaxLanguageLength)
    ensures forall e | e in errs :: e.path == "videoUrl" || e == FieldError("language", LanguageMessage)
    ensures body.videoUrl.None? ==> |errs| >= 2 && errs[..2] == [FieldError("videoUrl", UrlStringMessage), FieldError("videoUrl", UrlEmptyMessage)]
  {
    (if body.videoUrl.None? then [FieldError("videoUrl", UrlStringMessage)] else [])
    + (if AuthRoutes.Value(body.videoUrl) == "" then [FieldError("videoUrl", UrlEmptyMessage)] else [])
    + (if body.language.Some? && !(MinLanguageLength <= Text.ValidatorLength(body.language.value) <= MaxLanguageLength)
       then [FieldError("language", LanguageMessage)] else [])
  }

  /** A variation selector at the end of `language` changes nothing: `isLength` does not count it. */
  lemma LanguageSelectorIgnored(url: Option<string>, language: string, c: char)
    requires Text.IsVariationSelector(c)
    ensures SummaryErrors(VideoController.SummaryBody(url, Some(language + [c])))
         == SummaryErrors(VideoController.SummaryBody(url, Some(language)))
  {
    Text.ValidatorLengthSelector(language, c);
  }

  /** Only `POST /summary` is reachable without a token. */
  lemma OnlyCreateIsOpen()
    ensures forall r | r in Routes :: !r.authenticated <==> r.verb == "POST" && r.path == "/summary"
    ensures Lookup(Routes, "POST", "/summary") == [Route("POST", "/summary", false)]
  {
  }

  /** A request that passes the validators reaches the URL checks with its own URL, never "undefined". */
  lemma ValidatedUrlIsGiven(body: VideoController.SummaryBody)
    requires SummaryErrors(body) == []
    ensures VideoController.UrlText(body.videoUrl) == body.videoUrl.value
  {
  }

  /**
   * `POST /summary`: the validators, then `createSummary` with no `req.user`, since
   * `authenticate` has not run. Nothing is stored and `summaryId` is always null.
   */
  method PostSummary(store: VideoController.SummaryStore, body: VideoController.SummaryBody,
                     fetch: string -> YoutubeHelper.DetailsResponse,
                     summarize: (string, string, string) -> SummarizationService.Run,
                     now: int, development: bool, stack: string)
    returns (reply: VideoController.VideoReply)
    requires store.Valid()
    modifies store
    ensures store.Valid()
    ensures store.summaries == old(store.summaries) && store.nextId == old(store.nextId)
    ensures var p := VideoController.Prepare(body, SummaryErrors(body), fetch, summarize, development, stack);
      (p.Err? ==> reply == p.error)
      && (p.Ok? ==> reply == VideoController.VideoReply(200, VideoController.Created(VideoController.DataOf(p.value, None))))
    ensures reply.body.Created? ==> reply.body.data.summaryId.None?
    ensures SummaryErrors(body) != [] ==> reply == VideoController.VideoReply(400, VideoController.Invalid(SummaryErrors(body)))
  {
    reply := store.CreateSummary(body, SummaryErrors(body), None, fetch, summarize, now, development, stack);
  }

  /** The middleware's refusal, as the route answers it. */
  function Refused(refusal: Auth.Reply): VideoController.VideoReply {
    VideoController.VideoReply(refusal.status, VideoController.Message(refusal.message))
  }

  /**
   * `GET /my-summaries`: `authenticate`, then `getUserSummaries`. The handler's own 401
   * cannot be reached; a caller whose verified id casts gets exactly their records, and a
   * verified id that does not cast is a 500.
   */
  function MySummariesRoute(store: VideoController.SummaryStore, header: Option<string>,
                            verify: string -> Option<Auth.Claims>, development: bool, stack: string): (r: VideoController.VideoReply)
    reads store
    requires store.Valid()
    ensures r.status == 401 <==> Auth.BearerToken(header).None?
    ensures r.status == 401 ==> r.body == VideoController.Message(Auth.MissingTokenMessage)
    ensures r.status == 200 <==> Auth.Decide(header, verify).Pass? && ParseId(Auth.Decide(header, verify).user.id).Some?
    ensures r.status == 500 <==> Auth.Decide(header, verify).Pass? && ParseId(Auth.Decide(header, verify).user.id).None?
    ensures r.status == 200 ==>
      var owner := Auth.Decide(header, verify).user.id;
      && r.body.Listed? && VideoController.NewestFirst(r.body.summaries)
      && (forall s | s in r.body.summaries :: s.userId == owner && s.id in store.summaries)
      && (forall id | id in store.summaries && store.summaries[id].userId == owner :: store.summaries[id] in r.body.summaries)
  {
    match Auth.Decide(header, verify)
    case Deny(refusal) => Refused(refusal)
    case Pass(user) => store.GetUserSummaries(Some(user), development, stack)
  }

  /**
   * `GET /summary/:id`: `authenticate`, then `getSummaryById`. Behind the middleware there
   * is always a caller, so the handler's anonymous branch is unreachable: a record is
   * returned only to its owner.
   */
  function GetSummaryRoute(store: VideoController.SummaryStore, id: string, header: Option<string>,
                           verify: string -> Option<Auth.Claims>, development: bool, stack: string): (r: VideoController.VideoReply)
    reads store
    ensures r.status == 401 ==> r.body == VideoController.Message(Auth.MissingTokenMessage)
    ensures r.status == 200 <==>
      (Auth.Decide(header, verify).Pass? && ParseId(id).Some? && ParseId(id).value in store.summaries
       && store.summaries[ParseId(id).value].userId == Auth.Decide(header, verify).user.id)
    ensures r.status == 200 ==> r.body == VideoController.Found(store.summaries[ParseId(id).value])
  {
    match Auth.Decide(header, verify)
    case Deny(refusal) => Refused(refusal)
    case Pass(user) => store.GetSummaryById(id, Some(user), development, stack)
  }

  /**
   * `DELETE /summary/:id`: `authenticate`, then `deleteSummary`. Only the owner of an
   * existing record removes it, and nothing else changes.
   */
  method DeleteRoute(store: VideoController.SummaryStore, id: string, header: Option<string>,
                     verify: string -> Option<Auth.Claims>, development: bool, stack: string)
    returns (reply: VideoController.VideoReply)
    requires store.Valid()
    modifies store
    ensures store.Valid() && store.nextId == old(store.nextId)
    ensures reply.status == 401 <==> Auth.BearerToken(header).None?
    ensures reply.status == 401 ==> reply.body == VideoController.Message(Auth.MissingTokenMessage)
    ensures reply.status == 200 <==>
      (Auth.Decide(header, verify).Pass? && ParseId(id).Some? && ParseId(id).value in old(store.summaries)
       && old(store.summaries)[ParseId(id).value].userId == Auth.Decide(header, verify).user.id)
    ensures reply.status == 200 ==> store.summaries == old(store.summaries) - {ParseId(id).value}
    ensures reply.status != 200 ==> store.summaries == old(store.summaries)
  {
    var decision := Auth.Decide(header, verify);
    if decision.Deny? {
      return Refused(decision.reply);
    }
    reply := store.DeleteSummary(id, Some(decision.user), development, stack);
  }
}
