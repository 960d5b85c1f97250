/** The bot's two handlers as state transitions over `user_sessions`, the map
    from a Telegram user id to the video that user is choosing a format for.
    yt_dlp's answers (the video information, the downloaded file's name) and
    the file system's answers (whether the file exists, its size) are inputs. */
module Bot {
  import opened Wrappers
  import opened Text
  import Decimal
  import Duration
  import YoutubeUrl
  import QualityMenu
  import Callback
  import Delivery

  /** The video information yt_dlp returns, reduced to what the bot reads. */
  datatype VideoInfo = VideoInfo(formats: seq<QualityMenu.VideoFormat>, duration: Option<int>)

  /** One user's pending choice: the link, its information, and the id of the
      message that shows the menu. */
  datatype Session = Session(url: string, info: VideoInfo, messageId: int)

  type Sessions = map<int, Session>

  /** What the link handler shows the user. */
  datatype UrlReply =
    | InvalidLink
    | AnalysisFailed
    | QualityChoice(callbacks: seq<string>, duration: string)

  datatype UrlOutcome = UrlOutcome(sessions: Sessions, reply: UrlReply)

  /** Every entry except `user`'s is the same in both maps. */
  ghost predicate OthersUnchanged(before: Sessions, after: Sessions, user: int) {
    forall u :: u != user ==> (u in after <==> u in before) && (u in before ==> after[u] == before[u])
  }

  /** `handle_url`: `text` is the message, `analysis` what `get_video_info`
      returns for the stripped link (`None` when yt_dlp failed), and
      `loadingMessageId` the id of the "analysing" message. */
  function HandleUrl(sessions: Sessions, user: int, text: string, analysis: Option<VideoInfo>,
                     loadingMessageId: int): (r: UrlOutcome)
    ensures !YoutubeUrl.IsValidYoutubeUrl(text) ==> r == UrlOutcome(sessions, InvalidLink)
    ensures YoutubeUrl.IsValidYoutubeUrl(text) && analysis.None? ==> r == UrlOutcome(sessions, AnalysisFailed)
    ensures YoutubeUrl.IsValidYoutubeUrl(text) && analysis.Some? ==>
              && user in r.sessions
              && r.sessions[user] == Session(Strip(text), analysis.value, loadingMessageId)
              && YoutubeUrl.IsValidYoutubeUrl(r.sessions[user].url)
              && r.reply.QualityChoice?
              && r.reply.callbacks == QualityMenu.MenuCallbacks(analysis.value.formats)
              && r.reply.duration == Duration.FormatDuration(analysis.value.duration)
              && r.sessions - {user} == sessions - {user}
    ensures OthersUnchanged(sessions, r.sessions, user)
  {
    var url := Strip(text);
    YoutubeUrl.ValidityIgnoresSurroundingSpace(text);
    if !YoutubeUrl.IsValidYoutubeUrl(url) then UrlOutcome(sessions, InvalidLink)
    else
      match analysis
      case None => UrlOutcome(sessions, AnalysisFailed)
      case Some(info) =>
        var updated := sessions[user := Session(url, info, loadingMessageId)];
        UrlOutcome(updated, QualityChoice(QualityMenu.MenuCallbacks(info.formats),
                                          Duration.FormatDuration(info.duration)))
  }

  /** What yt_dlp and the file system report for a download: the file name
      yt_dlp prepared (`None` when it raised), whether a file exists at the
      path the bot then checks, and that file's size. */
  datatype Download = Download(preparedName: Option<string>, fileExists: bool, size: nat)

  /** The download a button press asks yt_dlp for. */
  datatype Request = VideoRequest(url: string, quality: string) | AudioRequest(url: string)

  /** What the button handler shows the user. */
  datatype CallbackReply =
    | SessionExpired
    | Cancelled
    | InvalidOption
    | DownloadFailed
    | Delivered(decision: Delivery.Decision)

  datatype CallbackOutcome = CallbackOutcome(sessions: Sessions, reply: CallbackReply, request: Option<Request>)

  /** The path a download reports: the prepared name for a video, the same
      name with an `.mp3` extension for audio. */
  function ReportedPath(request: Request, download: Download): (p: Option<string>)
    ensures p.Some? <==> download.preparedName.Some?
    ensures request.VideoRequest? ==> p == download.preparedName
    ensures request.AudioRequest? && p.Some? ==> EndsWith(p.value, Delivery.Mp3Extension)
  {
    match request
    case VideoRequest(_, _) => download.preparedName
    case AudioRequest(_) => download.preparedName.Map(Delivery.AudioFileName)
  }

  /** After a download: send the file when a non-empty path was reported and
      the file exists, otherwise report the failure. */
  function AfterDownload(request: Request, download: Download): (reply: CallbackReply)
    ensures var p := ReportedPath(request, download);
            && (reply.Delivered? <==> p.Some? && p.value != "" && download.fileExists)
            && (reply.Delivered? ==> reply.decision == Delivery.Decide(download.size, p.value))
            && (!reply.Delivered? ==> reply == DownloadFailed)
  {
    match ReportedPath(request, download)
    case Some(path) =>
      if path != "" && download.fileExists then Delivered(Delivery.Decide(download.size, path))
      else DownloadFailed
    case None => DownloadFailed
  }

  /** `handle_callback`: `data` is the button's callback data, `download` what
      the download step reports if one is requested. Every path that found a
      session ends without it, either at the cancel branch or in `finally`,
      provided the Telegram calls outside the `try` (`query.answer()` at
      bot.py:178 and the "downloading" edit at bot.py:195-197) succeed. */
  function HandleCallback(sessions: Sessions, user: int, data: string, download: Download): (r: CallbackOutcome)
    ensures user !in sessions ==> r == CallbackOutcome(sessions, SessionExpired, None)
    ensures user in sessions ==> user !in r.sessions && r.sessions == sessions - {user}
    ensures OthersUnchanged(sessions, r.sessions, user)
    ensures user in sessions ==>
              && (r.reply == Cancelled <==> data == QualityMenu.CancelCallback)
              && (r.reply == InvalidOption <==> Callback.Dispatch(data) == Callback.Invalid)
              && (r.request.Some? <==> Callback.Dispatch(data).Video? || Callback.Dispatch(data) == Callback.Audio)
    ensures r.request.Some? ==> r.request.value.url == sessions[user].url
    ensures r.request.Some? && r.request.value.VideoRequest? ==>
              Callback.Dispatch(data) == Callback.Video(r.request.value.quality)
    ensures r.request.Some? && r.request.value.AudioRequest? ==> Callback.Dispatch(data) == Callback.Audio
    ensures r.request.Some? ==> r.reply == AfterDownload(r.request.value, download)
  {
    if user !in sessions then CallbackOutcome(sessions, SessionExpired, None)
    else
      var remaining := sessions - {user};
      var session := sessions[user];
      match Callback.Dispatch(data)
      case Cancel => CallbackOutcome(remaining, Cancelled, None)
      case Invalid => CallbackOutcome(remaining, InvalidOption, None)
      case Video(quality) =>
        var request := VideoRequest(session.url, quality);
        CallbackOutcome(remaining, AfterDownload(request, download), Some(request))
      case Audio =>
        var request := AudioRequest(session.url);
        CallbackOutcome(remaining, AfterDownload(request, download), Some(request))
  }

  /** Every stored session holds an accepted link. */
  ghost predicate SessionsHoldValidLinks(sessions: Sessions) {
    forall u :: u in sessions ==> YoutubeUrl.IsValidYoutubeUrl(sessions[u].url)
  }

  /** Both handlers keep every stored link an accepted one. */
  lemma HandlersKeepValidLinks(sessions: Sessions, user: int, text: string, analysis: Option<VideoInfo>,
                               messageId: int, data: string, download: Download)
    requires SessionsHoldValidLinks(sessions)
    ensures SessionsHoldValidLinks(HandleUrl(sessions, user, text, analysis, messageId).sessions)
    ensures SessionsHoldValidLinks(HandleCallback(sessions, user, data, download).sessions)
  {
    var afterUrl := HandleUrl(sessions, user, text, analysis, messageId).sessions;
    forall u | u in afterUrl ensures YoutubeUrl.IsValidYoutubeUrl(afterUrl[u].url) {
      if u != user {
        assert afterUrl[u] == sessions[u];
      }
    }
  }

  /** A full round: a link that is analysed, then any button press by the same
      user, leaves the map exactly as it was before the link, less that user's
      entry, provided the Telegram calls the button handler makes outside its
      `try` (bot.py:178, 195-197) succeed. */
  lemma LinkThenButtonForgetsUser(sessions: Sessions, user: int, text: string, info: VideoInfo,
                                  messageId: int, data: string, download: Download)
    requires YoutubeUrl.IsValidYoutubeUrl(text)
    ensures var afterUrl := HandleUrl(sessions, user, text, Some(info), messageId);
            var afterButton := HandleCallback(afterUrl.sessions, user, data, download);
            && afterButton.reply != SessionExpired
            && afterButton.sessions == sessions - {user}
  {
  }

  /** Pressing a video button of the menu the link produced requests that
      height from the link the session stored. */
  lemma MenuVideoButtonRequestsItsHeight(sessions: Sessions, user: int, text: string, info: VideoInfo,
                                         messageId: int, i: nat, download: Download)
    requires YoutubeUrl.IsValidYoutubeUrl(text)
    requires i < |QualityMenu.TopHeights(info.formats)|
    ensures var afterUrl := HandleUrl(sessions, user, text, Some(info), messageId);
            var data := afterUrl.reply.callbacks[i];
            HandleCallback(afterUrl.sessions, user, data, download).request ==
              Some(VideoRequest(Strip(text), Decimal.NatToString(QualityMenu.TopHeights(info.formats)[i])))
  {
    Callback.MenuButtonsDispatch(info.formats);
  }

  /** Pressing the audio button never sends a video: once the download reports
      a name and the file exists, an audio file within the ceiling is sent as
      audio, since its reported name always ends in `.mp3`. */
  lemma AudioButtonNeverSendsVideo(sessions: Sessions, user: int, data: string, download: Download)
    requires user in sessions && Callback.Dispatch(data) == Callback.Audio
    ensures HandleCallback(sessions, user, data, download).reply != Delivered(Delivery.SendVideo)
    ensures download.preparedName.Some? && download.fileExists && download.size <= Delivery.MaxUploadBytes ==>
              HandleCallback(sessions, user, data, download).reply == Delivered(Delivery.SendAudio)
  {
    if download.preparedName.Some? {
      var path := Delivery.AudioFileName(download.preparedName.value);
      assert |path| >= 4;
      if download.size <= Delivery.MaxUploadBytes {
        Delivery.AudioDownloadSentAsAudio(download.preparedName.value, download.size);
      }
    }
  }
}
