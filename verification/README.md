# telegram_youtube bot: a Dafny model of its decision logic

The bot (`bot.py`) takes a YouTube link from a Telegram chat and asks yt_dlp
for the video's information. It then offers a menu of qualities, downloads
the chosen quality or an MP3 of the audio, and sends the file back. The
network work is done by yt_dlp and the Telegram API. This model covers the
decisions the bot makes itself, as pure functions over immutable data:

- `Duration`: `format_duration`. It renders a length in seconds as `HH:MM:SS` or
  `MM:SS`, or as a fixed placeholder when the length is zero or missing.
- `YoutubeUrl`: `is_valid_youtube_url`, a substring test against four domain
  names.
- `QualityMenu`: the callback data of `create_quality_keyboard`. It keeps one
  format per video height (the largest file), sorts the heights from highest to
  lowest, offers at most six, then adds `audio_mp3` and `cancel`.
- `Callback`: how `handle_callback` reads callback data (`cancel`,
  `video_<q>`, `audio_…`, or an invalid option).
- `Bot`: `handle_url` and `handle_callback` as transitions over the
  `user_sessions` map, keyed by Telegram user id.
- `Delivery`: the size and extension decision of `send_file`, and the
  `.mp3` name `download_audio` reports (`os.path.splitext` on POSIX paths).
- `Text` and `Decimal`: the Python string operations these rely on.
  `Text` covers `in`, `startswith`, `endswith`, `split` and `strip`.
  `Decimal` covers `str(n)` and `f"{n:02d}"`.

Python's `None` results and raised exceptions are modelled with `Option` and
`Result` (`Wrappers`). What yt_dlp and the file system report becomes a
parameter of the handler that uses it. That covers the video information,
the prepared file name, whether the file exists, and its size.

Some definitions are not in the source but are added so the model's
properties can be stated. `ParseClock` and `ParseNat` are readers that invert
the rendering. `ListedHeights` is the set of heights the menu draws from.
`IsLargestFirst` says which format wins for a height.

## Model

| member | source | states |
|---|---|---|
| Duration.Decompose | bot.py:315-317 | hours·3600 + minutes·60 + seconds equals the input; minutes and seconds are below 60; hours is positive exactly when the input is at least 3600 |
| Duration.FormatDuration | bot.py:310-313 | the placeholder is returned exactly when the duration is `None` or 0 |
| Duration.UnspecifiedHasNoDigits | bot.py:312-313 | the placeholder holds no digit and does not read as a time |
| Duration.FormatDurationFields | bot.py:315-322 | a known duration renders as three colon-separated fields when it is at least an hour, two otherwise; each field is at least two digits; the last two are the minutes and seconds, both below 60 |
| Duration.ParseFormatDuration | bot.py:310-322 | round trip: reading back the rendering of any positive duration gives that duration |
| Duration.ParseFormatNegativeDuration | bot.py:315-322 | a negative duration renders as `MM:SS` of its remainder modulo 3600, because floor division makes the hours negative |
| Decimal.NatToString | bot.py:164 | `str(h)` is all digits, has no leading zero, and denotes `h` |
| Decimal.Pad2 | bot.py:320-322 | `f"{n:02d}"` has at least two digits, exactly two when n < 100, and denotes `n` |
| YoutubeUrl.ValidIffCoreDomain | bot.py:123-126 | a link is accepted exactly when it contains `youtube.com` or `youtu.be`; the two longer domains add nothing |
| YoutubeUrl.ShortLinkAccepted | bot.py:125-126 | `https://youtu.be/dQw4w9WgXcQ` is accepted |
| YoutubeUrl.OtherSiteRefused | bot.py:125-126 | a vimeo.com link is refused |
| YoutubeUrl.ValidityIgnoresSurroundingSpace | bot.py:59-63 | checking the stripped text gives the same verdict as checking the raw message |
| Text.SplitJoin | bot.py:201 | round trip: the pieces of `split` hold no separator, and joining them with it gives back the input |
| Text.SplitFirstPiece | bot.py:201 | the first piece of `split` is a separator-free prefix of the input, followed by the separator or the end |
| Text.SplitWithoutSeparator | bot.py:201 | a string without the separator splits into itself alone |
| Text.SplitAtSeparator | bot.py:201 | splitting `a + "_" + b` is splitting `a`, then `b` |
| Text.Strip | bot.py:59 | the result has no surrounding whitespace and sits in the input with only whitespace around it |
| QualityMenu.KeepLargest | bot.py:151-156 | the grouped heights are exactly the heights of formats with a video codec other than `none` and a non-zero height; each height is recorded once, and every kept format has its key's height |
| QualityMenu.KeepLargestKeepsLargest | bot.py:155-156 | the format kept for a height is a listed format of that height; no listed format of that height is larger; every earlier one is strictly smaller, so the first wins a tie |
| QualityMenu.GreaterAsWritten | bot.py:155 | Python's `>` on two sizes raises exactly when either size is `None` |
| QualityMenu.AsWrittenAgreesWithoutNullSize | bot.py:151-156 | with no `None` size, the loop as written returns the same table as the corrected loop |
| QualityMenu.AsWrittenRaisesIffNullCompared | bot.py:151-156 | the loop as written raises exactly when two listed formats of one height meet and one of them has a `None` size; when it does not raise, every kept format is a listed format of its height and the keys are exactly the listed heights |
| QualityMenu.AsWrittenRaisesOnNullSize | bot.py:155 | two 720p formats, the second with a `None` size, make the loop as written raise `TypeError` |
| QualityMenu.SortDescending | bot.py:159 | `sorted(..., reverse=True)` is non-increasing, is a permutation of its input, and keeps distinct values distinct |
| QualityMenu.TopHeightsAreLargest | bot.py:159-162 | the offered heights are the min(6, number of distinct heights) highest listed heights, strictly decreasing; a height left out means six are offered, all above it |
| QualityMenu.MenuCallbacks | bot.py:162-171 | the menu is one `video_<h>` entry per offered height in order, then `audio_mp3`, then `cancel`; its length is the offered count plus 2 |
| Callback.Dispatch | bot.py:187-207 | `cancel` is cancel; other data starting `video_` is a video choice; data starting `audio_` but not `video_` is audio; anything else is invalid; the video quality is the text after `video_` up to the next `_` or the end |
| Callback.DispatchVideoCallback | bot.py:200-201 | a `video_<h>` entry dispatches to a video choice whose quality reads back as `h` |
| Callback.MenuButtonsDispatch | bot.py:162-207 | every menu entry dispatches to a valid choice: video entries to their heights in menu order, then audio, then cancel |
| Delivery.SplitExt | bot.py:266 | `os.path.splitext` on POSIX: stem + extension is the path; the extension is empty or a dot followed by no dot or `/`; it is non-empty exactly when the last path component has a dot after a non-dot character |
| Delivery.AudioFileName | bot.py:266 | the reported audio name ends in `.mp3`, and the name without that extension is a prefix of yt_dlp's file name |
| Delivery.AudioFileNameSplits | bot.py:266 | a file name with an extension keeps its stem: the renamed file splits into the same stem and `.mp3` |
| Delivery.Decide | bot.py:277-302 | a file over 52 428 800 bytes (50 MiB) is refused, and exactly 50 MiB is accepted; an accepted `.mp3` path is sent as audio and every other path as video |
| Bot.HandleUrl | bot.py:57-94 | an invalid link or a failed analysis leaves the sessions unchanged; a successful analysis stores the stripped link, its information and the message id for the user, and shows the menu built from that information with the duration as `format_duration` renders it; other users' entries are untouched |
| Bot.HandleCallback | bot.py:175-225 | a user without a session changes nothing and is told the session expired; a user with one ends without it on every branch, the map becoming the old map less that user; `cancel` cancels; invalid data is reported; video and audio choices request a download of the stored link, and their reply is what the download step decides (`AfterDownload`) |
| Bot.ReportedPath | bot.py:202-205 | the path a download reports exists exactly when yt_dlp prepared a name; a video download reports that name unchanged, and an audio download reports a name ending in `.mp3` |
| Bot.AfterDownload | bot.py:209-216 | a download is delivered exactly when a non-empty path was reported and the file exists, and then as `Delivery.Decide` rules for its size and path; every other outcome is the download failure |
| Bot.HandlersKeepValidLinks | bot.py:63-91 | both handlers keep every stored link an accepted one |
| Bot.LinkThenButtonForgetsUser | bot.py:183-225 | after an analysed link and any button press by the same user, the map is the original map without that user (with `query.answer()` at bot.py:178 and the message edit at bot.py:195-197 assumed to succeed) |
| Bot.MenuVideoButtonRequestsItsHeight | bot.py:200-202 | pressing the i-th video button of the menu requests the i-th offered height of the stored link |
| Bot.AudioButtonNeverSendsVideo | bot.py:203-204 | the audio button never sends a video; an existing audio file within the limit is sent as audio |

## Left out

- yt_dlp calls (bot.py:128-141, 227-270): information extraction, downloading,
  the FFmpeg conversion to MP3, and the `best[height<=q]/best` format
  selector. They are foreign library behaviour. Their results are inputs
  (`Bot.VideoInfo`, `Bot.Download`).
- Telegram API calls and message texts (bot.py:33-55, 64-121, 178-220,
  278-308): replies, message edits, and the Arabic wording. Each reply is
  modelled as a variant of `UrlReply` or `CallbackReply`. The placeholder
  `Duration.Unspecified` is kept as an opaque constant.
- The title truncation `[:50]`, the uploader and the info text (bot.py:96-108).
  They are only display text.
- The file system (bot.py:27, 209-214, 274, 289, 297): directory creation,
  existence and size checks, file removal and opening. Existence and size
  are inputs. Removal after sending has no effect on the model's state.
- Failures inside the `try` blocks other than the ones modelled (bot.py:116-121,
  218-220, 306-308), such as a failed upload or a failed `os.remove`. They only
  change the message shown. `HandleCallback` still removes the session on
  those paths, as the `finally` does.
- Concurrency (`asyncio`, bot.py:137, 239, 263). The handlers are modelled as
  atomic transitions. The application is built with the library's defaults
  (bot.py:332-337), which handle one update at a time, so this matches the
  default configuration. With concurrent update processing enabled, a new link
  from the same user during a download could be stored and then deleted by the
  pending `finally` at bot.py:222-225. The model does not capture that
  interleaving.
- Start-up, environment and logging (bot.py:12-27, 324-346).
- Bot.HandleCallback: the model assumes that the two Telegram calls the
  handler makes outside its `try` succeed. The first is `query.answer()` at
  bot.py:178, before the session check. The second is the "downloading"
  message edit at bot.py:195-197, after the cancel branch. If either raises
  (for example, a button press answered too late is rejected as too old),
  the exception leaves the handler, the `finally` never runs, and the source
  keeps the user's session. The model always removes it on those paths.
- Bot.HandleUrl: an analysis result that is an empty dict is falsy in Python.
  It would be reported as a failed analysis. `VideoInfo` cannot be empty, so
  that case is not represented.
- Duration.FormatDuration: yt_dlp may report the duration as a float, and
  `f"{x:02d}"` then raises `ValueError`. Only integer durations are modelled.
- Text.Strip: the whitespace set is Python's `str.isspace()` list. It is
  written out rather than derived from the Unicode database.
- QualityMenu.KeepLargest: the format's `ext` is read but never used
  (bot.py:154), so it is not part of `VideoFormat`.
- QualityMenu.MenuCallbacks: the button labels (`📹 720p`, the audio and cancel
  labels) are display text. Only the callback data is modelled.

## Findings

| source | as written | input that shows it | evidently intended | confidence | as-written member | corrected member |
|---|---|---|---|---|---|---|
| bot.py:155 | `fmt.get('filesize', 0) > video_formats[height].get('filesize', 0)` compares sizes that yt_dlp may report as `None` (for streams whose size is unknown); `None > 1000` raises `TypeError`, which aborts the menu after the session was already stored (bot.py:87-94) and shows the generic error | two formats of height 720, the first with filesize 1000 and the second with filesize `None` | a `None` size is read as 0, like a missing one (the `, 0` default shows the intent), so the first 720p format is kept | medium, not executed | QualityMenu.AsWrittenRaisesOnNullSize | QualityMenu.KeepLargestKeepsLargest |

The model's menu (`QualityMenu.MenuCallbacks`) is built with the corrected
grouping `QualityMenu.KeepLargest`, where `SizeOf` reads `None` as 0.
`QualityMenu.KeepLargestAsWritten` keeps the code as written, and
`QualityMenu.AsWrittenRaisesIffNullCompared` says exactly which inputs make it
raise.
`QualityMenu.AsWrittenAgreesWithoutNullSize` shows the two agree whenever no
size is `None`.
