# Sir David: a model of the websocket narration server

The server accepts a websocket connection and greets the client. It then
reads text frames one at a time. A frame that starts with
`data:image/png;base64,` and whose payload decodes to bytes the raster
library opens is handled in the steps below. The library accepts any image
format it identifies, so those bytes need not be a PNG.

- the image is stored locally and uploaded to object storage;
- the client is told the photo was received;
- a vision model narrates it;
- if the narration is a refusal (it contains "sorry" in any case), the
  client gets a failure notice and the request stops;
- otherwise the client is told the audio is being generated;
- the narration is uploaded as a `.txt`;
- its bracketed stage directions are stripped and `"-- --"` is put in
  front, and the result is synthesised to speech;
- the `.mp3` is uploaded;
- the client receives the public URL of the audio and the narration itself.

A frame with a wrong prefix, no comma, bad base 64 or no raster library
installed is dropped silently. The one exception is that the exact texts
`PING` and `ping` are answered with `PONG`. A frame whose payload decodes
but whose bytes the raster library cannot identify raises `OSError`. The
handler does not catch `OSError`, so it ends, and with it the connection.

The model is split into these modules:

| file | module | what it holds |
|---|---|---|
| `wrappers.dfy` | `Wrappers` | `Option` and `Result`, standing for Python's exceptions |
| `strings.dfy` | `Strings` | ASCII `str.lower`, the `in` substring test, `str.split(sep, 1)` |
| `base64.dfy` | `Base64` | the base 64 encoding of section 4 of RFC 4648, with its round trip |
| `image_codec.dfy` | `ImageCodec` | `decode_image`: data-URI validation, payload decoding, the raster library's verdict |
| `narration.dfy` | `Narration` | `contains_sorry`, the `re.sub(r'\[.*?\]', '', text)` cleaning, the `"-- --"` lead |
| `artifacts.dfy` | `Artifacts` | artifact names, content types and the audio URL of one request |
| `session.dfy` | `Session` | `websocket_handler`: one message's reaction, the loop, and the methods that run them |

Some collaborators are outside the model and become inputs instead:

- The raster library is a `Raster` value, chosen once per connection. It
  says whether the library is installed and which byte strings it can open.
- Each inbound message comes with a `World` value, which holds:
  - the fresh uuid;
  - the vision model's answer;
  - which external step raises, if any (`Fault`), and whether that
    exception is one the handler catches.

A `Trace` records what the handler does:

- the replies sent, in order (`Reply`; `Session.Text` gives each reply's
  exact text);
- the artifacts uploaded, in order;
- the texts synthesised to speech;
- whether an uncaught exception ended the handler.

`Session.React` is one pass of the loop body as a function, and
`Session.Collect` folds the reactions into the handler's whole trace. The
methods `Session.HandleMessage`, `Session.ProcessImage` and
`Session.WebsocketHandler` run the same steps imperatively, and each is
proved equal to its function.

The protocol the server is meant to follow differs from `main.py` in a few
places. The intended protocol:

- a ping is recognised in any case and answered with `pong`;
- the audio is uploaded as `audio/mpeg`;
- every exception raised while a message is handled is caught and logged,
  and the connection stays open;

The model follows `main.py` instead:

- The ping reply is `PONG`, not `pong`.
- Only `PING` and `ping` are pings; `Ping` is not.
- The ping check runs only in the `except (ValueError, ImportError)` block.
- The audio is uploaded as `audio/mp3`, not `audio/mpeg`.
- Only `ValueError` and `ImportError` (and their subclasses) are caught.
  Anything else raised while a message is handled ends the handler, and
  with it the connection.
  - An image the raster library cannot identify raises `OSError`, so it
    ends the handler (`Session.UnreadableImageEnds`).
  - A storage or remote-service failure ends the handler unless its
    exception is a `ValueError` or `ImportError` (`Fault.Raises(stage, caught)`).

## Model

| member | source | states |
|---|---|---|
| Strings.ContainsIff | main.py:65 | the substring test holds exactly when the needle occurs at some index of the haystack |
| Strings.Lower | main.py:65 | lowering keeps the length and lowers each character on its own: ASCII capitals become small letters, every other character is kept |
| Strings.Contains | main.py:65 | the empty needle is in every text, and a needle longer than the text is in none of it |
| Strings.SplitOnce | main.py:71 | splitting on the first separator gives one piece exactly when the separator is absent, and that piece is the whole text; otherwise two pieces that rebuild the text around the separator, the first free of it |
| Strings.SplitOnceAt | main.py:71 | text before the first separator and everything after it, later separators included, are exactly the two pieces |
| Base64.DecodeEncode | main.py:76 | decoding the canonical encoding of any byte string gives back that byte string |
| Base64.Decode | main.py:76 | a decoded text has a length divisible by four, and every four characters carry three bytes, less one or two for the padding of the last group |
| ImageCodec.DecodeImage | main.py:68-88 | success only when the text before the first comma is exactly `data:image/png;base64`, the rest decodes as base 64 to the image's bytes, and the raster library is installed and opens those bytes |
| ImageCodec.NoCommaFails | main.py:71-78 | a message with no comma, such as a ping, always fails with `ValueError` |
| ImageCodec.WrongPrefixFails | main.py:71-73 | any prefix other than `data:image/png;base64` before the first comma fails with `ValueError`, whatever follows |
| ImageCodec.PayloadAfterFirstComma | main.py:71-88 | with the right prefix, the base 64 payload is everything after the first comma, later commas included; its decoding fails with `ValueError`, a missing library gives `ImportError`, unreadable bytes give `OSError` |
| ImageCodec.EncodedImageDecodes | main.py:68-86 | a data URI built from bytes the library opens decodes to an image of those bytes |
| Narration.ContainsSorry | main.py:63-65 | the refusal test holds exactly when "sorry" occurs at some index of the lowered text |
| Narration.ContainsSorryIgnoresCase | main.py:65 | lowering the text first does not change the refusal test |
| Narration.MarkerAnywhere | main.py:63-65 | a word that lowers to "sorry", placed anywhere in any text and even inside a longer word, makes the test hold |
| Narration.MarkerWord | main.py:65 | a word whose letters lower one by one to "sorry" is a refusal |
| Narration.CapitalisedSorry | main.py:65 | "Sorry" and "SORRY" are refusals |
| Narration.NoMarkerWithoutS | main.py:65 | a text with no `s` or `S` is never a refusal |
| Narration.Close | main.py:99 | the closing point of a span is the first `]` before any line break; when there is none, every `]` comes after a line break |
| Narration.StripRemovesSpan | main.py:99 | a `[`, text with no `]` and no line break, and the next `]` are removed together, and the scan resumes after them |
| Narration.StripKeepsUnclosed | main.py:99 | a `[` whose line or text ends before any `]` is kept, and the scan goes on from the next character |
| Narration.StripIsClean | main.py:99 | the cleaned text has no `[` with a `]` later on the same line |
| Narration.CleanIsFixed | main.py:99 | text with no `[` followed by a `]` on the same line is unchanged by the cleaning |
| Narration.StripIdempotent | main.py:99 | cleaning twice is the same as cleaning once |
| Narration.StripBrackets | main.py:99 | the cleaning leaves text with no `[` unchanged |
| Narration.SpeechText | main.py:99-101 | the synthesised text starts with `"-- --"`, is at most the narration longer than that lead, and without `[` it is the lead followed by the narration |
| Narration.StripKeepsLineBreaks | main.py:99 | the cleaning keeps every line break, since a removed span never contains one |
| Narration.SpeechTextShape | main.py:99-101 | the synthesised text is `"-- --"` followed by the cleaned narration; without `[` it is `"-- --"` plus the narration itself; cleaning it again changes nothing |
| Artifacts.BundleSharesId | main.py:142-179 | the `.png`, `.txt` and `.mp3` of one request are all named by its id plus an extension, and the URL sent to the client is the fixed public address followed by the `.mp3` name |
| Artifacts.NamesDetermineId | main.py:142-179 | two requests with different ids never share a `.png`, `.txt` or `.mp3` name or an audio URL |
| Artifacts.KindsNeverCollide | main.py:105-168 | an image, a text and an audio artifact never share a name, whatever their ids |
| Artifacts.ImageName | main.py:143 | the image is named by the id followed by `.png` |
| Artifacts.TextName | main.py:168 | the text is named by the id followed by `.txt` |
| Artifacts.AudioName | main.py:105 | the audio is named by the id followed by `.mp3` |
| Artifacts.AudioUrl | main.py:179 | the URL sent to the client is the fixed public address followed by the audio's object name |
| Artifacts.Bundle | main.py:142-179 | one request uploads three artifacts, all named by its id, as `image/png`, `text/plain` and `audio/mp3` in that order |
| Session.HandleMessage | main.py:137-190 | one pass of the loop body: a decode failure other than `OSError` runs the except block, `OSError` ends the handler, and a decoded image runs the image branch |
| Session.ProcessImage | main.py:139-183 | the image branch step by step: each upload, reply and synthesis is appended as it happens, and a raising step leaves what was done so far |
| Session.WebsocketHandler | main.py:125-190 | the greeting, then each message in order until the messages run out or a message ends the handler; the result is the session's trace |
| Session.Text | main.py:131-190 | the audio reply is the fixed public address followed by the audio's object name, and the narration reply is the vision model's text as it came, brackets included |
| Session.Caught | main.py:187-190 | the except block uploads and synthesises nothing, keeps the handler running, and replies `PONG` exactly to a ping |
| Session.Narrate | main.py:165-183 | the part of the branch after the analysis ends the handler only through an uncaught exception, and it synthesises either nothing or the cleaned narration |
| Session.Pipeline | main.py:139-183 | the image branch ends the handler only through an uncaught exception, and on a refusal it synthesises nothing and uploads at most the `.png` |
| Session.React | main.py:137-190 | one message ends the handler only when its bytes cannot be identified or a step raises an uncaught exception, and a message that fails to decode uploads and synthesises nothing |
| Session.Run | main.py:137-190 | a connection that receives no message does nothing in the loop |
| Session.Handler | main.py:125-190 | every session's first reply is the greeting |
| Session.GreetingFirst | main.py:131-132 | every session sends the greeting exactly once, as its first reply, and a session with no messages sends only the greeting |
| Session.ReactNeverGreets | main.py:137-190 | no message is ever answered with the greeting |
| Session.CollectNeverSends | main.py:137-190 | a reply that no pass of the loop sends is never sent by the loop |
| Session.NarrateCompletes | main.py:165-183 | when no step after the analysis raises, the replies are the acknowledgement, the progress notice, the URL and the narration; the `.png`, `.txt` and `.mp3` are uploaded; the cleaned narration is synthesised |
| Session.ImageNarrated | main.py:147-183 | a decodable image whose narration is not a refusal, with no step raising, gets the acknowledgement, the progress notice, the URL and the narration in that order; it uploads its `.png`, `.txt` and `.mp3` and synthesises the cleaned narration |
| Session.PipelineRefusal | main.py:152-163 | with a refusal, the branch stops after the acknowledgement and the failure notice, with only the `.png` uploaded |
| Session.ImageRefused | main.py:152-163 | a decodable image with a refusal gets the acknowledgement and the failure notice, only its `.png` is uploaded, and nothing is synthesised, whatever later step was due to fail |
| Session.RejectedMessage | main.py:187-190 | a message that fails with `ValueError` or `ImportError` uploads and synthesises nothing, keeps the handler running, and is answered `PONG` exactly when it is a ping; otherwise it gets no reply |
| Session.PingAnswered | main.py:187-190 | `PING` and `ping` are answered with exactly one `PONG` |
| Session.OtherTextIgnored | main.py:187-190 | any other text without a comma gets no reply and leaves no trace |
| Session.MixedCasePingIgnored | main.py:189 | `Ping` gets no reply |
| Session.UnreadableImageEnds | main.py:84-86 | bytes the raster library cannot identify send and store nothing, and end the handler |
| Session.NarratePartial | main.py:165-183 | whichever step after the analysis raises, the uploads are a prefix of `.png`, `.txt`, `.mp3`, the replies a prefix of the success replies, and at most the cleaned narration is synthesised |
| Session.PipelinePartial | main.py:147-183 | whichever step of the image branch raises, the uploads are a prefix of the request's three artifacts, and the replies are a prefix of the refusal replies or of the success replies |
| Session.PartialRequests | main.py:137-190 | for every message, without rollback, the uploads are a prefix of that request's three artifacts and at most the cleaned narration is synthesised; for a decoded image, the replies are a prefix of the refusal or success replies |
| Session.CollectPongs | main.py:137-190 | a loop whose every pass sends one `PONG` and nothing else sends one `PONG` per message |
| Session.CollectStored | main.py:137-190 | everything the loop uploads was uploaded by one of its passes |
| Session.CollectEnded | main.py:137-190 | the loop ends the handler exactly when one of its passes does |
| Session.CollectStopsAt | main.py:137-190 | once a pass ends the handler, later messages contribute nothing |
| Session.PingsOnly | main.py:137-190 | a session of pings gets one `PONG` per ping and uploads nothing |
| Session.StoredBelongToRequests | main.py:137-190 | every artifact uploaded in a session is one of the three artifacts of some message's id |
| Session.SessionEnds | main.py:137-190 | the handler ends early exactly when some message raises an exception the handler does not catch |
| Session.NothingAfterEnd | main.py:137-190 | the messages after the one that ends the handler are never handled |
| Session.IgnoredMessage | main.py:137-190 | a message answered with nothing leaves the rest of the session exactly as it would be without it |
| Session.MalformedThenImage | main.py:137-190 | a malformed text followed by a good image gives the greeting and then exactly that image's narration trace |

## Left out

- The vision model call in `analyse_image` (main.py:32-60) is a remote service. Its answer is an input (`World.analysis`). The global `script` it is passed is never used.
- The speech service client, its `generate` call and the `save` of the `.mp3` (main.py:93-97, 102-106) are a foreign library and disk I/O. Only the text handed to it is modelled (`Trace.spoken`); whether these calls raise is part of `Fault`.
- The local file writes (`image.save`, the `.txt` write) and the object storage upload in `save_in_gcp` (main.py:114-122) are I/O. Each upload is modelled as appending the artifact's name and content type to `Trace.stored`. These steps may raise, via `Fault`.
- The bytes written and uploaded are not modelled. This includes the image re-encoded by the raster library and read back for the vision model.
- Uploads go to the bucket named by the environment, while the URL names the fixed `davidattenborough` bucket. The model does not model the configured bucket.
- The raster library (main.py:84-86) cannot be seen. It is an abstract `Raster`: whether it is installed, and which bytes it opens.
- `if image:` is always true for an opened image, so it is not a branch of the model.
- `uuid.uuid4()` (main.py:142) is random, so ids are inputs (`World.id`). Their uniqueness is probabilistic and is not assumed. `Artifacts.NamesDetermineId` shows that distinct ids give distinct names.
- Websocket transport, TLS, asyncio, environment configuration and logging (main.py:20-29, 125-136, 193-207) are plumbing.
  - Concurrent connections are not modelled; each session is modelled alone.
  - A send that fails because the connection closed is not modelled.
  - Binary frames are left out; messages are text.
- Base64.Decode: accepts only canonical text (alphabet characters in groups of four, padding only in the last group). `base64.b64decode` by default also discards characters outside the alphabet. The model fails with `ValueError` on some payloads that the source decodes.
- Strings.Lower: folds only ASCII letters, while Python's `str.lower` also folds other scripts. No character outside ASCII lowers to a letter of "sorry", so the refusal test agrees on every text.
