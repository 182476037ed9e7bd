# Telegram-to-email bot: a Dafny model of its core

`bot.py` is a Telegram bot that forwards posts to an email address. A post is either one message or a whole album: Telegram sends an album as several messages sharing a `media_group_id`. Each post becomes one HTML email carrying the post's files as attachments.

This project models the core of the bot in Dafny and proves properties of the model. The modules are:

- `Text` (`text.dfy`): the Python string operations the bot relies on.
  - `str.replace`: left to right, non-overlapping.
  - `str.strip`: over Python's whitespace set.
  - `str.join`, and the printing of a natural number.
  - A small theory of bracketed words (`<...>` with no bracket inside). It shows when a replacement cannot create a second occurrence of a tag.
- `Post` (`post.dfy`): the parts of a Telegram message the bot reads.
- `Markup` (`markup.dfy`), the post's text:
  - `telegram_html_to_required`, which rewrites `<b>`/`<i>` to `<strong>`/`<em>`;
  - `extract_message_html_text`;
  - the loop that collects the non-empty parts;
  - the `<div>`/`<hr>` join;
  - `compose_html_document`.
- `Attachments` (`attachments.dfy`):
  - the name under which each downloaded file is stored, covering the document-name sanitiser, `pathlib` suffixes and the per-kind default extensions;
  - the order of the files;
  - the selection and wording of the warning about files over 25 MiB.
- `Coalescer` (`coalescer.dfy`), the album buffer `media_groups` with `handle_incoming_post` and `flush_media_group`:
  - a value-level state machine (`Observe`, `Handle`, `Fire`) with its invariant and lemmas;
  - a class `MediaGroups` whose methods update the map in place and are proved equal to the state machine.
- `Pipeline` (`pipeline.dfy`): `process_messages_and_send_email`. The download loop and the whole run are methods: the loop is proved to return the first download error or else every file (`FirstError`, `AttachmentItems`), and the run is proved equal to a specification function `ExpectedOutcome`. Lemmas then show:
  - the workspace is removed on every path;
  - exactly one final acknowledgement is sent when there is a message to reply to;
  - errors become replies;
  - the email is sent exactly when nothing failed;
  - the size warning is non-fatal.

What the outside world does is modelled as data given to the run:

- **Timers.** Each scheduled flush is a token. A token's delay running out is the step `Fire`. Cancelling a flush drops its token.
- **Downloads, disk and mail server.** `Pipeline.Env` holds each download's error, the sizes of the stored files, and the error of sending, if any.

Telegram leaves some fields unset. The model uses `""` for these: the bot only tests them for truthiness, and under truthiness an unset field and an empty string behave alike.

## Model

| member | source | states |
|---|---|---|
| Text.ReplaceAll | bot.py:87-88 | Python's `str.replace`, left to right and non-overlapping; no contract of its own, its properties are the `Text.Replace…` lemmas |
| Text.ReplaceAroundWord | bot.py:87-88 | replacing a tag word `p` in a text `a + w + b` around a tag word `w` replaces in `a` and in `b` separately, and `w` becomes the replacement exactly when it is `p` |
| Text.ReplaceLeavesAbsent | bot.py:87-88 | replacing one tag word by another tag word never creates an occurrence of a third tag word that was absent, and removes every occurrence of the replaced one |
| Text.Strip | bot.py:108 | `str.strip`; no contract of its own, its properties are `StripFrame` and `StripIdempotent` |
| Text.StripFrame | bot.py:108 | `strip` leaves a slice of its input with no whitespace at either end, and everything cut off is whitespace |
| Text.StripIdempotent | bot.py:108 | stripping twice is stripping once |
| Text.Join | bot.py:290 | `sep.join(xs)`; no contract of its own, its properties are `JoinSingle`, `JoinSnoc` (used by `Markup.CombineSnoc`), `JoinAt` and `JoinLength` |
| Text.JoinSingle | bot.py:290 | joining one item gives that item, with no separator |
| Text.JoinAt | bot.py:290 | each item appears in the join unchanged, after the items before it and one separator after each of them |
| Text.JoinLength | bot.py:290 | the joined text is as long as the parts plus one separator between each two |
| Text.NatToString | bot.py:301 | the f-string rendering of a count is non-empty decimal digits with no leading zero except for `0` itself; that it reads back is `ParseNatToString` |
| Text.ParseNatToString | bot.py:301 | the decimal rendering of a count is non-empty digits and reads back as the same number |
| Markup.TelegramHtmlToRequired | bot.py:83-84 | empty HTML gives empty HTML |
| Markup.RewriteAroundTag | bot.py:77-91 | around any tag in the HTML, the text before and after it is rewritten on its own, and the tag becomes its required form |
| Markup.RewritesEachTag | bot.py:81-88 | `<b>`, `</b>`, `<i>` and `</i>` become `<strong>`, `</strong>`, `<em>` and `</em>` respectively, wherever they stand |
| Markup.KeepsOtherTags | bot.py:77-91 | every other tag is kept as it is |
| Markup.NormalizedHasNoTelegramTags | bot.py:77-91 | after the rewrite no `<b>`, `</b>`, `<i>` or `</i>` is left, whatever the input |
| Markup.NormalizeFixesTagFree | bot.py:77-91 | HTML without those four tags is returned unchanged |
| Markup.NormalizeIdempotent | bot.py:77-91 | rewriting twice is rewriting once |
| Markup.ExtractMessageHtmlText | bot.py:94-108 | `extract_message_html_text`; no contract of its own, its properties are `ExtractedText` |
| Markup.ExtractedText | bot.py:94-108 | the extracted text comes from the text HTML when there is text, else from the caption HTML when there is a caption, else is empty; it is the normalised HTML stripped, has no whitespace at either end and holds none of the four tags |
| Markup.MessageTextsAt | bot.py:282-283 | the i-th collected text is the extracted text of the i-th message |
| Markup.NonEmptyParts | bot.py:282-285 | keeps no more parts than there are texts, and every kept part is non-empty |
| Markup.NonEmptyPartsSnoc | bot.py:282-285 | a further text is appended to the parts when it is non-empty and dropped otherwise |
| Markup.NonEmptyPartsExact | bot.py:282-285 | a string is a part exactly when it is a non-empty one of the texts |
| Markup.NonEmptyPartsEmpty | bot.py:284-285 | no part is kept exactly when every text is empty |
| Markup.NonEmptyPartsOrdered | bot.py:282-285 | keeping the non-empty parts distributes over concatenation, so the parts keep message order |
| Markup.TextParts | bot.py:279-285 | the non-empty extracted texts in message order; no contract of its own, its properties are `TextPartsSnoc`, `TextPartsExact`, `TextPartsEmpty` and the `CollectTextParts` loop |
| Markup.TextPartsSnoc | bot.py:282-285 | one more message appends its extracted text itself to the parts when that text is non-empty, and nothing otherwise |
| Markup.TextPartsExact | bot.py:282-285 | a string is collected exactly when it is the non-empty extracted text of some message |
| Markup.TextPartsEmpty | bot.py:282-288 | there are no parts exactly when every message's extracted text is empty |
| Markup.CollectTextParts | bot.py:282-285 | the loop returns exactly the non-empty extracted texts in message order |
| Markup.CombineParts | bot.py:287-290 | each part wrapped in `<div>`…`</div>`, joined by `<hr>`; no contract of its own, its properties are the `Combine…` lemmas |
| Markup.CombineEmpty | bot.py:287-290 | the combined text is empty exactly when there are no parts |
| Markup.CombineSingle | bot.py:290 | one part is only wrapped in `<div>`…`</div>`, with no separator |
| Markup.CombineSnoc | bot.py:290 | each further part is appended after one more `<hr>` |
| Markup.CombineSeparated | bot.py:290 | when no part holds `<hr>`, the combined text holds one exactly when there are at least two parts |
| Markup.ComposeHtmlDocument | bot.py:236-255 | the result is the fixed template: the document head, a body, the document tail |
| Markup.ComposeEmbeds | bot.py:251 | the template embeds the text, or the `(без текста)` placeholder when the text is empty |
| Markup.ComposeInjective | bot.py:251 | two texts give the same document exactly when they are equal or are the empty text and the placeholder |
| Markup.PostDocumentBody | bot.py:287-310 | a post whose messages yield no text gets the placeholder; otherwise the document embeds the joined, non-empty parts |
| Attachments.SanitizeName | bot.py:147 | the sanitised name is no longer than the original |
| Attachments.SanitizeSafe | bot.py:147 | the sanitised name uses only `A-Za-z0-9._-` |
| Attachments.SanitizeKeepsSafe | bot.py:147 | a name made only of safe characters is kept as it is |
| Attachments.SanitizeIdempotent | bot.py:147 | sanitising twice is sanitising once |
| Attachments.SanitizeSplits | bot.py:147 | sanitising splits after any safe character into the sanitised halves |
| Attachments.SanitizeRun | bot.py:147 | each maximal run of unsafe characters, of any length, becomes exactly one `_` |
| Attachments.DocumentFileName | bot.py:145-147 | a document's stored name is always a safe name |
| Attachments.DocumentFileNameCases | bot.py:145-147 | the sender's name is sanitised and kept when already safe; with no name the file is stored as `document_` followed by the sanitised id, which is `document_<id>` when the id is safe |
| Attachments.LastIndexOf | bot.py:135 | the index found holds the character and no later index does; -1 when absent |
| Attachments.PathName | bot.py:135 | the name found holds no `/` |
| Attachments.PathNameComponent | bot.py:135 | the name is a whole component of the path: it starts the path or follows a `/`, and is followed by nothing or by a `/` and then only slashes and `.` components (each `.` alone between slashes or the ends); it is never `.`, and it is empty only when the path holds nothing but slashes and `.` components |
| Attachments.DotDotIsName | bot.py:135 | a final `..` is a component of its own: `a/..` is named `..`, not `a` |
| Attachments.SuffixShape | bot.py:135 | a suffix is a dot plus at least one character, holds no other dot, ends the name after a non-empty stem, and is empty exactly when no dot qualifies |
| Attachments.ExtensionOr | bot.py:135 | the extension is the file name's suffix whenever that is non-empty, and the default otherwise |
| Attachments.MediaItems | bot.py:115-182 | a message yields at most six files |
| Attachments.MediaItemsExact | bot.py:115-182 | a message yields exactly the files it carries (of a photo only its last, largest size), at most one per kind, in the order photo, video, document, animation, audio, voice |
| Attachments.StoredNameShape | bot.py:122-180 | every stored name starts with its kind's prefix and the file id; photos end in `.jpg` and voices in `.ogg`; videos, animations and audio end in the file name's suffix when it is non-empty, and otherwise in `.mp4`, `.mp4` and `.mp3`; documents get a safe name |
| Attachments.StoredName | bot.py:122-180 | the name of one downloaded file; no contract of its own, its properties are `StoredNameShape` |
| Attachments.StoredNames | bot.py:115-182 | the i-th stored name is the name of the i-th downloaded file |
| Attachments.PhotoFirst | bot.py:122-130 | a photo is stored under its largest size, before the message's other files, and no later file of the message is a photo |
| Attachments.DocumentOnly | bot.py:142-151 | a message carrying only a document yields just the document's name |
| Attachments.AttachmentItemsConcat | bot.py:293-295 | the files of a list of messages are message by message, in order |
| Attachments.BigFiles | bot.py:298 | every selected file exists and is strictly over 25 MiB |
| Attachments.BigFilesEmpty | bot.py:298 | nothing is selected exactly when no file exists with more than 25 MiB |
| Attachments.BigFilesComplete | bot.py:298 | every file over the limit is selected |
| Attachments.BigFilesConcat | bot.py:298 | the selection keeps attachment order |
| Attachments.OversizeAdvisory | bot.py:298-301 | an advisory exists exactly when a big file does; it names the first five big files (or all, if fewer) in order, and counts the rest, which is non-zero exactly when there are more than five |
| Attachments.AdvisoryIffBigFile | bot.py:298-299 | an advisory is given exactly when some stored file exists and exceeds 25 MiB |
| Attachments.AdvisoryText | bot.py:300-303 | the wording of the size warning; no contract of its own, its properties are `AdvisoryTextShows` and `MoreNoteReadsBack` |
| Attachments.AdvisoryTextShows | bot.py:300-303 | the warning starts with its heading, names each shown file in the comma-separated list, and ends with the remainder note and the closing sentence |
| Attachments.MoreNoteReadsBack | bot.py:301 | the ` и ещё <k>` note is empty exactly when nothing is left out, and otherwise its number reads back as the count left out |
| Coalescer.Handle | bot.py:356-392 | an update is buffered exactly when it carries a non-service message with a media group id; no message or a service message is ignored; any other message is sent at once as a one-message list; only buffering changes the state, and it buffers under the (chat id, media group id) key with the next token, the state becoming that of `Observe` |
| Coalescer.Observe | bot.py:373-386 | buffering one album message; no contract of its own, its properties are `ObserveEffect`, `ObserveConsistent` and the `Burst…` lemmas |
| Coalescer.Fire | bot.py:341-353 | a flush's delay running out; no contract of its own, its properties are `FireEffect`, `FireConsistent` and `BurstFlushedOnce` |
| Coalescer.OpenIffScheduled | bot.py:63-70 | in a consistent state an album is open exactly when a flush is scheduled for it, and that flush is the album's current one |
| Coalescer.ObserveEffect | bot.py:373-386 | buffering appends the message to its album (a fresh, empty one when none was open), cancels the previous flush, schedules a new one for this album, and leaves all other albums and their flushes alone |
| Coalescer.ObserveConsistent | bot.py:373-386 | buffering keeps the invariant |
| Coalescer.HandleConsistent | bot.py:356-392 | handling any update keeps the invariant |
| Coalescer.FireEffect | bot.py:337-353 | a cancelled or finished flush does nothing; a scheduled one removes its album's key and hands on exactly that album's messages, touching no other album |
| Coalescer.FireConsistent | bot.py:337-353 | a flush keeps the invariant |
| Coalescer.BurstTokens | bot.py:380-386 | a burst hands out one token per message, and every flush still pending from the burst is for the burst's album |
| Coalescer.BurstAccumulates | bot.py:375-378 | a burst into an album that was not open leaves it holding exactly the burst's messages in arrival order |
| Coalescer.BurstLeavesOthers | bot.py:373-386 | a burst into one album leaves every other album as it was |
| Coalescer.BurstKeepsLastFlush | bot.py:380-386 | after a burst only the flush of its last message is pending |
| Coalescer.BurstFlushedOnce | bot.py:341-353 | the earlier flushes of a burst do nothing, the last hands on the whole burst in order and closes the album, and it cannot fire twice |
| Coalescer.FreshAfterFlush | bot.py:350-351 | a message arriving for an album that was already flushed starts a new album holding only that message |
| Coalescer.MediaGroups.constructor | bot.py:70 | the buffer starts empty and consistent |
| Coalescer.MediaGroups.HandleIncomingPost | bot.py:356-392 | the in-place update and its answer are those of `Handle`, and the invariant is kept |
| Coalescer.MediaGroups.FlushMediaGroup | bot.py:337-353 | the in-place update and what is handed on are those of `Fire`, and the invariant is kept |
| Pipeline.ReplyTextShowsKind | bot.py:302-330 | the first character of a reply's text tells warning, success or failure apart; a failure's text ends with the error itself |
| Pipeline.FirstError | bot.py:292-295 | the first download error in a range exists exactly when some download in it fails |
| Pipeline.FirstErrorIsFirst | bot.py:292-295 | the error found is that of a failing download with no failure before it in the range |
| Pipeline.DownloadMessageMedia | bot.py:115-187 | a message's downloads fail exactly when one of them fails, and then with the error of the first that fails |
| Pipeline.FirstErrorSplit | bot.py:292-295 | the first error of a range is that of its first half, or else that of its second |
| Pipeline.DownloadAll | bot.py:292-295 | the download loop stops with the first error over all files in message order; when nothing fails it returns every file in order |
| Pipeline.DownloadStep | bot.py:293-295 | the next message's downloads either extend the files so far or give the run's first error |
| Pipeline.StageAll | bot.py:298 | each stored file is checked for existence and size under its stored name |
| Pipeline.ExistingNames | bot.py:204-206 | the email has no more attachments than there are stored files |
| Pipeline.ExistingNamesConcat | bot.py:204-206 | the attachments of two runs of files are those of the first followed by those of the second, so attachment order is kept |
| Pipeline.ExistingNamesExact | bot.py:204-206 | a name is attached exactly when some stored file of that name exists |
| Pipeline.Conclude | bot.py:297-330 | how a run ends once its downloads are over; no contract of its own, its properties are `ConcludeAcknowledges`, `ConcludeWarns` and `ConcludeNonFatal` |
| Pipeline.ExpectedOutcome | bot.py:258-330 | the outcome a run promises; no contract of its own, its properties are `OneAcknowledgement`, `SentIffNoError`, `SentEmailContent`, `WarnedIffBigFile` and `AdvisoryNonFatal` |
| Pipeline.ProcessMessages | bot.py:258-330 | a whole run gives the replies, the sent email and the workspace state of `ExpectedOutcome` |
| Pipeline.OneAcknowledgement | bot.py:316-330 | the workspace is removed on every path; a user who can be replied to gets one or two replies, the last being the only final acknowledgement and any earlier one the size warning; otherwise no replies |
| Pipeline.SentIffNoError | bot.py:306-330 | the email is sent exactly when every download and the sending succeed; a download error is the only reply, and a sending error the last |
| Pipeline.SentEmailContent | bot.py:306-314 | a sent email carries the post's document (always a complete template) and the names of the stored files that exist, in order |
| Pipeline.WarnedIffBigFile | bot.py:297-304 | a user who can be replied to gets the size warning, as the first of two replies, exactly when the downloads succeeded and some stored file exists and exceeds 25 MiB |
| Pipeline.AdvisoryNonFatal | bot.py:297-304 | file sizes change neither whether the email is sent nor the final acknowledgement |

## Left out

- The Telegram API: fetching files, `reply_text`, the command handlers and `main` are not modelled. Replies are values in the outcome, and every reply is assumed to be delivered. In the source, a reply that raises would send the run into its error path.
- SMTP, and building the MIME message with its headers, encoding and subject. The email is its HTML body and its attachment names.
- Real timing. The flush delay (a float read from the environment) and `asyncio.sleep` are replaced by tokens that fire when the caller says so. Concurrent interleavings inside a flush are not modelled. A flush is one atomic step, as it is between two awaits in the source.
- File system effects. Creating and removing the workspace is a flag. The sizes and existence of stored files come from `Env.disk`. The workspace name (a `uuid`) is not modelled. In the source, a failure to create the workspace happens before the error handling and is not caught.
- Two files stored under the same name in one post overwrite each other, because the names come from the file ids and the sanitised document name. The model keys the disk by name, so both names see the same file, but the overwriting itself is not modelled.
- `datetime`: the subject's timestamp is not modelled.
- Logging and configuration, including `validate_config`.
- Attachments.PathName: covers how `pathlib` finds the last component of a POSIX path (trailing `/` and `.` components), but not other normalisation, such as a leading `//`.
- The chat a reply goes to: a flush replies in the chat of the album's last update. The model only records whether there is a message to reply to (`Env.canReply`).
- Aliasing: the model keeps the album entries as values in a map. The source mutates the entry dictionary that `setdefault` returns. The two agree because nothing else holds that dictionary.
