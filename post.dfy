/**
 * The parts of a Telegram message that the bot reads. Telegram fields that
 * may be missing are strings, with "" standing for a missing value: the bot
 * only ever tests them for truthiness, under which a missing value and an
 * empty string behave alike.
 */
module Post {

  datatype Option<T> = None | Some(value: T)

  /** A file Telegram attached to a message: its stable id and the name the sender gave it ("" for none). */
  datatype FileRef = FileRef(fileUniqueId: string, fileName: string)

  /**
   * The media of one message. `photo` lists the sizes of a photo from the
   * smallest to the largest, as Telegram sends them; it is empty for a
   * message without a photo.
   */
  datatype Media = Media(
    photo: seq<FileRef>,
    video: Option<FileRef>,
    document: Option<FileRef>,
    animation: Option<FileRef>,
    audio: Option<FileRef>,
    voice: Option<FileRef>)

  /**
   * One incoming message. `mediaGroupId` is "" for a message outside any
   * album; `isService` marks join/leave notifications; `textHtml` and
   * `captionHtml` are Telegram's HTML renderings of `text` and `caption`.
   */
  datatype Message = Message(
    chatId: int,
    mediaGroupId: string,
    isService: bool,
    text: string,
    textHtml: string,
    caption: string,
    captionHtml: string,
    media: Media)
}
