/**
 * Text handling of bot.py: rewriting Telegram's HTML tags into the ones the
 * e-mail uses, picking a message's text, joining the texts of several
 * messages, and wrapping the result into an HTML document.
 */
module Markup {
  import opened Text
  import opened Post

  /* ---------------------------------------------------------------------
   * telegram_html_to_required
   * --------------------------------------------------------------------- */

  /** None of the four tags the bot rewrites occurs in `s`. */
  predicate NoTelegramTags(s: string) {
    && !Contains(s, "<b>")
    && !Contains(s, "</b>")
    && !Contains(s, "<i>")
    && !Contains(s, "</i>")
  }

  /**
   * `telegram_html_to_required`: `<b>`, `</b>`, `<i>`, `</i>` become `<strong>`,
   * `</strong>`, `<em>`, `</em>`, one `str.replace` after the other; every other
   * character, including every other tag, is kept.
   */
  function TelegramHtmlToRequired(html: string): (r: string)
    ensures html == "" ==> r == ""
  {
    if html == "" then ""
    else
      var bold := ReplaceAll(ReplaceAll(html, "<b>", "<strong>"), "</b>", "</strong>");
      ReplaceAll(ReplaceAll(bold, "<i>", "<em>"), "</i>", "</em>")
  }

  lemma TagWords()
    ensures Word("<b>") && Word("</b>") && Word("<i>") && Word("</i>")
    ensures Word("<strong>") && Word("</strong>") && Word("<em>") && Word("</em>")
  {
  }

  /** The rewritten text holds none of the four source tags. */
  lemma NormalizedHasNoTelegramTags(html: string)
    ensures NoTelegramTags(TelegramHtmlToRequired(html))
  {
    if html != "" {
      TagWords();
      var s1 := ReplaceAll(html, "<b>", "<strong>");
      ReplaceLeavesAbsent(html, "<b>", "<strong>", "<b>");
      var s2 := ReplaceAll(s1, "</b>", "</strong>");
      ReplaceLeavesAbsent(s1, "</b>", "</strong>", "<b>");
      ReplaceLeavesAbsent(s1, "</b>", "</strong>", "</b>");
      var s3 := ReplaceAll(s2, "<i>", "<em>");
      ReplaceLeavesAbsent(s2, "<i>", "<em>", "<b>");
      ReplaceLeavesAbsent(s2, "<i>", "<em>", "</b>");
      ReplaceLeavesAbsent(s2, "<i>", "<em>", "<i>");
      ReplaceLeavesAbsent(s3, "</i>", "</em>", "<b>");
      ReplaceLeavesAbsent(s3, "</i>", "</em>", "</b>");
      ReplaceLeavesAbsent(s3, "</i>", "</em>", "<i>");
      ReplaceLeavesAbsent(s3, "</i>", "</em>", "</i>");
    }
  }

  /** Text without any of the four source tags is left exactly as it is. */
  lemma NormalizeFixesTagFree(s: string)
    requires NoTelegramTags(s)
    ensures TelegramHtmlToRequired(s) == s
  {
    if s != "" {
      ReplaceAbsent(s, "<b>", "<strong>");
      ReplaceAbsent(s, "</b>", "</strong>");
      ReplaceAbsent(s, "<i>", "<em>");
      ReplaceAbsent(s, "</i>", "</em>");
    }
  }

  /** What one tag becomes: each of the four source tags its replacement, any other tag itself. */
  function RequiredTag(w: string): string {
    var bold := Renamed(Renamed(w, "<b>", "<strong>"), "</b>", "</strong>");
    Renamed(Renamed(bold, "<i>", "<em>"), "</i>", "</em>")
  }

  /** Renaming a word into a word gives a word. */
  lemma RenamedWord(w: string, p: string, r: string)
    requires Word(w) && Word(r)
    ensures Word(Renamed(w, p, r))
  {
  }

  /**
   * The rewrite works tag by tag: around any tag `w` in the text, the
   * parts before and after are rewritten on their own and `w` becomes
   * `RequiredTag(w)`.
   */
  lemma RewriteAroundTag(x: string, w: string, y: string)
    requires Word(w)
    ensures TelegramHtmlToRequired(x + w + y) ==
            TelegramHtmlToRequired(x) + RequiredTag(w) + TelegramHtmlToRequired(y)
  {
    TagWords();
    var w1 := Renamed(w, "<b>", "<strong>");
    var w2 := Renamed(w1, "</b>", "</strong>");
    var w3 := Renamed(w2, "<i>", "<em>");
    RenamedWord(w, "<b>", "<strong>");
    RenamedWord(w1, "</b>", "</strong>");
    RenamedWord(w2, "<i>", "<em>");
    ReplaceAroundWord(x, w, y, "<b>", "<strong>");
    var x1, y1 := ReplaceAll(x, "<b>", "<strong>"), ReplaceAll(y, "<b>", "<strong>");
    ReplaceAroundWord(x1, w1, y1, "</b>", "</strong>");
    var x2, y2 := ReplaceAll(x1, "</b>", "</strong>"), ReplaceAll(y1, "</b>", "</strong>");
    ReplaceAroundWord(x2, w2, y2, "<i>", "<em>");
    var x3, y3 := ReplaceAll(x2, "<i>", "<em>"), ReplaceAll(y2, "<i>", "<em>");
    ReplaceAroundWord(x3, w3, y3, "</i>", "</em>");
    EmptyRewrite(x);
    EmptyRewrite(y);
  }

  /** The guard for empty input agrees with the four replacements. */
  lemma EmptyRewrite(s: string)
    ensures var bold := ReplaceAll(ReplaceAll(s, "<b>", "<strong>"), "</b>", "</strong>");
            TelegramHtmlToRequired(s) == ReplaceAll(ReplaceAll(bold, "<i>", "<em>"), "</i>", "</em>")
  {
  }

  /** `<b>`, `</b>`, `<i>` and `</i>` become `<strong>`, `</strong>`, `<em>` and `</em>`. */
  lemma RewritesEachTag(x: string, y: string)
    ensures TelegramHtmlToRequired(x + "<b>" + y) == TelegramHtmlToRequired(x) + "<strong>" + TelegramHtmlToRequired(y)
    ensures TelegramHtmlToRequired(x + "</b>" + y) == TelegramHtmlToRequired(x) + "</strong>" + TelegramHtmlToRequired(y)
    ensures TelegramHtmlToRequired(x + "<i>" + y) == TelegramHtmlToRequired(x) + "<em>" + TelegramHtmlToRequired(y)
    ensures TelegramHtmlToRequired(x + "</i>" + y) == TelegramHtmlToRequired(x) + "</em>" + TelegramHtmlToRequired(y)
  {
    TagWords();
    RewriteAroundTag(x, "<b>", y);
    RewriteAroundTag(x, "</b>", y);
    RewriteAroundTag(x, "<i>", y);
    RewriteAroundTag(x, "</i>", y);
  }

  /** Every other tag, such as `<u>` or `<a href="…">`, is kept. */
  lemma KeepsOtherTags(x: string, w: string, y: string)
    requires Word(w) && w != "<b>" && w != "</b>" && w != "<i>" && w != "</i>"
    ensures TelegramHtmlToRequired(x + w + y) == TelegramHtmlToRequired(x) + w + TelegramHtmlToRequired(y)
  {
    RewriteAroundTag(x, w, y);
  }

  /** Normalising twice is normalising once. */
  lemma NormalizeIdempotent(html: string)
    ensures TelegramHtmlToRequired(TelegramHtmlToRequired(html)) == TelegramHtmlToRequired(html)
  {
    NormalizedHasNoTelegramTags(html);
    NormalizeFixesTagFree(TelegramHtmlToRequired(html));
  }

  /* ---------------------------------------------------------------------
   * extract_message_html_text
   * --------------------------------------------------------------------- */

  /** The HTML the bot reads from a message: the text's, else the caption's, else none. */
  function SourceHtml(m: Message): string {
    if m.text != "" then m.textHtml
    else if m.caption != "" then m.captionHtml
    else ""
  }

  /** `extract_message_html_text`: the chosen HTML, normalised, then stripped. */
  function ExtractMessageHtmlText(m: Message): string {
    Strip(TelegramHtmlToRequired(SourceHtml(m)))
  }

  /** A slice of text without a word holds no such word either. */
  lemma AbsentFromSlice(s: string, i: int, j: int, q: string)
    requires 0 <= i <= j <= |s| && !Contains(s, q)
    ensures !Contains(s[i..j], q)
  {
    AbsentFromPrefix(s, j, q);
    AbsentFromSuffix(s[..j], i, q);
    assert s[..j][i..] == s[i..j];
  }

  /**
   * The extracted text prefers the text to the caption, is the normalised
   * HTML with its surrounding whitespace removed, has no whitespace at
   * either end and holds none of the rewritten Telegram tags.
   */
  lemma ExtractedText(m: Message)
    ensures var r := ExtractMessageHtmlText(m);
            && (m.text != "" ==> r == Strip(TelegramHtmlToRequired(m.textHtml)))
            && (m.text == "" && m.caption != "" ==> r == Strip(TelegramHtmlToRequired(m.captionHtml)))
            && (m.text == "" && m.caption == "" ==> r == "")
            && Trimmed(r)
            && NoTelegramTags(r)
  {
    var n := TelegramHtmlToRequired(SourceHtml(m));
    StripFrame(n);
    NormalizedHasNoTelegramTags(SourceHtml(m));
    var i := LeadingSpaces(n);
    var r := Strip(n);
    AbsentFromSlice(n, i, i + |r|, "<b>");
    AbsentFromSlice(n, i, i + |r|, "</b>");
    AbsentFromSlice(n, i, i + |r|, "<i>");
    AbsentFromSlice(n, i, i + |r|, "</i>");
  }

  /* ---------------------------------------------------------------------
   * Joining the texts of several messages
   * --------------------------------------------------------------------- */

  /** The extracted text of every message, in message order (empty ones included). */
  function MessageTexts(messages: seq<Message>): (texts: seq<string>)
    ensures |texts| == |messages|
  {
    if messages == [] then []
    else MessageTexts(messages[..|messages| - 1]) + [ExtractMessageHtmlText(messages[|messages| - 1])]
  }

  lemma {:induction false} MessageTextsAt(messages: seq<Message>, i: int)
    requires 0 <= i < |messages|
    ensures MessageTexts(messages)[i] == ExtractMessageHtmlText(messages[i])
  {
    if i < |messages| - 1 {
      var init := messages[..|messages| - 1];
      MessageTextsAt(init, i);
      assert init[i] == messages[i];
    }
  }

  /** The non-empty strings of `texts`, in their order. */
  function NonEmptyParts(texts: seq<string>): (parts: seq<string>)
    ensures |parts| <= |texts|
    ensures forall i :: 0 <= i < |parts| ==> parts[i] != ""
  {
    if texts == [] then []
    else
      var t := texts[|texts| - 1];
      NonEmptyParts(texts[..|texts| - 1]) + (if t != "" then [t] else [])
  }

  /** No part is kept exactly when every text is empty. */
  lemma {:induction false} NonEmptyPartsEmpty(texts: seq<string>)
    ensures NonEmptyParts(texts) == [] <==> forall i :: 0 <= i < |texts| ==> texts[i] == ""
  {
    if texts != [] {
      var init := texts[..|texts| - 1];
      NonEmptyPartsEmpty(init);
      assert forall i :: 0 <= i < |init| ==> init[i] == texts[i];
    }
  }

  /** Filtering distributes over concatenation, so the parts keep the texts' order. */
  lemma {:induction false} NonEmptyPartsOrdered(a: seq<string>, b: seq<string>)
    ensures NonEmptyParts(a + b) == NonEmptyParts(a) + NonEmptyParts(b)
    decreases |b|
  {
    if b != [] {
      assert (a + b)[..|a + b| - 1] == a + b[..|b| - 1];
      NonEmptyPartsOrdered(a, b[..|b| - 1]);
    } else {
      assert a + b == a;
    }
  }

  /** One more text adds itself to the parts when it is non-empty, and nothing otherwise. */
  lemma NonEmptyPartsSnoc(texts: seq<string>, t: string)
    ensures NonEmptyParts(texts + [t]) == NonEmptyParts(texts) + (if t == "" then [] else [t])
  {
    assert (texts + [t])[..|texts|] == texts;
  }

  /** The parts are exactly the texts that are non-empty. */
  lemma {:induction false} NonEmptyPartsExact(texts: seq<string>, x: string)
    ensures x in NonEmptyParts(texts) <==> x != "" && x in texts
  {
    if texts != [] {
      var init := texts[..|texts| - 1];
      var last := texts[|texts| - 1];
      NonEmptyPartsExact(init, x);
      assert texts == init + [last];
      NonEmptyPartsSnoc(init, last);
    }
  }

  /** `html_parts`: the non-empty extracted texts of `messages`, in message order. */
  function TextParts(messages: seq<Message>): seq<string> {
    NonEmptyParts(MessageTexts(messages))
  }

  /** No part is collected exactly when no message yields any text. */
  lemma TextPartsEmpty(messages: seq<Message>)
    ensures TextParts(messages) == [] <==>
            forall i :: 0 <= i < |messages| ==> ExtractMessageHtmlText(messages[i]) == ""
  {
    NonEmptyPartsEmpty(MessageTexts(messages));
    forall i | 0 <= i < |messages| ensures MessageTexts(messages)[i] == ExtractMessageHtmlText(messages[i]) {
      MessageTextsAt(messages, i);
    }
  }

  /** A further message adds its extracted text to the parts when that text is non-empty. */
  lemma TextPartsSnoc(messages: seq<Message>, m: Message)
    ensures var t := ExtractMessageHtmlText(m);
            TextParts(messages + [m]) == TextParts(messages) + (if t == "" then [] else [t])
  {
    assert (messages + [m])[..|messages|] == messages;
    NonEmptyPartsSnoc(MessageTexts(messages), ExtractMessageHtmlText(m));
  }

  /** A part is collected exactly when it is the non-empty extracted text of some message. */
  lemma TextPartsExact(messages: seq<Message>, x: string)
    ensures x in TextParts(messages) <==>
            x != "" && exists i :: 0 <= i < |messages| && ExtractMessageHtmlText(messages[i]) == x
  {
    var texts := MessageTexts(messages);
    NonEmptyPartsExact(texts, x);
    forall i | 0 <= i < |messages| ensures texts[i] == ExtractMessageHtmlText(messages[i]) {
      MessageTextsAt(messages, i);
    }
  }

  /**
   * The loop of `process_messages_and_send_email` that collects `html_parts`.
   */
  method CollectTextParts(messages: seq<Message>) returns (parts: seq<string>)
    ensures parts == TextParts(messages)
  {
    parts := [];
    for i := 0 to |messages|
      invariant parts == NonEmptyParts(MessageTexts(messages[..i]))
    {
      var t := ExtractMessageHtmlText(messages[i]);
      assert messages[..i + 1][..i] == messages[..i];
      assert MessageTexts(messages[..i + 1]) == MessageTexts(messages[..i]) + [t];
      if t != "" {
        parts := parts + [t];
      }
    }
    assert messages[..|messages|] == messages;
  }

  const Separator: string := "<hr>"

  /** One part, framed by `<div>` and `</div>`. */
  function Wrap(p: string): string {
    "<div>" + p + "</div>"
  }

  function WrapAll(parts: seq<string>): (r: seq<string>)
    ensures |r| == |parts| && forall i :: 0 <= i < |parts| ==> r[i] == Wrap(parts[i])
  {
    if parts == [] then [] else [Wrap(parts[0])] + WrapAll(parts[1..])
  }

  /** `combined_html_text`: "" for no parts, else the wrapped parts joined by `<hr>`. */
  function CombineParts(parts: seq<string>): string {
    if parts == [] then "" else Join(Separator, WrapAll(parts))
  }

  /** The combined text is empty exactly when there is no part. */
  lemma CombineEmpty(parts: seq<string>)
    ensures CombineParts(parts) == "" <==> parts == []
  {
    if parts != [] {
      JoinLength(Separator, WrapAll(parts));
      assert |WrapAll(parts)[0]| >= 11;
      if |parts| == 1 {
      } else {
        assert |Join(Separator, WrapAll(parts))| >= |WrapAll(parts)[0]|;
      }
    }
  }

  /** A single part is only wrapped, never given a separator. */
  lemma CombineSingle(p: string)
    ensures CombineParts([p]) == "<div>" + p + "</div>"
    ensures !Contains(p, Separator) ==> !Contains(CombineParts([p]), Separator)
  {
    if !Contains(p, Separator) {
      assert Word("<div>") && Word("</div>") && Word(Separator);
      AbsentBetweenWords("<div>", p, "</div>", Separator);
    }
  }

  /** A further part is appended after one more separator: message order is kept. */
  lemma CombineSnoc(parts: seq<string>, p: string)
    requires parts != []
    ensures CombineParts(parts + [p]) == CombineParts(parts) + Separator + Wrap(p)
  {
    assert WrapAll(parts + [p]) == WrapAll(parts) + [Wrap(p)];
    JoinSnoc(Separator, WrapAll(parts), Wrap(p));
  }

  /**
   * When no part itself holds `<hr>`, the combined text holds a separator
   * exactly when there are at least two parts.
   */
  lemma CombineSeparated(parts: seq<string>)
    requires forall i :: 0 <= i < |parts| ==> !Contains(parts[i], Separator)
    ensures Contains(CombineParts(parts), Separator) <==> |parts| >= 2
  {
    if |parts| == 1 {
      assert parts == [parts[0]];
      CombineSingle(parts[0]);
    } else if |parts| >= 2 {
      var w := WrapAll(parts);
      var c := CombineParts(parts);
      assert c == w[0] + Separator + Join(Separator, w[1..]);
      assert c[|w[0]|..|w[0]| + |Separator|] == Separator;
      assert At(c, Separator, |w[0]|);
    }
  }

  /* ---------------------------------------------------------------------
   * compose_html_document
   * --------------------------------------------------------------------- */

  const DocumentHead: string :=
    "<!doctype html>\n<html lang=\"ru\">\n<head>\n  <meta charset=\"utf-8\">\n" +
    "  <meta name=\"viewport\" content=\"width=device-width, initial-scale=1\">\n" +
    "  <title>Telegram Post</title>\n</head>\n<body>\n" +
    "  <div style=\"font-family: Arial, sans-serif; font-size: 14px; line-height: 1.45;\">\n    "

  const DocumentTail: string := "\n  </div>\n</body>\n</html>\n"

  const NoTextPlaceholder: string := "<div>(без текста)</div>"

  /** `s` is the fixed template around some embedded body. */
  predicate IsDocument(doc: string) {
    && |DocumentHead| + |DocumentTail| <= |doc|
    && doc[..|DocumentHead|] == DocumentHead
    && doc[|doc| - |DocumentTail|..] == DocumentTail
  }

  /** What a document embeds between its head and its tail. */
  function EmbeddedBody(doc: string): string
    requires IsDocument(doc)
  {
    doc[|DocumentHead|..|doc| - |DocumentTail|]
  }

  /** `compose_html_document`: the template around the text, or around the placeholder when there is no text. */
  function ComposeHtmlDocument(htmlText: string): (doc: string)
    ensures IsDocument(doc)
  {
    DocumentHead + (if htmlText != "" then htmlText else NoTextPlaceholder) + DocumentTail
  }

  /** The document embeds the placeholder for empty text and the text itself otherwise. */
  lemma ComposeEmbeds(htmlText: string)
    ensures EmbeddedBody(ComposeHtmlDocument(htmlText)) ==
            if htmlText == "" then NoTextPlaceholder else htmlText
  {
    var doc := ComposeHtmlDocument(htmlText);
    var body := if htmlText == "" then NoTextPlaceholder else htmlText;
    assert doc == DocumentHead + body + DocumentTail;
    assert doc[|DocumentHead|..|doc| - |DocumentTail|] == body;
  }

  /**
   * The placeholder is embedded exactly when the text is empty or is itself
   * the placeholder: different non-empty texts give different documents.
   */
  lemma ComposeInjective(a: string, b: string)
    ensures ComposeHtmlDocument(a) == ComposeHtmlDocument(b) <==>
            (a == b || {a, b} == {"", NoTextPlaceholder})
  {
    ComposeEmbeds(a);
    ComposeEmbeds(b);
  }

  /** The body of the e-mail for a list of messages. */
  function PostDocument(messages: seq<Message>): string {
    ComposeHtmlDocument(CombineParts(TextParts(messages)))
  }

  /**
   * No message with text (no message at all, or only messages whose text is
   * empty after stripping) gives the placeholder document; otherwise the
   * document embeds the joined parts.
   */
  lemma PostDocumentBody(messages: seq<Message>)
    ensures (forall i :: 0 <= i < |messages| ==> ExtractMessageHtmlText(messages[i]) == "") ==>
            EmbeddedBody(PostDocument(messages)) == NoTextPlaceholder
    ensures (exists i :: 0 <= i < |messages| && ExtractMessageHtmlText(messages[i]) != "") ==>
            EmbeddedBody(PostDocument(messages)) == CombineParts(TextParts(messages)) != ""
  {
    TextPartsEmpty(messages);
    CombineEmpty(TextParts(messages));
    ComposeEmbeds(CombineParts(TextParts(messages)));
  }
}
