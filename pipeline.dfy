/**
 * `process_messages_and_send_email`: one post (a single message or a whole
 * album) becomes one email. The text parts are joined, every file is
 * downloaded into a private workspace, large files are announced, the
 * email is sent, the workspace is removed, and the user gets one final
 * acknowledgement: success, or the error that stopped the run.
 *
 * Downloads, the file system and the mail server are not modelled; what
 * they answer is an `Env` given to the run.
 */
module Pipeline {
  import opened Text
  import opened Post
  import opened Markup
  import opened Attachments

  /**
   * What the outside world answers during one run.
   * - `canReply`: whether the update has a message to reply to;
   * - `fetchErrors[n]`: the error raised by the `n`-th file download, if any
   *   (downloads past the end of the list succeed);
   * - `disk`: the size of each stored file that exists after downloading;
   * - `sendError`: the error raised while building or sending the email.
   */
  datatype Env = Env(
    canReply: bool,
    fetchErrors: seq<Option<string>>,
    disk: map<string, nat>,
    sendError: Option<string>)

  /** The email handed to the mail server: its HTML body and the names of its attachments. */
  datatype Email = Email(htmlBody: string, attachments: seq<string>)

  /** A reply to the user. */
  datatype Reply =
    | Warning(advisory: Advisory)  // the advisory about large files
    | Sent                         // the email went out
    | Failed(error: string)        // the run stopped with `error` (`str(e)`)

  /** A reply that ends a run. */
  predicate IsTerminal(r: Reply) {
    r.Sent? || r.Failed?
  }

  const SentText: string := "✅ Отправлено на email!"
  const FailurePrefix: string := "❌ Ошибка отправки: "

  /** The text of a reply. */
  function ReplyText(r: Reply): string {
    match r
    case Warning(a) => AdvisoryText(a)
    case Sent => SentText
    case Failed(e) => FailurePrefix + e
  }

  /**
   * The first character of a reply's text tells its kind, so a final
   * acknowledgement never reads like the advisory; a failure's text ends
   * with the error itself.
   */
  lemma ReplyTextShowsKind(r: Reply)
    ensures ReplyText(r) != []
    ensures ReplyText(r)[0] == match r case Warning(_) => '⚠' case Sent => '✅' case Failed(_) => '❌'
    ensures IsTerminal(r) <==> ReplyText(r)[0] != '⚠'
    ensures r.Failed? ==> ReplyText(r)[|FailurePrefix|..] == r.error
  {
    match r
    case Warning(a) =>
      assert ReplyText(r)[0] == AdvisoryHead[0];
    case Sent =>
    case Failed(e) =>
      assert ReplyText(r)[..|FailurePrefix|] == FailurePrefix;
  }

  /**
   * What a run leaves behind: the replies sent to the user in order, the
   * email if it was sent, and whether the workspace directory still exists.
   */
  datatype Outcome = Outcome(replies: seq<Reply>, sent: Option<Email>, workspaceExists: bool)

  function FetchErrorAt(env: Env, n: nat): Option<string> {
    if n < |env.fetchErrors| then env.fetchErrors[n] else None
  }

  /** The first error among downloads `lo` .. `hi - 1`. */
  function FirstError(env: Env, lo: nat, hi: nat): (e: Option<string>)
    ensures e.Some? <==> exists n :: lo <= n < hi && FetchErrorAt(env, n).Some?
    decreases hi - lo
  {
    if lo >= hi then None
    else if FetchErrorAt(env, lo).Some? then FetchErrorAt(env, lo)
    else FirstError(env, lo + 1, hi)
  }

  /** The first error of a range is that of its first half, or else of its second. */
  lemma {:induction false} FirstErrorSplit(env: Env, lo: nat, mid: nat, hi: nat)
    requires lo <= mid <= hi
    ensures FirstError(env, lo, hi) ==
            if FirstError(env, lo, mid).Some? then FirstError(env, lo, mid) else FirstError(env, mid, hi)
    decreases mid - lo
  {
    if lo < mid && FetchErrorAt(env, lo).None? {
      FirstErrorSplit(env, lo + 1, mid, hi);
    }
  }

  /** The error found is that of the first failing download in the range. */
  lemma {:induction false} FirstErrorIsFirst(env: Env, lo: nat, hi: nat)
    ensures FirstError(env, lo, hi).Some? ==>
              exists n :: lo <= n < hi && FirstError(env, lo, hi) == FetchErrorAt(env, n) &&
                          forall k :: lo <= k < n ==> FetchErrorAt(env, k).None?
    decreases hi - lo
  {
    if lo < hi && FetchErrorAt(env, lo).None? {
      FirstErrorIsFirst(env, lo + 1, hi);
    }
  }

  /**
   * `download_message_media` for a message whose first file is download
   * number `base`: the downloads run in order and the first one that fails
   * raises its error.
   */
  function DownloadMessageMedia(env: Env, base: nat, m: Message): (r: Option<string>)
    ensures r.None? <==> forall n :: base <= n < base + |MessageItems(m)| ==> FetchErrorAt(env, n).None?
    ensures r.Some? ==>
              exists n :: base <= n < base + |MessageItems(m)| && r == FetchErrorAt(env, n) &&
                          forall k :: base <= k < n ==> FetchErrorAt(env, k).None?
  {
    FirstErrorIsFirst(env, base, base + |MessageItems(m)|);
    FirstError(env, base, base + |MessageItems(m)|)
  }

  lemma AttachmentItemsNext(messages: seq<Message>, i: int)
    requires 0 <= i < |messages|
    ensures AttachmentItems(messages[..i + 1]) == AttachmentItems(messages[..i]) + MessageItems(messages[i])
  {
    var p := messages[..i + 1];
    assert p[..|p| - 1] == messages[..i];
  }

  lemma AttachmentItemsRest(messages: seq<Message>, i: int)
    requires 0 <= i <= |messages|
    ensures |AttachmentItems(messages[..i])| <= |AttachmentItems(messages)|
  {
    AttachmentItemsConcat(messages[..i], messages[i..]);
    assert messages[..i] + messages[i..] == messages;
  }

  /** A stored file as the size check finds it. */
  function Staged(env: Env, item: Item): StagedFile {
    var name := StoredName(item);
    StagedFile(name, name in env.disk, if name in env.disk then env.disk[name] else 0)
  }

  function StageAll(env: Env, items: seq<Item>): (files: seq<StagedFile>)
    ensures |files| == |items| && forall i :: 0 <= i < |items| ==> files[i] == Staged(env, items[i])
  {
    if items == [] then [] else [Staged(env, items[0])] + StageAll(env, items[1..])
  }

  /** The attachments `build_email` reads: the stored files that exist, in order. */
  function ExistingNames(files: seq<StagedFile>): (names: seq<string>)
    ensures |names| <= |files|
  {
    if files == [] then []
    else (if files[0].present then [files[0].name] else []) + ExistingNames(files[1..])
  }

  /** The attachments of the files `a` and then `b` are those of `a` followed by those of `b`. */
  lemma {:induction false} ExistingNamesConcat(a: seq<StagedFile>, b: seq<StagedFile>)
    ensures ExistingNames(a + b) == ExistingNames(a) + ExistingNames(b)
  {
    if a == [] {
      assert a + b == b;
    } else {
      assert (a + b)[0] == a[0] && (a + b)[1..] == a[1..] + b;
      ExistingNamesConcat(a[1..], b);
      var h := if a[0].present then [a[0].name] else [];
      ConcatAssoc(h, ExistingNames(a[1..]), ExistingNames(b), ExistingNames(a[1..] + b));
    }
  }

  /** A name is attached exactly when some stored file of that name exists. */
  lemma {:induction false} ExistingNamesExact(files: seq<StagedFile>, n: string)
    ensures n in ExistingNames(files) <==> exists i :: 0 <= i < |files| && files[i].present && files[i].name == n
  {
    if files != [] {
      ExistingNamesExact(files[1..], n);
      if exists i :: 0 <= i < |files[1..]| && files[1..][i].present && files[1..][i].name == n {
        var i :| 0 <= i < |files[1..]| && files[1..][i].present && files[1..][i].name == n;
        assert files[i + 1] == files[1..][i];
      }
      if exists i :: 0 <= i < |files| && files[i].present && files[i].name == n {
        var i :| 0 <= i < |files| && files[i].present && files[i].name == n;
        if i > 0 {
          assert files[1..][i - 1] == files[i];
        }
      }
    }
  }

  /** A reply, when there is a message to reply to. */
  function Ack(env: Env, r: Reply): seq<Reply> {
    if env.canReply then [r] else []
  }

  /** The advisory about large files, if there are any. */
  function Advice(env: Env, files: seq<StagedFile>): seq<Reply> {
    match OversizeAdvisory(files)
    case Some(a) => Ack(env, Warning(a))
    case None => []
  }

  /**
   * How a run ends once its downloads are over: `fetch` is the download
   * error, if any, `files` the stored files and `body` the email's HTML.
   */
  function Conclude(env: Env, fetch: Option<string>, files: seq<StagedFile>, body: string): Outcome {
    match fetch
    case Some(e) => Outcome(Ack(env, Failed(e)), None, false)
    case None =>
      var advice := Advice(env, files);
      match env.sendError
      case Some(e) => Outcome(advice + Ack(env, Failed(e)), None, false)
      case None => Outcome(advice + Ack(env, Sent), Some(Email(body, ExistingNames(files))), false)
  }

  /** The outcome `process_messages_and_send_email` promises for `messages`. */
  function ExpectedOutcome(messages: seq<Message>, env: Env): Outcome {
    var items := AttachmentItems(messages);
    Conclude(env, FirstError(env, 0, |items|), StageAll(env, items), PostDocument(messages))
  }

  /**
   * Step 2 of a run: every message's files, message by message; the first
   * failed download stops the run with its error.
   */
  method DownloadAll(messages: seq<Message>, env: Env) returns (attachments: seq<Item>, failure: Option<string>)
    ensures failure == FirstError(env, 0, |AttachmentItems(messages)|)
    ensures failure.None? ==> attachments == AttachmentItems(messages)
  {
    attachments := [];
    failure := None;
    var i := 0;
    while i < |messages| && failure.None?
      invariant 0 <= i <= |messages|
      invariant failure.None? ==> attachments == AttachmentItems(messages[..i])
      invariant failure.None? ==> FirstError(env, 0, |attachments|).None?
      invariant failure.Some? ==> failure == FirstError(env, 0, |AttachmentItems(messages)|)
    {
      var items := MessageItems(messages[i]);
      var e := DownloadMessageMedia(env, |attachments|, messages[i]);
      DownloadStep(messages, env, i);
      if e.Some? {
        failure := e;
      } else {
        attachments := attachments + items;
      }
      i := i + 1;
    }
    if failure.None? {
      assert messages[..i] == messages;
    }
  }

  /**
   * After the downloads of the first `i` messages succeeded, the next
   * message's downloads either extend them or give the run's first error.
   */
  lemma DownloadStep(messages: seq<Message>, env: Env, i: int)
    requires 0 <= i < |messages|
    requires FirstError(env, 0, |AttachmentItems(messages[..i])|).None?
    ensures var done := AttachmentItems(messages[..i]);
            var e := DownloadMessageMedia(env, |done|, messages[i]);
            && AttachmentItems(messages[..i + 1]) == done + MessageItems(messages[i])
            && (e.None? ==> FirstError(env, 0, |AttachmentItems(messages[..i + 1])|).None?)
            && (e.Some? ==> e == FirstError(env, 0, |AttachmentItems(messages)|))
  {
    var done := AttachmentItems(messages[..i]);
    var n := |done| + |MessageItems(messages[i])|;
    AttachmentItemsNext(messages, i);
    FirstErrorSplit(env, 0, |done|, n);
    AttachmentItemsRest(messages, i + 1);
    FirstErrorSplit(env, 0, n, |AttachmentItems(messages)|);
  }

  /** One run of `process_messages_and_send_email` over the messages of one post. */
  method ProcessMessages(messages: seq<Message>, env: Env) returns (out: Outcome)
    ensures out == ExpectedOutcome(messages, env)
  {
    var workspaceExists := true;
    var replies: seq<Reply> := [];

    // 1) the text parts, joined
    var parts := CollectTextParts(messages);
    var combined := CombineParts(parts);

    // 2) the files
    var attachments, failure := DownloadAll(messages, env);
    assert ExpectedOutcome(messages, env) ==
           Conclude(env, failure, StageAll(env, AttachmentItems(messages)), ComposeHtmlDocument(combined));
    if failure.Some? {
      workspaceExists := false;
      if env.canReply {
        replies := replies + [Failed(failure.value)];
      }
      return Outcome(replies, None, workspaceExists);
    }

    // 3) the advisory about large files
    var files := StageAll(env, attachments);
    var advisory := OversizeAdvisory(files);
    if advisory.Some? && env.canReply {
      replies := replies + [Warning(advisory.value)];
    }
    assert replies == Advice(env, files);

    // 4) the email; 5) the workspace is removed on either path; 6) the acknowledgement
    var email := Email(ComposeHtmlDocument(combined), ExistingNames(files));
    if env.sendError.Some? {
      workspaceExists := false;
      if env.canReply {
        replies := replies + [Failed(env.sendError.value)];
      }
      return Outcome(replies, None, workspaceExists);
    }
    workspaceExists := false;
    if env.canReply {
      replies := replies + [Sent];
    }
    out := Outcome(replies, Some(email), workspaceExists);
  }

  /**
   * Whatever happens, the workspace is removed, and a user who can be
   * replied to gets exactly one final acknowledgement, as the last reply,
   * possibly after the advisory.
   */
  lemma OneAcknowledgement(messages: seq<Message>, env: Env)
    ensures var out := ExpectedOutcome(messages, env);
            && !out.workspaceExists
            && (env.canReply ==>
                  && 1 <= |out.replies| <= 2
                  && IsTerminal(out.replies[|out.replies| - 1])
                  && (forall i :: 0 <= i < |out.replies| - 1 ==> out.replies[i].Warning?))
            && (!env.canReply ==> out.replies == [])
  {
    var items := AttachmentItems(messages);
    ConcludeAcknowledges(env, FirstError(env, 0, |items|), StageAll(env, items), PostDocument(messages));
  }

  /**
   * A user who can be replied to gets the size warning, before the final
   * acknowledgement, exactly when the downloads succeeded and some stored
   * file is over the limit.
   */
  lemma WarnedIffBigFile(messages: seq<Message>, env: Env)
    requires env.canReply
    ensures var out := ExpectedOutcome(messages, env);
            var files := StageAll(env, AttachmentItems(messages));
            && (|out.replies| == 2 <==>
                  FirstError(env, 0, |AttachmentItems(messages)|).None? && exists i :: 0 <= i < |files| && IsBig(files[i]))
            && (|out.replies| == 2 ==> out.replies[0].Warning?)
  {
    var items := AttachmentItems(messages);
    var files := StageAll(env, items);
    AdvisoryIffBigFile(files);
    ConcludeWarns(env, FirstError(env, 0, |items|), files, PostDocument(messages));
  }

  lemma ConcludeWarns(env: Env, fetch: Option<string>, files: seq<StagedFile>, body: string)
    requires env.canReply
    ensures var out := Conclude(env, fetch, files, body);
            && (|out.replies| == 2 <==> fetch.None? && OversizeAdvisory(files).Some?)
            && (|out.replies| == 2 ==> out.replies[0].Warning?)
  {
  }

  lemma ConcludeAcknowledges(env: Env, fetch: Option<string>, files: seq<StagedFile>, body: string)
    ensures var out := Conclude(env, fetch, files, body);
            && !out.workspaceExists
            && (env.canReply ==>
                  && 1 <= |out.replies| <= 2
                  && IsTerminal(out.replies[|out.replies| - 1])
                  && (forall i :: 0 <= i < |out.replies| - 1 ==> out.replies[i].Warning?))
            && (!env.canReply ==> out.replies == [])
  {
    var advice := Advice(env, files);
    assert |advice| <= 1 && forall i :: 0 <= i < |advice| ==> advice[i].Warning?;
  }

  /**
   * The email is sent exactly when every download and the sending itself
   * succeed; an error instead becomes the final reply, and nothing is sent.
   */
  lemma SentIffNoError(messages: seq<Message>, env: Env)
    ensures var out := ExpectedOutcome(messages, env);
            var fetch := FirstError(env, 0, |AttachmentItems(messages)|);
            && (out.sent.Some? <==> fetch.None? && env.sendError.None?)
            && (fetch.Some? ==> out.replies == Ack(env, Failed(fetch.value)))
            && (fetch.None? && env.sendError.Some? && env.canReply ==>
                  out.replies[|out.replies| - 1] == Failed(env.sendError.value))
  {
  }

  /**
   * A sent email carries the post's document and, in message order and each
   * message's download order, the stored files that exist.
   */
  lemma SentEmailContent(messages: seq<Message>, env: Env)
    requires ExpectedOutcome(messages, env).sent.Some?
    ensures var email := ExpectedOutcome(messages, env).sent.value;
            && email.htmlBody == ComposeHtmlDocument(CombineParts(TextParts(messages)))
            && IsDocument(email.htmlBody)
            && email.attachments == ExistingNames(StageAll(env, AttachmentItems(messages)))
  {
  }

  /**
   * The advisory is non-fatal: how large the stored files are changes
   * neither whether the email is sent nor the final acknowledgement.
   */
  lemma AdvisoryNonFatal(messages: seq<Message>, env: Env, sizes: map<string, nat>)
    requires sizes.Keys == env.disk.Keys
    ensures var out := ExpectedOutcome(messages, env);
            var out' := ExpectedOutcome(messages, env.(disk := sizes));
            && out.sent == out'.sent
            && (env.canReply ==> out.replies[|out.replies| - 1] == out'.replies[|out'.replies| - 1])
  {
    var items := AttachmentItems(messages);
    var env' := env.(disk := sizes);
    assert FirstError(env, 0, |items|) == FirstError(env', 0, |items|) by {
      FirstErrorSameFetches(env, env', 0, |items|);
    }
    SameFilesExist(env, env', items);
    ConcludeNonFatal(env, env', FirstError(env, 0, |items|), StageAll(env, items), StageAll(env', items), PostDocument(messages));
  }

  lemma ConcludeNonFatal(env: Env, env': Env, fetch: Option<string>, files: seq<StagedFile>, files': seq<StagedFile>, body: string)
    requires env.canReply == env'.canReply && env.sendError == env'.sendError
    requires ExistingNames(files) == ExistingNames(files')
    ensures var out := Conclude(env, fetch, files, body);
            var out' := Conclude(env', fetch, files', body);
            && out.sent == out'.sent
            && (env.canReply ==> out.replies[|out.replies| - 1] == out'.replies[|out'.replies| - 1])
  {
    assert |Advice(env, files)| <= 1 && |Advice(env', files')| <= 1;
  }

  lemma {:induction false} FirstErrorSameFetches(env: Env, env': Env, lo: nat, hi: nat)
    requires env.fetchErrors == env'.fetchErrors
    ensures FirstError(env, lo, hi) == FirstError(env', lo, hi)
    decreases hi - lo
  {
    if lo < hi {
      FirstErrorSameFetches(env, env', lo + 1, hi);
    }
  }

  lemma {:induction false} SameFilesExist(env: Env, env': Env, items: seq<Item>)
    requires env.disk.Keys == env'.disk.Keys
    ensures ExistingNames(StageAll(env, items)) == ExistingNames(StageAll(env', items))
  {
    if items != [] {
      SameFilesExist(env, env', items[1..]);
      var a := StageAll(env, items);
      var b := StageAll(env', items);
      assert a[1..] == StageAll(env, items[1..]);
      assert b[1..] == StageAll(env', items[1..]);
    }
  }
}
