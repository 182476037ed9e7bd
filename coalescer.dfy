/**
 * Media-group coalescing: `handle_incoming_post` buffers the messages of a
 * Telegram album under (chat id, media group id) in `media_groups` and
 * (re)schedules a delayed `flush_media_group`; when a delay runs out without
 * having been cancelled, the flush removes the album and hands its messages
 * on, in arrival order, to be sent as one email.
 *
 * Each scheduled flush is identified by a token. `pending` maps every token
 * whose delay has neither run out nor been cancelled to the key it flushes;
 * cancelling a flush removes its token. When a delay runs out is left to
 * the caller: `Fire(s, t)` is token `t`'s delay running out.
 */
module Coalescer {
  import opened Text
  import opened Post

  /** `MediaGroupKey`: the chat and the media group id. */
  datatype Key = Key(chatId: int, groupId: string)

  type Token = nat

  /** One `media_groups` entry: the buffered messages and the current flush. */
  datatype Group = Group(messages: seq<Message>, flushTask: Option<Token>)

  /** `media_groups`, the scheduled flushes, and the next token to hand out. */
  datatype State = State(groups: map<Key, Group>, pending: map<Token, Key>, nextToken: nat)

  /** What `handle_incoming_post` does with an incoming update. */
  datatype Arrival =
    | Ignored                          // no message, or a service message
    | Buffered(key: Key, token: Token) // added to an album; flush `token` scheduled
    | Immediate(messages: seq<Message>)  // sent at once, as a list of one message

  /** What a flush hands on: the album's key and its messages. */
  datatype Dispatch = Dispatch(key: Key, messages: seq<Message>)

  const Empty: State := State(map[], map[], 0)

  /**
   * The coalescer's invariant: every open album has a non-empty message
   * list and exactly one scheduled flush, which is for its own key, and every
   * scheduled flush belongs to an open album. All tokens are below
   * `nextToken`.
   */
  predicate Consistent(s: State) {
    && (forall t :: t in s.pending ==>
          && t < s.nextToken
          && s.pending[t] in s.groups
          && s.groups[s.pending[t]].flushTask == Some(t))
    && (forall k :: k in s.groups ==>
          && s.groups[k].messages != []
          && s.groups[k].flushTask.Some?
          && s.groups[k].flushTask.value in s.pending
          && s.pending[s.groups[k].flushTask.value] == k)
  }

  /** The key an ordinary message is grouped under, if it belongs to an album. */
  function KeyOf(m: Message): Option<Key> {
    if m.mediaGroupId != "" then Some(Key(m.chatId, m.mediaGroupId)) else None
  }

  /**
   * Buffering one album message: `setdefault` an empty entry, append the
   * message, cancel the entry's current flush and schedule a new one.
   */
  function Observe(s: State, key: Key, m: Message): State {
    var g := if key in s.groups then s.groups[key] else Group([], None);
    var pending := match g.flushTask
      case Some(prev) => s.pending - {prev}
      case None => s.pending;
    var t := s.nextToken;
    State(s.groups[key := Group(g.messages + [m], Some(t))], pending[t := key], t + 1)
  }

  /** `handle_incoming_post`. */
  function Handle(s: State, msg: Option<Message>): (r: (Arrival, State))
    ensures r.0.Buffered? <==> msg.Some? && !msg.value.isService && KeyOf(msg.value).Some?
    ensures r.0.Ignored? <==> msg.None? || msg.value.isService
    ensures r.0.Immediate? ==> r.0.messages == [msg.value]
    ensures !r.0.Buffered? ==> r.1 == s
    ensures r.0.Buffered? ==>
              && r.0.key == Key(msg.value.chatId, msg.value.mediaGroupId)
              && r.0.token == s.nextToken
              && r.1 == Observe(s, r.0.key, msg.value)
  {
    if msg.None? || msg.value.isService then (Ignored, s)
    else
      match KeyOf(msg.value)
      case None => (Immediate([msg.value]), s)
      case Some(key) => (Buffered(key, s.nextToken), Observe(s, key, msg.value))
  }

  /**
   * Token `t`'s delay runs out (`flush_media_group` after its sleep). A
   * cancelled or already finished flush does nothing; otherwise the entry,
   * if there is one, is popped and its messages are handed on.
   */
  function Fire(s: State, t: Token): (Option<Dispatch>, State) {
    if t !in s.pending then (None, s)
    else
      var key := s.pending[t];
      var pending := s.pending - {t};
      if key !in s.groups then (None, s.(pending := pending))
      else (Some(Dispatch(key, s.groups[key].messages)), State(s.groups - {key}, pending, s.nextToken))
  }

  /** In a consistent state, an album is open exactly when a flush is scheduled for it. */
  lemma OpenIffScheduled(s: State, k: Key)
    requires Consistent(s)
    ensures k in s.groups <==> exists t :: t in s.pending && s.pending[t] == k
    ensures k in s.groups ==> forall t :: t in s.pending && s.pending[t] == k ==> s.groups[k].flushTask == Some(t)
  {
    if k in s.groups {
      var t := s.groups[k].flushTask.value;
      assert t in s.pending && s.pending[t] == k;
    }
  }

  /**
   * Buffering appends the message to its album (a fresh one when none was
   * open), cancels the album's previous flush, schedules a new one for the
   * album, and leaves every other album and every other flush alone.
   */
  lemma ObserveEffect(s: State, key: Key, m: Message)
    requires Consistent(s)
    ensures var s' := Observe(s, key, m);
            && key in s'.groups
            && s'.groups[key].messages == (if key in s.groups then s.groups[key].messages else []) + [m]
            && s'.groups[key].flushTask == Some(s.nextToken)
            && s'.nextToken == s.nextToken + 1
            && s.nextToken in s'.pending && s'.pending[s.nextToken] == key
            && (key in s.groups ==> s.groups[key].flushTask.value !in s'.pending)
            && (forall k :: k != key ==> (k in s'.groups <==> k in s.groups))
            && (forall k :: k != key && k in s.groups ==> s'.groups[k] == s.groups[k])
            && (forall t :: t in s.pending && s.pending[t] != key ==> t in s'.pending && s'.pending[t] == s.pending[t])
  {
    var s' := Observe(s, key, m);
    if key in s.groups {
      var prev := s.groups[key].flushTask.value;
      assert prev < s.nextToken;
    }
  }

  /** Buffering keeps the invariant. */
  lemma ObserveConsistent(s: State, key: Key, m: Message)
    requires Consistent(s)
    ensures Consistent(Observe(s, key, m))
  {
    var s' := Observe(s, key, m);
    ObserveEffect(s, key, m);
    forall t | t in s'.pending
      ensures t < s'.nextToken && s'.pending[t] in s'.groups && s'.groups[s'.pending[t]].flushTask == Some(t)
    {
      if t != s.nextToken {
        assert t in s.pending;
        var k := s.pending[t];
        assert s.groups[k].flushTask == Some(t);
      }
    }
  }

  /** Handling any update keeps the invariant. */
  lemma HandleConsistent(s: State, msg: Option<Message>)
    requires Consistent(s)
    ensures Consistent(Handle(s, msg).1)
  {
    if msg.Some? && !msg.value.isService && KeyOf(msg.value).Some? {
      ObserveConsistent(s, KeyOf(msg.value).value, msg.value);
    }
  }

  /**
   * A flush that was cancelled or has already run does nothing. A scheduled
   * flush removes its album's key before handing on exactly that album's
   * messages, and leaves the other albums alone.
   */
  lemma FireEffect(s: State, t: Token)
    requires Consistent(s)
    ensures t !in s.pending ==> Fire(s, t) == (None, s)
    ensures t in s.pending ==>
              var key := s.pending[t];
              var (d, s') := Fire(s, t);
              && d == Some(Dispatch(key, s.groups[key].messages))
              && key !in s'.groups
              && t !in s'.pending
              && (forall k :: k != key ==> (k in s'.groups <==> k in s.groups))
              && (forall k :: k != key && k in s.groups ==> s'.groups[k] == s.groups[k])
  {
  }

  /** A flush keeps the invariant. */
  lemma FireConsistent(s: State, t: Token)
    requires Consistent(s)
    ensures Consistent(Fire(s, t).1)
  {
    if t in s.pending {
      var key := s.pending[t];
      var s' := Fire(s, t).1;
      forall u | u in s'.pending
        ensures s'.pending[u] in s'.groups
      {
        assert u in s.pending && u != t;
        assert s.groups[s.pending[u]].flushTask == Some(u);
      }
    }
  }

  /** Buffering the messages `ms` of one album one after the other. */
  function ObserveAll(s: State, key: Key, ms: seq<Message>): State {
    if ms == [] then s else Observe(ObserveAll(s, key, ms[..|ms| - 1]), key, ms[|ms| - 1])
  }

  /**
   * A burst of messages into an album that was not open keeps the
   * invariant, hands out one token per message, and every flush scheduled
   * during the burst that is still pending is for that album.
   */
  lemma {:induction false} BurstTokens(s: State, key: Key, ms: seq<Message>)
    requires Consistent(s)
    ensures var s' := ObserveAll(s, key, ms);
            && Consistent(s')
            && s'.nextToken == s.nextToken + |ms|
            && (forall t :: t in s'.pending && t >= s.nextToken ==> s'.pending[t] == key)
  {
    if ms != [] {
      var p := ObserveAll(s, key, ms[..|ms| - 1]);
      BurstTokens(s, key, ms[..|ms| - 1]);
      ObserveEffect(p, key, ms[|ms| - 1]);
      ObserveConsistent(p, key, ms[|ms| - 1]);
    }
  }

  /** Buffering appends the message to whatever its album held: nothing, when it was not open. */
  lemma ObserveAppends(s: State, key: Key, m: Message)
    ensures key in Observe(s, key, m).groups
    ensures Observe(s, key, m).groups[key].messages ==
            (if key in s.groups then s.groups[key].messages else []) + [m]
  {
  }

  /** A burst into an album that was not open leaves it holding exactly the burst, in arrival order. */
  lemma {:induction false} BurstAccumulates(s: State, key: Key, ms: seq<Message>)
    requires key !in s.groups
    ensures var s' := ObserveAll(s, key, ms);
            && (ms == [] ==> key !in s'.groups)
            && (ms != [] ==> key in s'.groups && s'.groups[key].messages == ms)
  {
    if ms != [] {
      var init := ms[..|ms| - 1];
      var m := ms[|ms| - 1];
      var p := ObserveAll(s, key, init);
      assert ObserveAll(s, key, ms) == Observe(p, key, m);
      BurstAccumulates(s, key, init);
      ObserveAppends(p, key, m);
      FrontLast(ms);
    }
  }

  /** A burst into one album leaves every other album as it was. */
  lemma {:induction false} BurstLeavesOthers(s: State, key: Key, ms: seq<Message>)
    requires Consistent(s)
    ensures var s' := ObserveAll(s, key, ms);
            && (forall k :: k != key ==> (k in s'.groups <==> k in s.groups))
            && (forall k :: k != key && k in s.groups ==> s'.groups[k] == s.groups[k])
  {
    if ms != [] {
      var p := ObserveAll(s, key, ms[..|ms| - 1]);
      BurstLeavesOthers(s, key, ms[..|ms| - 1]);
      BurstTokens(s, key, ms[..|ms| - 1]);
      ObserveEffect(p, key, ms[|ms| - 1]);
    }
  }

  /**
   * After a non-empty burst only the flush scheduled for its last message
   * is still pending among those scheduled during the burst.
   */
  lemma BurstKeepsLastFlush(s: State, key: Key, ms: seq<Message>)
    requires Consistent(s) && ms != []
    ensures var s' := ObserveAll(s, key, ms);
            && s'.nextToken - 1 in s'.pending
            && s'.pending[s'.nextToken - 1] == key
            && (forall t :: s.nextToken <= t < s'.nextToken - 1 ==> t !in s'.pending)
  {
    var p := ObserveAll(s, key, ms[..|ms| - 1]);
    BurstTokens(s, key, ms);
    BurstTokens(s, key, ms[..|ms| - 1]);
    ObserveEffect(p, key, ms[|ms| - 1]);
  }

  /**
   * An album is flushed exactly once, with all its messages in arrival
   * order: the flushes scheduled for earlier messages of the burst do
   * nothing, the last one hands on the whole burst and closes the album,
   * and running out again it does nothing.
   */
  lemma BurstFlushedOnce(s: State, key: Key, ms: seq<Message>)
    requires Consistent(s) && key !in s.groups && ms != []
    ensures var s' := ObserveAll(s, key, ms);
            var last := s'.nextToken - 1;
            && (forall t :: s.nextToken <= t < last ==> Fire(s', t) == (None, s'))
            && Fire(s', last).0 == Some(Dispatch(key, ms))
            && key !in Fire(s', last).1.groups
            && Fire(Fire(s', last).1, last) == (None, Fire(s', last).1)
  {
    BurstAccumulates(s, key, ms);
    BurstKeepsLastFlush(s, key, ms);
  }

  /** A message for an album that was flushed starts a fresh album holding just that message. */
  lemma FreshAfterFlush(s: State, t: Token, m: Message)
    requires Consistent(s) && t in s.pending && KeyOf(m) == Some(s.pending[t])
    ensures var s' := Fire(s, t).1;
            var key := s.pending[t];
            Observe(s', key, m).groups[key].messages == [m]
  {
    FireConsistent(s, t);
    ObserveEffect(Fire(s, t).1, s.pending[t], m);
  }

  /**
   * `media_groups` and the flush tasks, updated in place by
   * `handle_incoming_post` and `flush_media_group`.
   */
  class MediaGroups {
    var groups: map<Key, Group>
    var pending: map<Token, Key>
    var nextToken: nat

    function Snapshot(): State
      reads this
    {
      State(groups, pending, nextToken)
    }

    constructor ()
      ensures Snapshot() == Empty
      ensures Consistent(Snapshot())
    {
      groups := map[];
      pending := map[];
      nextToken := 0;
    }

    /** `handle_incoming_post`: ignore, send at once, or buffer and reschedule the flush. */
    method HandleIncomingPost(msg: Option<Message>) returns (a: Arrival)
      modifies this
      ensures (a, Snapshot()) == Handle(old(Snapshot()), msg)
      ensures old(Consistent(Snapshot())) ==> Consistent(Snapshot())
    {
      ghost var s := Snapshot();
      if msg.None? || msg.value.isService {
        return Ignored;
      }
      var m := msg.value;
      if m.mediaGroupId == "" {
        return Immediate([m]);
      }
      var key := Key(m.chatId, m.mediaGroupId);
      if key !in groups {
        groups := groups[key := Group([], None)];
      }
      var group := groups[key];
      group := group.(messages := group.messages + [m]);
      match group.flushTask {
        case Some(prev) =>
          if prev in pending {
            pending := pending - {prev};
          } else {
            assert pending - {prev} == pending;
          }
        case None =>
      }
      var task := nextToken;
      nextToken := nextToken + 1;
      pending := pending[task := key];
      groups := groups[key := group.(flushTask := Some(task))];
      a := Buffered(key, task);
      assert Snapshot() == Observe(s, key, m);
      if Consistent(s) {
        HandleConsistent(s, msg);
      }
    }

    /** `flush_media_group` once token `t`'s delay has run out. */
    method FlushMediaGroup(t: Token) returns (d: Option<Dispatch>)
      modifies this
      ensures (d, Snapshot()) == Fire(old(Snapshot()), t)
      ensures old(Consistent(Snapshot())) ==> Consistent(Snapshot())
    {
      ghost var s := Snapshot();
      if t !in pending {
        return None;
      }
      var key := pending[t];
      pending := pending - {t};
      if key !in groups {
        return None;
      }
      var messages := groups[key].messages;
      groups := groups - {key};
      d := Some(Dispatch(key, messages));
      if Consistent(s) {
        FireConsistent(s, t);
      }
    }
  }
}
