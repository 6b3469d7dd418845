/**
 The LDAP request pipeline (db-ldap.c): one queue whose first `pendingCount` entries have been
 sent and whose rest has not, and a connection that is disconnected, binding, bound as a
 user or bound as the default dn.

 The LDAP library is a function from the number of questions asked so far to its next answer; what is
 proved holds for every such function.  A new message id is one that the library never returned before.
 Callbacks only record that a request is finished.
 */
module LdapConnection {

  /** No more requests are sent while more than this many are waiting for their reply. */
  const MAX_PENDING := 8
  const LOST_SECS := 60
  const DISCONNECT_SECS := 4
  const UINT_MAX := 0xFFFF_FFFF

  datatype Kind = Search(multiEntry: bool) | UserBind

  /** `msgid` is -1 until the request is sent; `saved` says that an entry has been kept for it. */
  datatype Request = Request(serial: nat, kind: Kind, created: int, msgid: int, failed: bool, saved: bool)

  datatype State = Disconnected | Binding | BoundAuth | BoundDefault

  datatype Timer = NoTimer | BindTimer | DisconnectTimer | DelayTimer

  /** What the library says when it is given an operation to send. */
  datatype Sending = Accepted | Malformed | ConnectionLost

  /** What the library answers when it is asked next: about an operation, a bind as default dn or starting TLS. */
  datatype Answer = Answer(sending: Sending, ok: bool)

  datatype Code = Success | NoSuchObject | OtherError

  datatype Message = Entry | Reference | Unexpected | Finish(code: Code)

  /** What becomes of the follow-up query after the last entry of a search. */
  datatype FollowUp = NoneNeeded | QuerySent | QueryFailed

  /** What `QueueNext` did. */
  datatype Step = Idle | Rebind | Sent | Lost | Rejected

  /** What can happen to a connection. */
  datatype Event =
    | NewRequest(kind: Kind)
    | Reply(msgid: nat, msg: Message, follow: FollowUp)
    | InputDrained
    | InputFailed(reopen: bool)
    | BindTimerFires
    | DisconnectTimerFires
    | DelayTimerFires
    | TimePasses(secs: nat)

  /** How many requests are submitted, and how much time passes. */
  ghost function Submissions(events: seq<Event>): nat {
    if events == [] then 0
    else Submissions(events[..|events| - 1]) + if events[|events| - 1].NewRequest? then 1 else 0
  }

  ghost function Elapsed(events: seq<Event>): nat {
    if events == [] then 0
    else Elapsed(events[..|events| - 1]) + if events[|events| - 1].TimePasses? then events[|events| - 1].secs else 0
  }

  // ---------------------------------------------------------------- invariant

  /** Exactly the first `pending` requests are sent, under distinct ids. */
  ghost predicate SentPrefix(queue: seq<Request>, pending: nat, nextMsgid: nat) {
    && pending <= |queue|
    && (forall i :: 0 <= i < pending ==> 0 <= queue[i].msgid < nextMsgid)
    && (forall i, j :: 0 <= i < j < pending ==> queue[i].msgid != queue[j].msgid)
    && (forall i :: pending <= i < |queue| ==> queue[i].msgid == -1)
  }

  /** Section 4.2.1 of RFC 4511: while a bind is outstanding nothing else is. */
  ghost predicate Phase(state: State, defaultMsgid: int, queue: seq<Request>, pending: nat, nextMsgid: nat) {
    && pending <= |queue| && pending <= MAX_PENDING + 1
    && -1 <= defaultMsgid < nextMsgid
    && match state
       case Disconnected => pending == 0 && defaultMsgid == -1
       case Binding => if defaultMsgid != -1 then pending == 0 else pending == 1 && queue[0].kind.UserBind?
       case BoundAuth => pending == 0 && defaultMsgid == -1
       case BoundDefault => defaultMsgid == -1 && forall i :: 0 <= i < pending ==> queue[i].kind.Search?
  }

  ghost function Serials(queue: seq<Request>): set<nat> {
    set i | 0 <= i < |queue| :: queue[i].serial
  }

  /** Every request ever submitted is either in the queue, once and in submission order, or finished. */
  ghost predicate History(queue: seq<Request>, finished: set<nat>, submitted: nat) {
    && (forall i, j :: 0 <= i < j < |queue| ==> queue[i].serial < queue[j].serial)
    && Serials(queue) !! finished
    && (forall s :: s in Serials(queue) ==> s < submitted)
    && (forall s :: s in finished ==> s < submitted)
    && (forall s :: 0 <= s < submitted ==> s in Serials(queue) || s in finished)
  }

  // --------------------------------------------------------- queue operations

  function RemoveAt(queue: seq<Request>, i: nat): seq<Request>
    requires i < |queue|
  {
    queue[..i] + queue[i + 1..]
  }

  /** The queue with every request marked as not sent. */
  function Unsent(queue: seq<Request>): (r: seq<Request>)
    ensures |r| == |queue|
    ensures forall i :: 0 <= i < |r| ==> r[i] == queue[i].(msgid := -1)
  {
    seq(|queue|, i requires 0 <= i < |queue| => queue[i].(msgid := -1))
  }

  lemma NoneSent(queue: seq<Request>, nextMsgid: nat)
    requires SentPrefix(queue, 0, nextMsgid)
    ensures Unsent(queue) == queue
  {
  }

  lemma FinishOne(queue: seq<Request>, finished: set<nat>, submitted: nat, i: nat)
    requires History(queue, finished, submitted) && i < |queue|
    ensures History(RemoveAt(queue, i), finished + {queue[i].serial}, submitted)
  {
    var rest := RemoveAt(queue, i);
    assert queue[i].serial in Serials(queue);
    forall s | s in Serials(queue) - {queue[i].serial}
      ensures s in Serials(rest)
    {
      var j :| 0 <= j < |queue| && queue[j].serial == s;
      assert rest[if j < i then j else j - 1] == queue[j];
    }
    assert Serials(rest) == Serials(queue) - {queue[i].serial};
  }

  lemma NoSerials()
    ensures Serials([]) == {}
  {
  }

  lemma SerialsGrow(queue: seq<Request>, n: nat)
    requires n < |queue|
    ensures Serials(queue[..n + 1]) == Serials(queue[..n]) + {queue[n].serial}
  {
    forall s | s in Serials(queue[..n]) + {queue[n].serial}
      ensures s in Serials(queue[..n + 1])
    {
      assert queue[..n + 1][n] == queue[n];
      if s in Serials(queue[..n]) {
        var i :| 0 <= i < n && queue[..n][i].serial == s;
        assert queue[..n + 1][i].serial == s;
      }
    }
  }

  /** Replacing requests without touching their serials changes nothing in the history. */
  lemma SameSerials(queue: seq<Request>, other: seq<Request>, finished: set<nat>, submitted: nat)
    requires History(queue, finished, submitted)
    requires |other| == |queue| && forall i :: 0 <= i < |queue| ==> other[i].serial == queue[i].serial
    ensures History(other, finished, submitted)
  {
    assert Serials(other) == Serials(queue);
  }

  lemma Append(queue: seq<Request>, r: Request, finished: set<nat>, submitted: nat)
    requires History(queue, finished, submitted) && r.serial == submitted
    ensures History(queue + [r], finished, submitted + 1)
  {
    forall i | 0 <= i < |queue|
      ensures queue[i].serial < submitted
    {
      assert queue[i].serial in Serials(queue);
    }
    var longer := queue + [r];
    assert longer[|queue|] == r;
    assert Serials(longer) == Serials(queue) + {submitted} by {
      forall s | s in Serials(queue)
        ensures s in Serials(longer)
      {
        var i :| 0 <= i < |queue| && queue[i].serial == s;
        assert longer[i] == queue[i];
      }
    }
  }

  /**
   Removing the oldest entry while a later one was rejected keeps the sent prefix exactly when nothing was pending.
   */
  lemma RejectKeepsPrefix(queue: seq<Request>, pending: nat, nextMsgid: nat)
    requires SentPrefix(queue, pending, nextMsgid) && pending < |queue|
    ensures SentPrefix(queue[1..], pending, nextMsgid) <==> pending == 0
    ensures queue[pending].msgid == -1
  {
    if pending > 0 && pending <= |queue[1..]| {
      assert queue[1..][pending - 1] == queue[pending];
    }
  }

  lemma RejectKeepsPhase(state: State, defaultMsgid: int, queue: seq<Request>, pending: nat, nextMsgid: nat)
    requires Phase(state, defaultMsgid, queue, pending, nextMsgid) && queue != [] && state in {BoundAuth, BoundDefault}
    ensures pending == 0 ==> Phase(state, defaultMsgid, queue[1..], 0, nextMsgid)
  {
  }

  /** The longest run of requests at the front, at most `max` of them, that are at least `secs` old. */
  function Aged(queue: seq<Request>, max: nat, secs: int, now: int): (n: nat)
    ensures n <= |queue| && n <= max
  {
    if queue == [] || max == 0 || now - queue[0].created < secs then 0
    else 1 + Aged(queue[1..], max - 1, secs, now)
  }

  /** Dropping the oldest request keeps the sent prefix. */
  lemma DropOldest(queue: seq<Request>, pending: nat, nextMsgid: nat)
    requires SentPrefix(queue, pending, nextMsgid) && queue != []
    ensures queue[0].msgid != -1 <==> pending > 0
    ensures SentPrefix(queue[1..], if pending > 0 then pending - 1 else 0, nextMsgid)
  {
  }

  lemma AppendUnsent(queue: seq<Request>, r: Request, pending: nat, nextMsgid: nat)
    requires SentPrefix(queue, pending, nextMsgid) && r.msgid == -1
    ensures SentPrefix(queue + [r], pending, nextMsgid)
  {
  }

  /** A pending request keeps its id or gets a new one. */
  lemma ReplacePending(queue: seq<Request>, pending: nat, nextMsgid: nat, i: nat, r: Request)
    requires SentPrefix(queue, pending, nextMsgid) && i < pending && (r.msgid == queue[i].msgid || r.msgid == nextMsgid)
    ensures SentPrefix(queue[i := r], pending, if r.msgid == nextMsgid then nextMsgid + 1 else nextMsgid)
  {
  }

  /** While a search is pending, replies keep the connection bound as default dn. */
  lemma SearchPhase(state: State, defaultMsgid: int, queue: seq<Request>, pending: nat, nextMsgid: nat, i: nat,
                    r: Request)
    requires Phase(state, defaultMsgid, queue, pending, nextMsgid) && i < pending
    requires queue[i].kind.Search? && r.kind.Search?
    ensures state == BoundDefault && i < |queue| && pending <= |queue|
    ensures Phase(state, defaultMsgid, RemoveAt(queue, i), pending - 1, nextMsgid)
    ensures Phase(state, defaultMsgid, queue[i := r], pending, nextMsgid)
    ensures Phase(state, defaultMsgid, queue[i := r], pending, nextMsgid + 1)
  {
  }

  /** A user's bind is pending alone; its reply leaves a bound connection with nothing pending. */
  lemma BindPhase(state: State, defaultMsgid: int, queue: seq<Request>, pending: nat, nextMsgid: nat, i: nat)
    requires Phase(state, defaultMsgid, queue, pending, nextMsgid) && i < pending && queue[i].kind.UserBind?
    ensures state == Binding && pending == 1 && i < |queue|
    ensures Phase(BoundAuth, defaultMsgid, RemoveAt(queue, i), 0, nextMsgid)
    ensures !Phase(BoundAuth, defaultMsgid, queue, pending, nextMsgid)
  {
  }

  lemma RemovePending(queue: seq<Request>, pending: nat, nextMsgid: nat, i: nat)
    requires SentPrefix(queue, pending, nextMsgid) && i < pending
    ensures SentPrefix(RemoveAt(queue, i), pending - 1, nextMsgid)
  {
  }

  // ------------------------------------------------------------------ replies

  /** The reply is the last one for its request. */
  predicate Ends(r: Request, msg: Message, follow: FollowUp) {
    if r.kind.UserBind? then !msg.Entry?
    else msg.Finish? && !(msg.code == Success && !r.kind.multiEntry && follow == QuerySent)
  }

  /** The reply is the last one and is handed to the callback, which otherwise learns of a failure. */
  predicate Result(r: Request, msg: Message, follow: FollowUp) {
    && Ends(r, msg, follow) && !r.failed
    && (r.kind.UserBind? || (msg.Finish? && msg.code != OtherError && !(msg.code == Success && !r.kind.multiEntry
                                                                        && follow == QueryFailed)))
  }

  lemma ResultEnds(r: Request, msg: Message, follow: FollowUp)
    ensures Result(r, msg, follow) ==> Ends(r, msg, follow)
  {
  }

  /** The reply makes a callback. */
  predicate Reports(r: Request, msg: Message, follow: FollowUp) {
    Ends(r, msg, follow) || (msg.Entry? && (r.kind.UserBind? || r.kind.multiEntry))
  }

  /** A request that stays in the queue after a reply. */
  function Updated(r: Request, msg: Message, nextMsgid: nat): Request {
    if r.kind.UserBind? || r.kind.multiEntry then r
    else match msg
      case Entry => if r.saved then r.(failed := true, saved := false) else r.(saved := true)
      case Finish(_) => r.(msgid := nextMsgid, saved := false)
      case Unexpected => r.(saved := false)
      case Reference => r
  }

  /** Exactly the old requests at the front are aborted: all of them, up to `max`, before the first younger one. */
  lemma {:induction false} AgedExactly(queue: seq<Request>, max: nat, secs: int, now: int)
    ensures var n := Aged(queue, max, secs, now);
            && (forall i :: 0 <= i < n ==> now - queue[i].created >= secs)
            && (n < |queue| && n < max ==> now - queue[n].created < secs)
  {
    if queue != [] && max > 0 && now - queue[0].created >= secs {
      AgedExactly(queue[1..], max - 1, secs, now);
    }
  }

  lemma AgedNone(max: nat)
    ensures max == 0 ==> forall queue, secs, now :: Aged(queue, max, secs, now) == 0
  {
  }

  /** The pending requests for which a reply under `msgid` is the last one. */
  ghost function LastReplyTo(queue: seq<Request>, pending: nat, msgid: int, msg: Message, follow: FollowUp): set<nat> {
    set i | 0 <= i < |queue| && i < pending && queue[i].msgid == msgid
            && (if queue[i].kind.UserBind? then !msg.Entry?
                else msg.Finish? && (follow != QuerySent || msg.code != Success || queue[i].kind.multiEntry))
          :: queue[i].serial
  }

  /** The queue after a reply to the search at `i`, before old requests ahead of it are aborted. */
  ghost function Settled(queue: seq<Request>, i: nat, msg: Message, follow: FollowUp, nextMsgid: nat): seq<Request>
    requires i < |queue|
  {
    if Ends(queue[i], msg, follow) then RemoveAt(queue, i) else queue[i := Updated(queue[i], msg, nextMsgid)]
  }

  /** How many requests ahead of `i` are aborted with a reply to it. */
  ghost function LostAhead(queue: seq<Request>, i: nat, msg: Message, follow: FollowUp, nextMsgid: nat, now: int)
    : (n: nat)
    requires i < |queue|
    ensures n <= i && n <= |Settled(queue, i, msg, follow, nextMsgid)|
  {
    if Reports(queue[i], msg, follow) then Aged(Settled(queue, i, msg, follow, nextMsgid), i, LOST_SECS, now) else 0
  }

  ghost function FinishedBy(queue: seq<Request>, finished: set<nat>, i: nat, msg: Message, follow: FollowUp,
                            nextMsgid: nat, now: int): set<nat>
    requires i < |queue|
  {
    finished + (if Ends(queue[i], msg, follow) then {queue[i].serial} else {})
    + Serials(Settled(queue, i, msg, follow, nextMsgid)[..LostAhead(queue, i, msg, follow, nextMsgid, now)])
  }

  ghost function QueueAfter(queue: seq<Request>, i: nat, msg: Message, follow: FollowUp, nextMsgid: nat, now: int)
    : seq<Request>
    requires i < |queue|
  {
    Settled(queue, i, msg, follow, nextMsgid)[LostAhead(queue, i, msg, follow, nextMsgid, now)..]
  }

  lemma PrefixSerials(queue: seq<Request>, finished: set<nat>, submitted: nat, n: nat, j: nat)
    requires History(queue, finished, submitted) && n <= |queue| && j < |queue|
    ensures queue[j].serial in Serials(queue[..n]) <==> j < n
    ensures queue[j].serial !in finished
  {
    assert queue[j].serial in Serials(queue);
    if j < n {
      assert queue[..n][j] == queue[j];
    }
  }

  lemma StillQueued(queue: seq<Request>, i: nat, settled: seq<Request>, ends: bool, n: nat)
    requires n <= i < |queue|
    requires if ends then settled == RemoveAt(queue, i)
             else exists r: Request :: settled == queue[i := r] && r.serial == queue[i].serial
    ensures settled[..n] == queue[..n]
    ensures forall j :: n <= j < |queue| && j != i ==> queue[j] in settled[n..]
    ensures !ends ==> queue[i].serial in Serials(settled[n..])
  {
    forall j | n <= j < |queue| && j != i
      ensures queue[j] in settled[n..]
    {
      assert settled[n..][if ends && j > i then j - 1 - n else j - n] == queue[j];
    }
    if !ends {
      assert settled[n..][i - n].serial == queue[i].serial;
    }
  }

  lemma TakenOut(queue: seq<Request>, finished: set<nat>, submitted: nat, i: nat, n: nat)
    requires History(queue, finished, submitted) && n <= i < |queue|
    ensures queue[i].serial !in Serials(RemoveAt(queue, i)[n..])
  {
    var rest := RemoveAt(queue, i)[n..];
    assert forall m :: 0 <= m < |rest| ==> rest[m] == queue[if m + n < i then m + n else m + n + 1];
  }

  /** The request at `i` is taken out or replaced, and then `n` requests ahead of it are taken out. */
  lemma Fates(queue: seq<Request>, finished: set<nat>, submitted: nat, i: nat, settled: seq<Request>, ends: bool,
              n: nat)
    requires History(queue, finished, submitted) && n <= i < |queue|
    requires if ends then settled == RemoveAt(queue, i)
             else exists r: Request :: settled == queue[i := r] && r.serial == queue[i].serial
    ensures var finished' := finished + (if ends then {queue[i].serial} else {}) + Serials(settled[..n]);
            && (queue[i].serial in finished' <==> ends) && (queue[i].serial in Serials(settled[n..]) <==> !ends)
            && (forall j :: 0 <= j < |queue| && j != i ==> (queue[j].serial in finished' <==> j < n))
            && (forall j :: n <= j < |queue| && j != i ==> queue[j] in settled[n..])
  {
    StillQueued(queue, i, settled, ends, n);
    TakenOut(queue, finished, submitted, i, n);
    assert forall j :: 0 <= j < |queue| && j != i ==> queue[j].serial != queue[i].serial;
    hide History, Serials, RemoveAt;
    forall j | 0 <= j < |queue|
      ensures queue[j].serial !in finished && (queue[j].serial in Serials(settled[..n]) <==> j < n)
    {
      PrefixSerials(queue, finished, submitted, n, j);
    }
  }

  /**
   What a reply to the search at `i` does.  Its last reply takes it out of the queue and finishes it, with a result
   unless the search failed, the follow-up query failed or a second entry came; any other reply leaves it queued and
   unfinished.  Of the others exactly the old ones at the front are failed, up to this one, if the reply makes a
   callback: if it is the last one or an entry of a search that may have many.
   */
  ghost predicate SearchReplied(queue: seq<Request>, i: nat, msg: Message, follow: FollowUp, now: int,
                                after: seq<Request>, finished: set<nat>, served: set<nat>)
    requires i < |queue| && queue[i].kind.Search?
  {
    var r := queue[i];
    var last := msg.Finish? && (follow != QuerySent || msg.code != Success || r.kind.multiEntry);
    && (r.serial in finished <==> last) && (r.serial in Serials(after) <==> !last)
    && (r.serial in served <==> last && !r.failed && msg.code != OtherError
                                && (msg.code == Success && !r.kind.multiEntry ==> follow != QueryFailed))
    && (forall j :: 0 <= j < |queue| && j != i ==>
          (queue[j].serial in finished <==>
           && (last || (msg.Entry? && r.kind.multiEntry)) && j < i
           && forall m :: 0 <= m <= j ==> now - queue[m].created >= 60))
    && (forall j :: 0 <= j < |queue| && j != i && queue[j].serial !in finished ==> queue[j] in after)
  }

  /**
   What a reply to the request at `i` does.  For a user's bind it leaves the connection bound as that user and, unless
   it is an entry, finishes the bind.
   */
  ghost predicate RepliedAt(queue: seq<Request>, finished: set<nat>, state: State, nextMsgid: nat, i: nat,
                            msg: Message, follow: FollowUp, now: int, stateAfter: State, after: seq<Request>,
                            finishedAfter: set<nat>, served: set<nat>)
    requires i < |queue|
  {
    if queue[i].kind.UserBind? then
      && stateAfter == BoundAuth
      && (!msg.Entry? ==>
            after == queue[..i] + queue[i + 1..] && finishedAfter == finished + {queue[i].serial})
    else
      && stateAfter == state && after == QueueAfter(queue, i, msg, follow, nextMsgid, now)
      && SearchReplied(queue, i, msg, follow, now, after, finishedAfter, served)
  }

  /** The requests aborted ahead of `i` are old, and all old ones at the front are aborted after a callback alone. */
  lemma LostAreOld(queue: seq<Request>, i: nat, msg: Message, follow: FollowUp, nextMsgid: nat, now: int)
    requires i < |queue|
    ensures var n := LostAhead(queue, i, msg, follow, nextMsgid, now);
            && (forall j :: 0 <= j < n ==> now - queue[j].created >= 60)
            && (Reports(queue[i], msg, follow) && n < i ==> now - queue[n].created < 60)
            && n <= i && (!Reports(queue[i], msg, follow) ==> n == 0)
  {
    var settled := Settled(queue, i, msg, follow, nextMsgid);
    AgedExactly(settled, i, LOST_SECS, now);
    hide Aged, Ends, Updated, Reports;
    assert forall j :: 0 <= j < i ==> settled[j] == queue[j];
  }

  lemma SettledIs(queue: seq<Request>, i: nat, msg: Message, follow: FollowUp, nextMsgid: nat)
    requires i < |queue|
    ensures var settled := Settled(queue, i, msg, follow, nextMsgid);
            if Ends(queue[i], msg, follow) then settled == RemoveAt(queue, i)
            else exists r: Request :: settled == queue[i := r] && r.serial == queue[i].serial
  {
    UpdatedMeans(queue[i], msg, nextMsgid);
    hide Ends, RemoveAt;
    assert Updated(queue[i], msg, nextMsgid).serial == queue[i].serial;
  }

  lemma ReplyMeans(queue: seq<Request>, finished: set<nat>, served: set<nat>, submitted: nat, i: nat, msg: Message,
                   follow: FollowUp, nextMsgid: nat, now: int)
    requires History(queue, finished, submitted) && i < |queue| && queue[i].kind.Search? && served <= finished
    ensures SearchReplied(queue, i, msg, follow, now, QueueAfter(queue, i, msg, follow, nextMsgid, now),
                          FinishedBy(queue, finished, i, msg, follow, nextMsgid, now),
                          served + if Result(queue[i], msg, follow) then {queue[i].serial} else {})
    ensures Ends(queue[i], msg, follow) ==>
              queue[i].serial in FinishedBy(queue, finished, i, msg, follow, nextMsgid, now)
  {
    hide Aged, History, Serials, Updated, Settled, LostAhead, RemoveAt;
    var n := LostAhead(queue, i, msg, follow, nextMsgid, now);
    LostAreOld(queue, i, msg, follow, nextMsgid, now);
    InQueue(queue, finished, submitted, i);
    SettledIs(queue, i, msg, follow, nextMsgid);
    Fates(queue, finished, submitted, i, Settled(queue, i, msg, follow, nextMsgid), Ends(queue[i], msg, follow), n);
  }

  /**
   A request that stays keeps what it is.  Its id changes with a follow-up query alone, and it is marked as failed with
   the second entry for a search that may have only one.  Only a reference keeps an entry that was saved.
   */
  lemma UpdatedMeans(r: Request, msg: Message, nextMsgid: nat)
    ensures var kept := Updated(r, msg, nextMsgid);
            && kept.serial == r.serial && kept.kind == r.kind && kept.created == r.created
            && (r.kind == Search(false) ==>
                  && kept.msgid == (if msg.Finish? then nextMsgid else r.msgid)
                  && (kept.failed <==> r.failed || (msg.Entry? && r.saved))
                  && (kept.saved <==> (msg.Entry? && !r.saved) || (msg.Reference? && r.saved)))
            && (r.kind != Search(false) ==> kept == r)
  {
  }

  /** No two pending requests share an id. */
  lemma OneHolder(queue: seq<Request>, pending: nat, nextMsgid: nat, msgid: nat, msg: Message, follow: FollowUp)
    requires SentPrefix(queue, pending, nextMsgid)
    ensures pending <= |queue|
    ensures forall i :: 0 <= i < pending && queue[i].msgid == msgid ==>
              LastReplyTo(queue, pending, msgid, msg, follow)
              == if (if queue[i].kind.UserBind? then !msg.Entry?
                     else msg.Finish? && (follow != QuerySent || msg.code != Success || queue[i].kind.multiEntry))
                 then {queue[i].serial} else {}
    ensures (forall i :: 0 <= i < pending ==> queue[i].msgid != msgid) ==>
              LastReplyTo(queue, pending, msgid, msg, follow) == {}
  {
  }

  lemma OnlyHolder(queue: seq<Request>, pending: nat, nextMsgid: nat, idx: nat)
    requires SentPrefix(queue, pending, nextMsgid) && idx < pending
    ensures pending <= |queue|
    ensures forall i :: 0 <= i < pending && queue[i].msgid == queue[idx].msgid ==> i == idx
  {
  }

  lemma InQueue(queue: seq<Request>, finished: set<nat>, submitted: nat, i: nat)
    requires History(queue, finished, submitted) && i < |queue|
    ensures queue[i].serial in Serials(queue) && queue[i].serial !in finished
  {
  }

  /** While the bind as default dn is outstanding nothing is pending. */
  lemma BindAlone(state: State, defaultMsgid: int, queue: seq<Request>, pending: nat, nextMsgid: nat, msgid: nat,
                  msg: Message, follow: FollowUp)
    requires Phase(state, defaultMsgid, queue, pending, nextMsgid) && defaultMsgid == msgid
    ensures pending == 0 && LastReplyTo(queue, pending, msgid, msg, follow) == {}
  {
  }

  lemma SendFirst(queue: seq<Request>, pending: nat, nextMsgid: nat)
    requires SentPrefix(queue, pending, nextMsgid) && pending < |queue|
    ensures SentPrefix(SentUnder(queue, pending, nextMsgid), pending + 1, nextMsgid + 1)
  {
  }

  lemma SendPhase(state: State, defaultMsgid: int, queue: seq<Request>, pending: nat, nextMsgid: nat)
    requires Phase(state, defaultMsgid, queue, pending, nextMsgid) && pending < |queue| && pending <= MAX_PENDING
    requires if queue[pending].kind.UserBind? then state in {BoundAuth, BoundDefault} && pending == 0
             else state == BoundDefault
    ensures var after := if queue[pending].kind.UserBind? then Binding else state;
            defaultMsgid == -1
            && Phase(after, defaultMsgid, SentUnder(queue, pending, nextMsgid), pending + 1, nextMsgid + 1)
  {
  }

  /**
   The oldest request has vanished without a callback, and the one at `pending`, which had its callback, is still
   queued.  It counts as pending though it was never sent, which the next `db_ldap_conn_close` asserts against.
   */
  ghost predicate Misplaced(before: seq<Request>, pending: nat, queue: seq<Request>, finished: set<nat>)
    requires 0 < pending < |before|
  {
    && before[0].serial !in Serials(queue) && before[0].serial !in finished
    && before[pending].serial in Serials(queue) && before[pending].serial in finished
    && pending <= |queue| && queue[pending - 1].msgid == -1
  }

  lemma Misplacement(queue: seq<Request>, pending: nat, finished: set<nat>, submitted: nat)
    requires History(queue, finished, submitted) && 0 < pending < |queue| && queue[pending].msgid == -1
    ensures Misplaced(queue, pending, queue[1..], finished + {queue[pending].serial})
  {
    assert queue[0].serial in Serials(queue);
    assert queue[1..][pending - 1] == queue[pending];
  }

  lemma UnsentAppend(queue: seq<Request>, other: seq<Request>, r: Request)
    requires queue == other || queue == Unsent(other)
    ensures Unsent(queue + [r]) == Unsent(other + [r])
  {
  }

  /** What a connection that is not disconnected does with its first unsent request. */
  function Decide(state: State, queue: seq<Request>, pending: nat, answer: Sending): Step {
    if pending >= |queue| || pending > MAX_PENDING || (pending > 0 && queue[pending].kind.UserBind?) then Idle
    else if state in {Disconnected, Binding} then Idle
    else if state == BoundAuth && !queue[pending].kind.UserBind? then Rebind
    else Outcome(answer)
  }

  /**
   The next request goes to the library exactly if there is one, no more than eight are pending, and it is a search on
   a connection bound as default dn, or a bind with nothing pending on a bound connection.  A search on a connection
   bound as a user first needs a bind as default dn.
   */
  lemma DecideMeans(state: State, queue: seq<Request>, pending: nat, answer: Sending)
    ensures var given := pending < |queue| && pending <= 8
                         && (if queue[pending].kind.UserBind? then pending == 0 && state in {BoundAuth, BoundDefault}
                             else state == BoundDefault);
            && (Decide(state, queue, pending, answer) in {Sent, Lost, Rejected} <==> given)
            && (Decide(state, queue, pending, answer) == Sent <==> given && answer == Accepted)
            && (Decide(state, queue, pending, answer) == Rejected <==> given && answer == Malformed)
            && (Decide(state, queue, pending, answer) == Rebind <==>
                pending < |queue| && pending <= 8 && queue[pending].kind.Search? && state == BoundAuth)
  {
  }

  function Outcome(answer: Sending): Step {
    match answer
    case Accepted => Sent
    case ConnectionLost => Lost
    case Malformed => Rejected
  }

  /** The request at `pending` is sent under a new id. */
  function SentUnder(queue: seq<Request>, pending: nat, nextMsgid: nat): seq<Request>
    requires pending < |queue|
  {
    queue[pending := queue[pending].(msgid := nextMsgid)]
  }

  class Connection {
    const tls: bool
    const library: nat -> Answer
    var asked: nat
    var state: State
    var defaultMsgid: int
    var queue: seq<Request>
    var pendingCount: nat
    var timer: Timer
    var nextMsgid: nat
    var now: int
    var submitted: nat
    ghost var finished: set<nat>
    /**
     How often the library called a request malformed behind a pending one, or a server answered a bind with an
     entry.
     */
    ghost var anomalies: nat
    /** The last submission found the connection closed and untimed, and TLS did not start. */
    ghost var stranded: bool
    /** The requests that were pending when their last reply came. */
    ghost var answered: set<nat>
    /** The requests whose last callback was given a result. */
    ghost var served: set<nat>

    constructor (tls: bool, delayed: bool, now: int, library: nat -> Answer)
      ensures Valid() && anomalies == 0 && !stranded && this.tls == tls
      ensures state == Disconnected && queue == [] && submitted == 0
      ensures this.library == library && asked == 0 && pendingCount == 0 && nextMsgid == 1 && this.now == now
              && finished == answered == served == {} && timer == if delayed then DelayTimer else NoTimer
    {
      this.tls, this.library, asked := tls, library, 0;
      state, defaultMsgid, queue, pendingCount := Disconnected, -1, [], 0;
      timer := if delayed then DelayTimer else NoTimer;
      nextMsgid, this.now, submitted, finished := 1, now, 0, {};
      anomalies, stranded, answered, served := 0, false, {}, {};
    }

    ghost predicate Core()
      reads this
    {
      && nextMsgid > 0 && pendingCount <= |queue|
      && SentPrefix(queue, pendingCount, nextMsgid)
      && Phase(state, defaultMsgid, queue, pendingCount, nextMsgid)
      && History(queue, finished, submitted)
    }

    /** Which timer may be running in which state. */
    ghost predicate Timers()
      reads this
    {
      && (timer == BindTimer ==> state == Binding && defaultMsgid != -1)
      && (timer == DisconnectTimer || timer == DelayTimer ==> state == Disconnected)
    }

    /** The pipeline is in order. */
    ghost predicate Ordered()
      reads this
    {
      Core() && Timers()
    }

    /** Requests that wait without a connection will be aborted by a timer. */
    predicate Watched()
      reads this
    {
      state == Disconnected && queue != [] ==> timer == DisconnectTimer
    }

    /**
     The pipeline is in order, waiting requests are watched unless the last submission was stranded, and every request
     that got its last reply is finished.
     */
    ghost predicate Valid()
      reads this
    {
      && Ordered() && (Watched() <==> !stranded) && (stranded ==> tls) && (timer == DelayTimer ==> queue == [])
      && answered <= finished && served <= finished
    }

    /** Nothing is left that could be sent now. */
    predicate Exhausted()
      reads this
    {
      state in {BoundAuth, BoundDefault} ==>
        || pendingCount >= |queue| || pendingCount > MAX_PENDING
        || (pendingCount > 0 && queue[pendingCount].kind.UserBind?)
    }

    /** The library's next answer is that TLS does not start. */
    predicate StartFails()
      reads this
    {
      tls && !library(asked).ok
    }

    /** The library's next answers let the connection be opened: TLS starts, if it is used, and a bind can be sent. */
    predicate Reopens()
      reads this
    {
      (tls ==> library(asked).ok) && library(asked + if tls then 1 else 0).ok
    }

    /** That is when the next request, if there is one, has to wait, whatever the library would answer. */
    lemma ExhaustedExactly()
      requires pendingCount <= |queue| && state in {BoundAuth, BoundDefault}
      ensures Exhausted() <==> forall answer :: Decide(state, queue, pendingCount, answer) == Idle
    {
      assert Decide(state, queue, pendingCount, Accepted) == Idle ==> Exhausted();
    }

    /** `db_ldap_conn_close`: forget that anything was sent; no request leaves the queue. */
    method Close()
      requires SentPrefix(queue, pendingCount, nextMsgid) && History(queue, finished, submitted) && nextMsgid > 0
      modifies this`state, this`defaultMsgid, this`timer, this`queue, this`pendingCount
      ensures Ordered() && Watched() && state == Disconnected && pendingCount == 0 && queue == Unsent(old(queue))
      ensures timer == if queue == [] then NoTimer else DisconnectTimer
    {
      hide History, Serials;
      var requests := queue;
      for i := 0 to pendingCount
        invariant |requests| == |queue|
        invariant forall j :: 0 <= j < |requests| ==> requests[j] == if j < i then queue[j].(msgid := -1) else queue[j]
      {
        assert requests[i].msgid != -1;
        requests := requests[i := requests[i].(msgid := -1)];
      }
      assert requests == Unsent(queue);
      SameSerials(queue, requests, finished, submitted);
      queue := requests;
      pendingCount := 0;
      state := Disconnected;
      defaultMsgid := -1;
      timer := NoTimer;
      if queue != [] {
        timer := DisconnectTimer;
      }
    }

    /** `db_ldap_bind`: bind as the default dn. */
    method Bind() returns (ok: bool)
      requires Core() && state != Binding && defaultMsgid == -1 && pendingCount == 0
      modifies this`state, this`defaultMsgid, this`timer, this`queue, this`pendingCount, this`nextMsgid, this`asked
      ensures Ordered() && Watched() && timer != DelayTimer && queue == Unsent(old(queue)) && pendingCount == 0
      ensures ok ==>
                state == Binding && timer == BindTimer && defaultMsgid == old(nextMsgid)
                && nextMsgid == old(nextMsgid) + 1
      ensures ok == library(old(asked)).ok && asked == old(asked) + 1
      ensures !ok ==> state == Disconnected && timer == if queue == [] then NoTimer else DisconnectTimer
    {
      hide History, Serials;
      ok := library(asked).ok;
      asked := asked + 1;
      if !ok {
        Close();
        return;
      }
      assert queue == Unsent(queue);
      state := Binding;
      defaultMsgid := nextMsgid;
      nextMsgid := nextMsgid + 1;
      timer := BindTimer;
    }

    /** `db_ldap_connect` with a simple bind. */
    method Connect() returns (ok: bool)
      requires Ordered()
      modifies this`state, this`defaultMsgid, this`timer, this`queue, this`pendingCount, this`nextMsgid, this`asked
      ensures Ordered()
      ensures old(state) != Disconnected ==> ok && state == old(state) && timer == old(timer) && queue == old(queue)
                                             && pendingCount == old(pendingCount) && defaultMsgid == old(defaultMsgid)
                                             && nextMsgid == old(nextMsgid) && asked == old(asked)
      ensures old(state) == Disconnected ==> queue == old(queue) && pendingCount == 0 && timer != DelayTimer
                                             && ok == old(Reopens()) && state == if ok then Binding else Disconnected
      ensures old(state) == Disconnected && ok ==> timer == BindTimer && defaultMsgid == old(nextMsgid)
                                                   && nextMsgid == old(nextMsgid) + 1
      ensures old(state) == Disconnected && old(StartFails()) ==>
                !ok && asked == old(asked) + 1 && timer == if old(timer) == DelayTimer then NoTimer else old(timer)
      ensures old(state) == Disconnected && !old(StartFails()) ==>
                var started := old(asked) + if tls then 1 else 0;
                && ok == library(started).ok && asked == started + 1 && Watched()
                && (!ok ==> timer == if queue == [] then NoTimer else DisconnectTimer)
    {
      hide History, Serials, SentPrefix, Unsent;
      if state != Disconnected {
        return true;
      }
      assert pendingCount == 0;
      NoneSent(queue, nextMsgid);
      if timer == DelayTimer {
        timer := NoTimer;
      }
      if tls {
        var started := library(asked).ok;
        asked := asked + 1;
        if !started {
          return false;
        }
      }
      ok := Bind();
    }

    /** `ldap_conn_reconnect`: close and connect again; every request stays queued. */
    method Reconnect()
      requires Core()
      modifies this`state, this`defaultMsgid, this`timer, this`queue, this`pendingCount, this`nextMsgid, this`asked
      ensures Ordered() && Watched() && timer != DelayTimer && queue == Unsent(old(queue)) && pendingCount == 0
      ensures state == if old(Reopens()) then Binding else Disconnected
    {
      hide History, Serials;
      Close();
      var ok := Connect();
      if !ok {
        Close();
        assert queue == Unsent(old(queue));
      }
    }

    /** Give the request at position `pendingCount` to the library; `Malformed` leaves everything as it is. */
    method SendRequest() returns (result: Sending)
      requires Ordered() && pendingCount < |queue| && pendingCount <= MAX_PENDING
      requires if queue[pendingCount].kind.UserBind? then state in {BoundAuth, BoundDefault} && pendingCount == 0
               else state == BoundDefault
      modifies this`state, this`defaultMsgid, this`timer, this`queue, this`pendingCount, this`nextMsgid, this`asked
      ensures Ordered() && result == library(old(asked)).sending
      ensures result == Accepted ==>
                && pendingCount == old(pendingCount) + 1 && nextMsgid == old(nextMsgid) + 1
                && queue == old(queue)[old(pendingCount) := old(queue)[old(pendingCount)].(msgid := old(nextMsgid))]
                && state == (if old(queue)[old(pendingCount)].kind.UserBind? then Binding else BoundDefault)
                && defaultMsgid == -1 && asked == old(asked) + 1
      ensures result == Malformed ==>
                && state == old(state) && queue == old(queue) && pendingCount == old(pendingCount)
                && defaultMsgid == old(defaultMsgid) && nextMsgid == old(nextMsgid) && timer == old(timer)
                && asked == old(asked) + 1
      ensures result == ConnectionLost ==> Ordered() && Watched() && queue == Unsent(old(queue)) && pendingCount == 0
                                           && state in {Binding, Disconnected}
    {
      hide History, Serials;
      assert queue[pendingCount].msgid == -1;
      assert queue[pendingCount].kind.UserBind? ==> pendingCount == 0;
      hide SentPrefix, Phase;
      result := library(asked).sending;
      asked := asked + 1;
      match result {
        case Malformed =>
        case ConnectionLost =>
          Reconnect();
        case Accepted =>
          MarkSent();
      }
    }

    /** The library took the first unsent request. */
    method MarkSent()
      requires Ordered() && pendingCount < |queue| && pendingCount <= MAX_PENDING
      requires if queue[pendingCount].kind.UserBind? then state in {BoundAuth, BoundDefault} && pendingCount == 0
               else state == BoundDefault
      modifies this`state, this`queue, this`pendingCount, this`nextMsgid
      ensures Ordered() && pendingCount == old(pendingCount) + 1 && nextMsgid == old(nextMsgid) + 1
      ensures queue == SentUnder(old(queue), old(pendingCount), old(nextMsgid)) && defaultMsgid == -1
      ensures state == if old(queue)[old(pendingCount)].kind.UserBind? then Binding else BoundDefault
    {
      hide History, Serials, SentPrefix, Phase;
      ghost var sent := SentUnder(queue, pendingCount, nextMsgid);
      SameSerials(queue, sent, finished, submitted);
      SendFirst(queue, pendingCount, nextMsgid);
      SendPhase(state, defaultMsgid, queue, pendingCount, nextMsgid);
      var request := queue[pendingCount];
      queue := queue[pendingCount := request.(msgid := nextMsgid)];
      nextMsgid := nextMsgid + 1;
      if request.kind.UserBind? {
        state := Binding;
      }
      pendingCount := pendingCount + 1;
    }

    /** `db_ldap_request_queue_next`.  A malformed request is reported as finished, but what is taken out of
        the queue is its oldest entry: the two are the same exactly when nothing was pending. */
    method QueueNext() returns (more: bool, step: Step)
      requires Ordered()
      modifies this`state, this`defaultMsgid, this`timer, this`queue, this`pendingCount, this`nextMsgid, this`asked,
               this`finished, this`anomalies
      ensures anomalies == old(anomalies) + (if step == Rejected && old(pendingCount) > 0 then 1 else 0)
      ensures Ordered() <==> !(step == Rejected && old(pendingCount) > 0)
      ensures timer != DelayTimer && (more ==> state != Disconnected) && (!more ==> Exhausted())
      ensures old(state) != Disconnected ==> Watched()
      ensures old(state) == Disconnected ==>
                && step == Idle && queue == old(queue) && state in {Binding, Disconnected}
                && (Watched() <==> queue == [] || !old(StartFails()) || old(timer) == DisconnectTimer)
                && (old(StartFails()) ==>
                      state == Disconnected && timer == if old(timer) == DelayTimer then NoTimer else old(timer))
      ensures old(state) != Disconnected ==>
                step == Decide(old(state), old(queue), old(pendingCount), library(old(asked)).sending)
      ensures step == Sent ==> old(pendingCount) < |old(queue)|
      ensures more <==> step in {Sent, Rejected}
      ensures step == Sent ==> pendingCount == old(pendingCount) + 1 && |queue| == |old(queue)|
      ensures step == Sent ==>
                && queue == SentUnder(old(queue), old(pendingCount), old(nextMsgid))
                && nextMsgid == old(nextMsgid) + 1 && asked == old(asked) + 1 && defaultMsgid == -1
                && (!old(queue)[old(pendingCount)].kind.UserBind? ==> state == BoundDefault)
      ensures step == Rejected && old(pendingCount) > 0 ==> Misplaced(old(queue), old(pendingCount), queue, finished)
      ensures step == Idle && old(state) != Disconnected ==>
                && state == old(state) && queue == old(queue) && pendingCount == old(pendingCount)
                && asked == old(asked)
                && nextMsgid == old(nextMsgid) && defaultMsgid == old(defaultMsgid)
      ensures step == Sent && queue[old(pendingCount)].kind.UserBind? ==> old(pendingCount) == 0 && state == Binding
      ensures step == Rejected ==>
                old(pendingCount) < |old(queue)| && queue == old(queue)[1..] && pendingCount == old(pendingCount)
                                   && finished == old(finished) + {old(queue)[old(pendingCount)].serial}
      ensures step != Rejected ==> finished == old(finished) && Unsent(queue) == Unsent(old(queue))
      ensures step == Rejected ==> finished != old(finished)
    {
      hide History, Serials, Misplaced;
      var connected := Connect();
      more, step := false, Idle;
      if !connected || pendingCount == |queue| || pendingCount > MAX_PENDING {
        return;
      }
      var request := queue[pendingCount];
      if pendingCount > 0 && request.kind.UserBind? {
        return;
      }
      match state {
        case Disconnected =>
          return;
        case Binding =>
          return;
        case BoundAuth =>
          if !request.kind.UserBind? {
            assert pendingCount == 0;
            var _ := Bind();
            step := Rebind;
            return;
          }
        case BoundDefault =>
      }
      step := Transmit();
      more := step != Lost;
    }

    /** Send the first request that has not been sent. */
    method Transmit() returns (step: Step)
      requires Ordered() && pendingCount < |queue| && pendingCount <= MAX_PENDING
      requires if queue[pendingCount].kind.UserBind? then state in {BoundAuth, BoundDefault} && pendingCount == 0
               else state == BoundDefault
      modifies this`state, this`defaultMsgid, this`timer, this`queue, this`pendingCount, this`nextMsgid, this`asked,
               this`finished, this`anomalies
      ensures step == Outcome(library(old(asked)).sending)
      ensures anomalies == old(anomalies) + (if step == Rejected && old(pendingCount) > 0 then 1 else 0)
      ensures Ordered() <==> !(step == Rejected && old(pendingCount) > 0)
      ensures Watched() && timer != DelayTimer && (step != Lost ==> state != Disconnected)
      ensures step == Lost ==> state in {Binding, Disconnected}
      ensures step == Sent ==> pendingCount == old(pendingCount) + 1 && |queue| == |old(queue)|
      ensures step == Sent ==> queue == SentUnder(old(queue), old(pendingCount), old(nextMsgid))
                               && nextMsgid == old(nextMsgid) + 1 && asked == old(asked) + 1 && defaultMsgid == -1
                               && (!old(queue)[old(pendingCount)].kind.UserBind? ==> state == BoundDefault)
      ensures step == Rejected && old(pendingCount) > 0 ==> Misplaced(old(queue), old(pendingCount), queue, finished)
      ensures step == Sent && queue[old(pendingCount)].kind.UserBind? ==> old(pendingCount) == 0 && state == Binding
      ensures step == Rejected ==> queue == old(queue)[1..] && pendingCount == old(pendingCount)
                                   && finished == old(finished) + {old(queue)[old(pendingCount)].serial}
      ensures step != Rejected ==> finished == old(finished) && Unsent(queue) == Unsent(old(queue))
      ensures step == Rejected ==> finished != old(finished)
    {
      hide History, Serials, Misplaced, SentPrefix, Phase;
      var result := SendRequest();
      match result {
        case Accepted =>
          step := Sent;
        case ConnectionLost =>
          step := Lost;
        case Malformed =>
          Reject();
          step := Rejected;
      }
    }

    /** The library called the first unsent request malformed: it has its callback, and the oldest entry is deleted. */
    method Reject()
      requires Ordered() && pendingCount < |queue| && state in {BoundAuth, BoundDefault}
      modifies this`queue, this`finished, this`anomalies
      ensures Ordered() <==> old(pendingCount) == 0
      ensures anomalies == old(anomalies) + (if old(pendingCount) > 0 then 1 else 0)
      ensures queue == old(queue)[1..] && finished == old(finished) + {old(queue)[pendingCount].serial}
      ensures pendingCount > 0 ==> Misplaced(old(queue), pendingCount, queue, finished)
      ensures finished != old(finished)
    {
      hide History, Serials, Misplaced, SentPrefix, Phase;
      InQueue(queue, finished, submitted, pendingCount);
      var request := queue[pendingCount];
      RejectKeepsPrefix(queue, pendingCount, nextMsgid);
      RejectKeepsPhase(state, defaultMsgid, queue, pendingCount, nextMsgid);
      if pendingCount == 0 {
        assert RemoveAt(queue, 0) == queue[1..];
        FinishOne(queue, finished, submitted, 0);
      } else {
        Misplacement(queue, pendingCount, finished, submitted);
        anomalies := anomalies + 1;
      }
      finished := finished + {request.serial};
      queue := queue[1..];
    }

    /** Send for as long as something can be sent.  `sound` is false when the loop met a malformed request behind a
        pending one. */
    method SendAll() returns (sound: bool)
      requires Ordered()
      modifies this`state, this`defaultMsgid, this`timer, this`queue, this`pendingCount, this`nextMsgid, this`asked,
               this`finished, this`anomalies
      ensures Ordered() <==> sound
      ensures timer != DelayTimer && (old(state) != Disconnected ==> Watched())
      ensures old(finished) <= finished && (sound ==> Exhausted())
      ensures old(anomalies) <= anomalies && (sound <==> anomalies == old(anomalies))
      ensures old(state) != Disconnected && old(queue) == [] ==>
                && state == old(state) && queue == [] && pendingCount == 0 && asked == old(asked)
                && finished == old(finished)
                && nextMsgid == old(nextMsgid) && defaultMsgid == old(defaultMsgid) && sound
    {
      hide History, Serials, Unsent, Misplaced;
      sound := true;
      var more := true;
      while more && sound
        invariant Ordered() <==> sound
        invariant !(more && sound) ==> timer != DelayTimer
        invariant old(finished) <= finished && (!more ==> Exhausted())
        invariant old(state) != Disconnected ==> Watched() && (more ==> state != Disconnected)
        invariant old(anomalies) <= anomalies && (sound <==> anomalies == old(anomalies))
        invariant more ==> pendingCount <= |queue|
        invariant old(state) != Disconnected && old(queue) == [] ==>
                    && state == old(state) && queue == [] && pendingCount == 0 && asked == old(asked)
                    && finished == old(finished) && nextMsgid == old(nextMsgid) && defaultMsgid == old(defaultMsgid)
                    && sound
        decreases more, |queue| - pendingCount
      {
        var pending, step := pendingCount, Idle;
        more, step := QueueNext();
        sound := !(step == Rejected && pending > 0);
      }
    }

    /** Take the oldest request out of the queue and fail it. */
    method AbortOldest()
      requires Core() && queue != [] && state in {Disconnected, BoundDefault}
      modifies this`queue, this`pendingCount, this`finished
      ensures Core() && queue == old(queue)[1..] && finished == old(finished) + {old(queue)[0].serial}
      ensures pendingCount == if old(pendingCount) > 0 then old(pendingCount) - 1 else 0
    {
      hide History, Serials, SentPrefix;
      var request := queue[0];
      DropOldest(queue, pendingCount, nextMsgid);
      FinishOne(queue, finished, submitted, 0);
      assert RemoveAt(queue, 0) == queue[1..];
      queue := queue[1..];
      if request.msgid != -1 {
        assert pendingCount > 0;
        pendingCount := pendingCount - 1;
      }
      finished := finished + {request.serial};
    }

    /** `db_ldap_abort_requests`: drop and fail the oldest requests, at most `max`, that are at least `secs` old. */
    method AbortRequests(max: nat, secs: int)
      requires Core() && state in {Disconnected, BoundDefault}
      modifies this`queue, this`pendingCount, this`finished
      ensures Core()
      ensures var n := Aged(old(queue), max, secs, now);
              && queue == old(queue)[n..]
              && pendingCount == (if n < old(pendingCount) then old(pendingCount) - n else 0)
              && finished == old(finished) + Serials(old(queue)[..n])
    {
      hide History, Serials, SentPrefix, Phase;
      var n: nat := 0;
      NoSerials();
      assert queue[..0] == [];
      while queue != [] && n < max && now - queue[0].created >= secs
        invariant Core() && n <= max && n <= |old(queue)| && queue == old(queue)[n..]
        invariant n + Aged(queue, max - n, secs, now) == Aged(old(queue), max, secs, now)
        invariant pendingCount == if n < old(pendingCount) then old(pendingCount) - n else 0
        invariant finished == old(finished) + Serials(old(queue)[..n])
        decreases max - n
      {
        SerialsGrow(old(queue), n);
        AbortOldest();
        n := n + 1;
      }
    }

    /** `db_ldap_request`: queue a request and try to send; a connection that seems to hang is reopened first. */
    method Submit(kind: Kind) returns (sound: bool, step: Step)
      requires Valid()
      modifies this`state, this`defaultMsgid, this`timer, this`queue, this`pendingCount, this`nextMsgid, this`asked,
               this`finished, this`anomalies, this`submitted, this`stranded
      ensures Valid() <==> sound
      ensures stranded == old(Strands()) && (sound ==> (Watched() <==> !stranded))
      ensures anomalies == old(anomalies) + (if sound then 0 else 1)
      ensures submitted == old(submitted) + 1
      ensures step != Rejected ==> finished == old(finished) && Unsent(queue) == Unsent(old(queue) + [Newest(kind)])
      ensures old(finished) <= finished && (step == Rejected ==> finished != old(finished))
      ensures !old(Hanging()) && old(state) == Disconnected ==>
                && sound && step == Idle && queue == old(queue) + [Newest(kind)]
                && (old(StartFails()) ==>
                      state == Disconnected && timer == if old(timer) == DelayTimer then NoTimer else old(timer))
      ensures !old(Hanging()) && old(state) != Disconnected ==>
                var q := old(queue) + [Newest(kind)];
                && step == Decide(old(state), q, old(pendingCount), library(old(asked)).sending)
                && (sound <==> !(step == Rejected && old(pendingCount) > 0))
                && (step == Sent ==>
                      && queue == SentUnder(q, old(pendingCount), old(nextMsgid))
                      && pendingCount == old(pendingCount) + 1
                      && nextMsgid == old(nextMsgid) + 1 && asked == old(asked) + 1
                      && (!q[old(pendingCount)].kind.UserBind? ==> state == BoundDefault))
                && (step == Rejected ==> queue == q[1..] && pendingCount == old(pendingCount)
                                         && finished == old(finished) + {q[old(pendingCount)].serial})
                && (step == Rejected && old(pendingCount) > 0 ==> Misplaced(q, old(pendingCount), queue, finished))
    {
      hide SentPrefix, History, Serials, Phase, Unsent, Misplaced, Decide, SentUnder;
      stranded := Strands();
      CheckLimits();
      UnsentAppend(queue, old(queue), Request(submitted, kind, now, -1, false, false));
      var pending := pendingCount;
      step := Dispatch(kind);
      sound := !(step == Rejected && pending > 0);
    }

    /** `db_ldap_check_limits`: a connection whose oldest request has waited for too long is opened again. */
    method CheckLimits()
      requires Ordered()
      modifies this`state, this`defaultMsgid, this`timer, this`queue, this`pendingCount, this`nextMsgid, this`asked
      ensures Ordered()
      ensures old(queue) != [] && now - old(queue)[0].created > 60 ==>
                Watched() && timer != DelayTimer && queue == Unsent(old(queue)) && pendingCount == 0
      ensures !(old(queue) != [] && now - old(queue)[0].created > 60) ==>
                && state == old(state) && defaultMsgid == old(defaultMsgid) && timer == old(timer)
                && queue == old(queue) && pendingCount == old(pendingCount) && nextMsgid == old(nextMsgid)
                && asked == old(asked)
    {
      hide SentPrefix, History, Serials, Phase, Unsent;
      if queue != [] && now - queue[0].created > LOST_SECS {
        Reconnect();
      }
    }

    /** Queue a request and try to send. */
    method Dispatch(kind: Kind) returns (step: Step)
      requires Ordered()
      modifies this`state, this`defaultMsgid, this`timer, this`queue, this`pendingCount, this`nextMsgid, this`asked,
               this`finished, this`anomalies, this`submitted
      ensures Ordered() <==> !(step == Rejected && old(pendingCount) > 0)
      ensures anomalies == old(anomalies) + (if step == Rejected && old(pendingCount) > 0 then 1 else 0)
      ensures submitted == old(submitted) + 1 && timer != DelayTimer
      ensures step != Rejected ==> finished == old(finished) && Unsent(queue) == Unsent(old(queue) + [Newest(kind)])
      ensures old(finished) <= finished && (step == Rejected ==> finished != old(finished))
      ensures old(state) == Disconnected ==>
                && step == Idle && queue == old(queue) + [Newest(kind)]
                && (Watched() <==> !old(StartFails()) || old(timer) == DisconnectTimer)
                && (old(StartFails()) ==>
                      state == Disconnected && timer == if old(timer) == DelayTimer then NoTimer else old(timer))
      ensures old(state) != Disconnected ==>
                var q := old(queue) + [Newest(kind)];
                && Watched() && step == Decide(old(state), q, old(pendingCount), library(old(asked)).sending)
                && (step == Sent ==>
                      && queue == SentUnder(q, old(pendingCount), old(nextMsgid))
                      && pendingCount == old(pendingCount) + 1
                      && nextMsgid == old(nextMsgid) + 1 && asked == old(asked) + 1
                      && (!q[old(pendingCount)].kind.UserBind? ==> state == BoundDefault))
                && (step == Rejected ==> queue == q[1..] && pendingCount == old(pendingCount)
                                         && finished == old(finished) + {q[old(pendingCount)].serial})
                && (step == Rejected && old(pendingCount) > 0 ==> Misplaced(q, old(pendingCount), queue, finished))
    {
      hide Core, Timers, Unsent, Misplaced, Decide;
      Enqueue(kind);
      var _, next := QueueNext();
      step := next;
    }

    method Enqueue(kind: Kind)
      requires Ordered()
      modifies this`queue, this`submitted
      ensures Ordered() && submitted == old(submitted) + 1 && queue == old(queue) + [Newest(kind)]
    {
      hide History, Serials, SentPrefix;
      var request := Request(submitted, kind, now, -1, false, false);
      Append(queue, request, finished, submitted);
      AppendUnsent(queue, request, pendingCount, nextMsgid);
      queue := queue + [request];
      submitted := submitted + 1;
    }

    /** The connection seems to hang: its oldest request has waited for too long. */
    predicate Hanging()
      reads this
    {
      queue != [] && now - queue[0].created > LOST_SECS
    }

    /** A submission now finds the connection closed and untimed, and TLS does not start. */
    predicate Strands()
      reads this
    {
      !Hanging() && state == Disconnected && StartFails() && timer != DisconnectTimer
    }

    /** The request that `Submit` has queued last. */
    function Newest(kind: Kind): Request
      requires submitted > 0
      reads this
    {
      Request(submitted - 1, kind, now, -1, false, false)
    }

    /** The sent request that `msgid` belongs to. */
    method FindRequest(msgid: nat) returns (idx: int)
      requires Core()
      ensures idx == -1 <==> forall i :: 0 <= i < |queue| ==> queue[i].msgid != msgid
      ensures idx != -1 ==> 0 <= idx < pendingCount && queue[idx].msgid == msgid
    {
      hide History, Phase;
      var i := 0;
      while i < |queue|
        invariant 0 <= i <= |queue|
        invariant forall j :: 0 <= j < i ==> queue[j].msgid != msgid
      {
        if queue[i].msgid == msgid {
          return i;
        }
        if queue[i].msgid == -1 {
          break;
        }
        i := i + 1;
      }
      return -1;
    }

    /** The reply to the bind as default dn. */
    method DefaultBindFinished(code: Code) returns (sound: bool)
      requires Valid() && defaultMsgid != -1
      modifies this`state, this`defaultMsgid, this`timer, this`queue, this`pendingCount, this`nextMsgid, this`asked,
               this`finished, this`anomalies
      ensures Valid() <==> sound
      ensures old(anomalies) <= anomalies && (sound <==> anomalies == old(anomalies))
      ensures code == Success && old(queue) == [] ==>
                && state == BoundDefault && queue == [] && pendingCount == 0 && asked == old(asked)
                && finished == old(finished)
                && nextMsgid == old(nextMsgid) && sound
      ensures old(finished) <= finished && (sound ==> Exhausted())
      ensures code != Success ==>
                sound && state == Disconnected && queue == Unsent(old(queue)) && finished == old(finished)
    {
      hide History, Serials;
      assert pendingCount == 0;
      defaultMsgid := -1;
      if code != Success {
        Close();
        return true;
      }
      timer := NoTimer;
      state := BoundDefault;
      sound := SendAll();
    }

    /** The search at `idx` has had its last reply. */
    method FinishSearch(idx: nat, result: bool)
      requires Valid() && idx < pendingCount && queue[idx].kind.Search?
      modifies this`queue, this`pendingCount, this`finished, this`served
      ensures Valid() && queue == RemoveAt(old(queue), idx) && pendingCount == old(pendingCount) - 1
      ensures finished == old(finished) + {old(queue)[idx].serial}
      ensures served == old(served) + if result then {old(queue)[idx].serial} else {}
    {
      hide History, Serials, SentPrefix, Phase, RemoveAt;
      var request := queue[idx];
      SearchPhase(state, defaultMsgid, queue, pendingCount, nextMsgid, idx, request);
      RemovePending(queue, pendingCount, nextMsgid, idx);
      FinishOne(queue, finished, submitted, idx);
      pendingCount := pendingCount - 1;
      queue := RemoveAt(queue, idx);
      finished := finished + {request.serial};
      if result {
        served := served + {request.serial};
      }
    }

    /** The bookkeeping of one reply to the pending request at `idx`: it is finished, or kept in its place. */
    method Settle(idx: nat, msg: Message, follow: FollowUp)
      requires Valid() && idx < pendingCount && queue[idx].kind.Search?
      modifies this`queue, this`pendingCount, this`nextMsgid, this`finished, this`served
      ensures Valid() && queue == Settled(old(queue), idx, msg, follow, old(nextMsgid))
      ensures pendingCount == old(pendingCount) - (if Ends(old(queue)[idx], msg, follow) then 1 else 0)
      ensures finished == old(finished) + if Ends(old(queue)[idx], msg, follow) then {old(queue)[idx].serial} else {}
      ensures served == old(served) + if Result(old(queue)[idx], msg, follow) then {old(queue)[idx].serial} else {}
    {
      hide History, Serials, SentPrefix, Phase, Ends, Updated, Result, RemoveAt;
      var request := queue[idx];
      UpdatedMeans(request, msg, nextMsgid);
      ResultEnds(request, msg, follow);
      if Ends(request, msg, follow) {
        FinishSearch(idx, Result(request, msg, follow));
      } else {
        var kept := Updated(request, msg, nextMsgid);
        SearchPhase(state, defaultMsgid, queue, pendingCount, nextMsgid, idx, kept);
        ReplacePending(queue, pendingCount, nextMsgid, idx, kept);
        SameSerials(queue, queue[idx := kept], finished, submitted);
        if kept.msgid == nextMsgid {
          nextMsgid := nextMsgid + 1;
        }
        queue := queue[idx := kept];
      }
    }

    /** The reply to a user's bind. */
    method BindReplied(idx: nat, msg: Message) returns (sound: bool)
      requires Valid() && idx < pendingCount && queue[idx].kind.UserBind?
      modifies this`state, this`queue, this`pendingCount, this`finished, this`anomalies, this`served
      ensures sound <==> !msg.Entry?
      ensures Valid() <==> sound
      ensures anomalies == old(anomalies) + (if sound then 0 else 1)
      ensures state == BoundAuth
      ensures sound ==>
                queue == RemoveAt(old(queue), idx) && pendingCount == 0
                && finished == old(finished) + {old(queue)[idx].serial}
                && (!old(queue)[idx].failed ==> served == old(served) + {old(queue)[idx].serial})
      ensures old(finished) <= finished
    {
      hide History, Serials, Phase, SentPrefix;
      BindPhase(state, defaultMsgid, queue, pendingCount, nextMsgid, idx);
      var request := queue[idx];
      state := BoundAuth;
      if msg.Entry? {
        anomalies := anomalies + 1;
        return false;
      }
      RemovePending(queue, pendingCount, nextMsgid, idx);
      FinishOne(queue, finished, submitted, idx);
      pendingCount := pendingCount - 1;
      queue := RemoveAt(queue, idx);
      finished := finished + {request.serial};
      if !request.failed {
        served := served + {request.serial};
      }
      return true;
    }

    /** `db_ldap_handle_request_result`: a reply to the pending request at `idx`.  A server that answers a bind with
        a search entry, which section 4.2.2 of RFC 4511 does not allow, breaks the pipeline; nothing else does. */
    method HandleRequestResult(idx: nat, msg: Message, follow: FollowUp) returns (sound: bool)
      requires Valid() && idx < pendingCount
      modifies this`state, this`queue, this`pendingCount, this`nextMsgid, this`finished, this`anomalies, this`served
      ensures sound <==> !(old(queue)[idx].kind.UserBind? && msg.Entry?)
      ensures Valid() <==> sound
      ensures anomalies == old(anomalies) + (if sound then 0 else 1)
      ensures old(queue)[idx].kind.UserBind? ==> state == BoundAuth
      ensures old(queue)[idx].kind.UserBind? && sound ==>
                queue == RemoveAt(old(queue), idx) && finished == old(finished) + {old(queue)[idx].serial}
                && (!old(queue)[idx].failed ==> old(queue)[idx].serial in served)
      ensures old(finished) <= finished
      ensures old(queue)[idx].kind.Search? ==>
                && state == old(state)
                && queue == QueueAfter(old(queue), idx, msg, follow, old(nextMsgid), now)
                && finished == FinishedBy(old(queue), old(finished), idx, msg, follow, old(nextMsgid), now)
                && served == old(served) + if Result(old(queue)[idx], msg, follow) then {old(queue)[idx].serial} else {}
    {
      hide History, Serials, SentPrefix, Result, Updated, Ends, Reports, Phase, Settled, Aged;
      assert pendingCount > 0;
      if queue[idx].kind.UserBind? {
        sound := BindReplied(idx, msg);
        return;
      }
      var request := queue[idx];
      SearchPhase(state, defaultMsgid, queue, pendingCount, nextMsgid, idx, request);
      AgedNone(idx);
      Settle(idx, msg, follow);
      NoSerials();
      assert queue[..0] == [];
      if Reports(request, msg, follow) && idx > 0 {
        AbortRequests(idx, LOST_SECS);
      }
      return true;
    }

    /**
     What a reply under `msgid` does.  An unknown id changes nothing, a bind as default dn that fails closes the
     connection, and any other id belongs to a pending request.
     */
    twostate predicate Replied(msgid: nat, msg: Message, follow: FollowUp)
      reads this
    {
      && (msgid != old(defaultMsgid)
          && (forall i :: 0 <= i < old(pendingCount) <= |old(queue)| ==> old(queue)[i].msgid != msgid) ==>
            && queue == old(queue) && pendingCount == old(pendingCount)
            && finished == old(finished) && state == old(state))
      && (msgid == old(defaultMsgid) && msg != Finish(Success) ==> state == Disconnected && queue == Unsent(old(queue)))
      && (forall i :: 0 <= i < old(pendingCount) <= |old(queue)| && old(queue)[i].msgid == msgid ==>
            RepliedAt(old(queue), old(finished), old(state), old(nextMsgid), i, msg, follow, now,
                      state, queue, finished, served))
    }

    /** A reply to the pending request at `idx`. */
    method Deliver(idx: nat, msg: Message, follow: FollowUp) returns (sound: bool)
      requires Valid() && idx < pendingCount <= |queue| && queue[idx].msgid >= 0 && queue[idx].msgid != defaultMsgid
      modifies this`state, this`queue, this`pendingCount, this`nextMsgid, this`finished, this`anomalies, this`answered,
               this`served
      ensures Valid() <==> sound
      ensures anomalies == old(anomalies) + (if sound then 0 else 1)
      ensures old(finished) <= finished
      ensures RepliedAt(old(queue), old(finished), old(state), old(nextMsgid), idx, msg, follow, now,
                        state, queue, finished, served)
      ensures answered
              == old(answered) + LastReplyTo(old(queue), old(pendingCount), old(queue)[idx].msgid, msg, follow)
    {
      hide History, Serials, Phase, SentPrefix, QueueAfter, FinishedBy, LastReplyTo, Result, SearchReplied, Unsent;
      OneHolder(queue, pendingCount, nextMsgid, queue[idx].msgid, msg, follow);
      ghost var ending := LastReplyTo(queue, pendingCount, queue[idx].msgid, msg, follow);
      InQueue(queue, finished, submitted, idx);
      if queue[idx].kind.Search? {
        ReplyMeans(queue, finished, served, submitted, idx, msg, follow, nextMsgid, now);
      }
      sound := HandleRequestResult(idx, msg, follow);
      answered := answered + ending;
    }

    /** `db_ldap_handle_result`: route a reply to the default bind or to the request that holds its id. */
    method HandleResult(msgid: nat, msg: Message, follow: FollowUp) returns (sound: bool)
      requires Valid()
      modifies this`state, this`defaultMsgid, this`timer, this`queue, this`pendingCount, this`nextMsgid, this`asked,
               this`finished, this`anomalies, this`answered, this`served
      ensures Valid() <==> sound
      ensures old(anomalies) <= anomalies && (sound <==> anomalies == old(anomalies))
      ensures old(finished) <= finished && Replied(msgid, msg, follow)
      ensures answered == old(answered) + LastReplyTo(old(queue), old(pendingCount), msgid, msg, follow)
      ensures msgid == old(defaultMsgid) && sound ==> Exhausted()
    {
      hide History, Serials, Phase, SentPrefix, QueueAfter, LastReplyTo, SearchReplied, Unsent, RepliedAt, Exhausted;
      OneHolder(queue, pendingCount, nextMsgid, msgid, msg, follow);
      if msgid == defaultMsgid {
        BindAlone(state, defaultMsgid, queue, pendingCount, nextMsgid, msgid, msg, follow);
        sound := DefaultBindFinished(if msg.Finish? then msg.code else OtherError);
        return;
      }
      var idx := FindRequest(msgid);
      if idx == -1 {
        return true;
      }
      OnlyHolder(queue, pendingCount, nextMsgid, idx);
      sound := Deliver(idx, msg, follow);
    }

    method DisconnectTimeout()
      requires Valid() && timer == DisconnectTimer
      modifies this`queue, this`pendingCount, this`finished, this`timer
      ensures Valid() && state == Disconnected
      ensures var n := Aged(old(queue), UINT_MAX, 4, now);
              queue == old(queue)[n..] && finished == old(finished) + Serials(old(queue)[..n])
      ensures timer == if queue == [] then NoTimer else DisconnectTimer
    {
      hide History, Serials, SentPrefix;
      AbortRequests(UINT_MAX, DISCONNECT_SECS);
      if queue == [] {
        timer := NoTimer;
      }
    }

    predicate Enabled(e: Event)
      reads this
    {
      match e
      case Reply(_, _, _) => state != Disconnected
      case InputDrained => state != Disconnected
      case InputFailed(_) => state != Disconnected
      case BindTimerFires => timer == BindTimer
      case DisconnectTimerFires => timer == DisconnectTimer
      case DelayTimerFires => timer == DelayTimer
      case _ => true
    }

    /** A stranded connection waits for the next submission: nothing else can happen to it but that time passes. */
    lemma StrandedWaits(e: Event)
      requires Valid() && stranded
      ensures Enabled(e) <==> e.NewRequest? || e.TimePasses?
    {
    }

    method Handle(e: Event) returns (sound: bool)
      requires Valid() && Enabled(e)
      modifies this
      ensures Valid() <==> sound
      ensures old(anomalies) <= anomalies && (sound <==> anomalies == old(anomalies))
      ensures submitted == old(submitted) + (if e.NewRequest? then 1 else 0)
      ensures stranded == if e.NewRequest? then old(Strands()) else old(stranded)
      ensures (tls ==> forall n :: library(n).ok) && !old(stranded) ==> !stranded
      ensures old(stranded) && !e.NewRequest? ==> queue == old(queue) && finished == old(finished)
      ensures e.BindTimerFires? || e.InputFailed? || e.TimePasses? ==>
                sound && Unsent(queue) == Unsent(old(queue)) && finished == old(finished)
      ensures old(finished) <= finished && now == old(now) + (if e.TimePasses? then e.secs else 0)
      ensures answered == old(answered) + if e.Reply? then
                LastReplyTo(old(queue), old(pendingCount), e.msgid, e.msg, e.follow) else {}
      ensures e.Reply? ==> Replied(e.msgid, e.msg, e.follow)
      ensures (e.InputDrained? || (e.Reply? && e.msgid == old(defaultMsgid))) && sound ==> Exhausted()
      ensures e.BindTimerFires? || (e.InputFailed? && !e.reopen) ==> state == Disconnected
      ensures e.DelayTimerFires? || (e.InputFailed? && e.reopen) ==>
                state == if old(Reopens()) then Binding else Disconnected
      ensures e.TimePasses? ==> state == old(state) && queue == old(queue) && timer == old(timer)
      ensures e.DisconnectTimerFires? ==>
                var n := Aged(old(queue), UINT_MAX, 4, now);
                queue == old(queue)[n..] && finished == old(finished) + Serials(old(queue)[..n])
      ensures e.NewRequest? && finished == old(finished) ==> Unsent(queue) == Unsent(old(queue) + [Newest(e.kind)])
    {
      hide History, Serials, SentPrefix, Phase, Replied, LastReplyTo, Unsent, Decide, Misplaced, Aged;
      sound := true;
      match e {
        case NewRequest(kind) =>
          var ok, step := Submit(kind);
          sound := ok;
        case Reply(msgid, msg, follow) =>
          sound := HandleResult(msgid, msg, follow);
        case InputDrained =>
          sound := SendAll();
        case InputFailed(reopen) =>
          if reopen { Reconnect(); } else { Close(); }
        case BindTimerFires =>
          assert state == Binding;
          Close();
        case DisconnectTimerFires =>
          DisconnectTimeout();
        case DelayTimerFires =>
          assert state == Disconnected;
          var _ := Connect();
        case TimePasses(secs) =>
          now := now + secs;
      }
    }

    /**
     Every run: the pipeline is in order after it if and only if it never met a malformed request behind a pending
     one nor a bind answered by a search entry; the run stops there.
     */
    method Run(events: seq<Event>) returns (sound: bool)
      requires Valid()
      modifies this
      ensures Valid() <==> anomalies == old(anomalies)
      ensures sound <==> anomalies == old(anomalies)
      ensures sound ==> (Watched() <==> !stranded) && answered <= finished
      ensures sound ==> submitted == old(submitted) + Submissions(events) && now == old(now) + Elapsed(events)
      ensures old(finished) <= finished
      ensures (tls ==> forall n :: library(n).ok) && !old(stranded) ==> !stranded
      ensures old(stranded) && (forall e :: e in events ==> !e.NewRequest?) ==>
                !Watched() && queue == old(queue) && finished == old(finished)
    {
      hide Core, Timers, LastReplyTo, Replied, Unsent, Aged;
      sound := true;
      var i := 0;
      while i < |events| && sound
        invariant i <= |events| && (Valid() <==> sound)
        invariant sound ==>
                    && submitted == old(submitted) + Submissions(events[..i])
                    && now == old(now) + Elapsed(events[..i])
        invariant old(anomalies) <= anomalies && (sound <==> anomalies == old(anomalies))
        invariant old(finished) <= finished
        invariant (tls ==> forall n :: library(n).ok) && !old(stranded) ==> !stranded
        invariant old(stranded) && (forall e :: e in events ==> !e.NewRequest?) ==>
                    sound && stranded && queue == old(queue) && finished == old(finished)
        decreases |events| - i
      {
        assert events[..i + 1][..i] == events[..i];
        if Enabled(events[i]) {
          sound := Handle(events[i]);
        }
        i := i + 1;
      }
      assert events[..|events|] == events;
    }
  }

  /** A new connection that binds, sends one search and is told that the next one is malformed: the first search is lost
      without a callback, and the second one, which had its callback, is still queued. */
  method RejectBehindPending() returns (c: Connection)
    ensures c.anomalies == 1 && !c.Valid() && c.submitted == 2
    ensures 0 !in Serials(c.queue) && 0 !in c.finished && 1 in Serials(c.queue) && 1 in c.finished
    ensures c.pendingCount == |c.queue| == 1 && c.queue[0].msgid == -1
  {
    hide History, Serials, SentPrefix, Phase;
    c := OneSent(n => Answer(if n == 2 then Malformed else Accepted, true));
    var _, last := c.Submit(Search(false));
    assert last == Rejected;
  }

  /** A new connection that is bound and has sent its first search. */
  method OneSent(library: nat -> Answer) returns (c: Connection)
    requires library(0) == library(1) == Answer(Accepted, true)
    ensures fresh(c) && c.Valid() && c.library == library && c.state == BoundDefault
    ensures c.asked == 2 && c.now == 0 && c.anomalies == 0 && c.submitted == 1 && c.finished == {}
    ensures c.pendingCount == 1 && |c.queue| == 1 && c.queue[0].serial == 0 && c.queue[0].created == 0
  {
    hide History, Serials, SentPrefix, Phase;
    c := new Connection(false, true, 0, library);
    var _ := c.Connect();
    var _ := c.DefaultBindFinished(Success);
    var _, step := c.Submit(Search(false));
    assert step == Sent;
  }

  /** A new connection on which TLS does not start: its first request waits, and no timer is left to abort it. */
  method StrandedStart(delayed: bool) returns (c: Connection)
    ensures c.Valid() && c.anomalies == 0 && c.stranded && !c.Watched()
    ensures c.state == Disconnected && |c.queue| == 1 && c.finished == {} && c.timer == NoTimer
  {
    hide History, Serials, SentPrefix, Phase;
    c := new Connection(true, delayed, 0, _ => Answer(Accepted, false));
    var _, step := c.Submit(Search(false));
  }
}
