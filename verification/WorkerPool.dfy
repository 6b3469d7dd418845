/**
 The auth server's pool of worker processes (auth-worker-server.c): a FIFO of
 requests, at most one request in flight per worker, an idle counter, an error
 counter and a throttle that limits how many workers may exist.

 Every event the pool can see is one method of `Pool`.  Connections are kept in a
 table under keys handed out in creation order, so ascending keys are the order
 of the source's connection array.  The ghost history records what became of
 every request ever submitted, so that `Valid()` can say where each of them is;
 the source's assertions appear as `assert` statements.
 */
module WorkerPool {
  import opened Wrappers

  /** A request queued for this long is failed instead of being sent. */
  const ABORT_SECS := 60
  const UINT_RANGE := 0x1_0000_0000

  /** `serial` numbers the requests in submission order; `id` is only meaningful once sent. */
  datatype Request = Request(serial: nat, created: int, id: nat)

  datatype Timer = NoTimer | IdleTimer | CallTimer | ResumeTimer

  datatype Worker = Worker(
    request: Option<Request>,
    idCounter: nat,
    receivedError: bool,
    restart: bool,
    shutdown: bool,
    resumePending: bool,
    resuming: bool,
    timer: Timer,
    reading: bool)
  {
    /** What the timer callbacks and the input handler assert about a worker. */
    predicate Consistent() {
      && (request.None? ==> timer == IdleTimer && !resuming && !resumePending)
      && (request.Some? ==> timer != IdleTimer && request.value.id == idCounter)
      && (timer == NoTimer <==> !reading)
      && (resumePending ==> timer != NoTimer)
    }
  }

  const NEW_WORKER := Worker(None, 0, false, false, false, false, false, IdleTimer, true)

  /** A line read from a worker.  A final reply's callback always returns TRUE;
      a partial ("*") reply's callback may ask for the input to be paused. */
  datatype Line =
    | Restart
    | Shutdown
    | Error
    | Success
    | Malformed
    | Partial(id: nat, keepReading: bool)
    | Final(id: nat)

  /** A terminal callback: the worker's own answer, an abort because the request
      was queued for too long, or an internal failure because the worker went away. */
  datatype Outcome =
    | Replied(serial: nat)
    | TooOld(serial: nat)
    | WorkerLost(serial: nat)

  /** What the input loop does after a line: read on, leave the loop, or return because the worker is gone. */
  datatype Next = ReadOn | Leave | Gone

  /** What can happen to the pool; `connectOk` says whether starting a worker process would succeed. */
  datatype Event =
    | Call(connectOk: bool)
    | Lines(key: nat, lines: seq<Line>, connectOk: bool)
    | Death(key: nat, connectOk: bool)
    | IdleTimerFires(key: nat, connectOk: bool)
    | CallTimerFires(key: nat, connectOk: bool)
    | Resume(key: nat)
    | ResumeTimerFires(key: nat, lines: seq<Line>, connectOk: bool)
    | TimePasses(secs: nat)

  /** How many requests are submitted, and how much time passes. */
  ghost function Calls(events: seq<Event>): nat {
    if events == [] then 0
    else Calls(events[..|events| - 1]) + if events[|events| - 1].Call? then 1 else 0
  }

  ghost function Elapsed(events: seq<Event>): nat {
    if events == [] then 0
    else Elapsed(events[..|events| - 1]) + if events[|events| - 1].TimePasses? then events[|events| - 1].secs else 0
  }

  /** Where a submitted request is now.  `Done(i)` points at its log entry. */
  datatype Status = Queued | InFlight(key: nat) | Done(index: nat)

  /** A worker that has just been sent `r` under its next id. */
  function Busy(w: Worker, r: Request): (b: Worker)
    ensures w.Consistent() && w.request.None? ==> b.Consistent()
  {
    var id := (w.idCounter + 1) % UINT_RANGE;
    w.(request := Some(r.(id := id)), idCounter := id, timer := CallTimer)
  }

  /** `w` is working on `r`. */
  ghost predicate Sent(w: Worker, r: Request) {
    w.request.Some? && w.request.value.serial == r.serial && w.request.value.created == r.created
  }

  lemma FlagKeeps(w: Worker, v: Worker)
    requires w.Consistent() && v == w.(receivedError := v.receivedError, restart := v.restart, shutdown := v.shutdown)
    ensures v.Consistent()
  {
  }

  /** A worker whose request was just answered. */
  function Finished(w: Worker): Worker {
    w.(resuming := false, request := None, resumePending := false, timer := IdleTimer)
  }

  /** A worker after one line of a multi-line reply; `keep` is what the callback returned. */
  function AfterPartial(w: Worker, keep: bool): Worker {
    var v := if w.resuming then w else w.(resuming := true, timer := CallTimer);
    if keep then v else v.(resumePending := false, timer := NoTimer, reading := false)
  }

  /** Whether a reply line answers the request that `w` is working on. */
  predicate Answers(w: Worker, line: Line) {
    (line.Partial? || line.Final?) && w.request.Some? && line.id == w.request.value.id
  }

  /** What the input loop does after `line`, when `failing` workers have reported an error. */
  function NextStep(w: Worker, line: Line, failing: int): Next {
    match line
    case Error => if !w.receivedError && failing > 0 then Gone else ReadOn
    case Partial(_, keep) => if !Answers(w, line) then Gone else if keep then ReadOn else Leave
    case Final(_) => if Answers(w, line) then ReadOn else Gone
    case _ => ReadOn
  }

  /** The worker after `line`, when it survives the line. */
  function AfterLine(w: Worker, line: Line): Worker {
    match line
    case Restart => w.(restart := true)
    case Shutdown => w.(shutdown := true)
    case Error => w.(receivedError := true)
    case Success => w.(receivedError := false)
    case Malformed => w
    case Partial(_, keep) => AfterPartial(w, keep)
    case Final(_) => Finished(w)
  }

  /** The terminal callback made for `line`. */
  function Answered(w: Worker, line: Line): seq<Outcome> {
    if line.Final? && Answers(w, line) then [Replied(w.request.value.serial)] else []
  }

  /** The callback made when `w` goes away. */
  function Lost(w: Worker): seq<Outcome> {
    if w.request.Some? then [WorkerLost(w.request.value.serial)] else []
  }

  predicate IsTooOld(r: Request, now: int) {
    now - r.created >= ABORT_SECS
  }

  /** The terminal callbacks for the requests at the front of the queue that waited too long. */
  ghost function Expired(queue: seq<Request>, now: int): seq<Outcome> {
    if queue == [] || !IsTooOld(queue[0], now) then []
    else [TooOld(queue[0].serial)] + Expired(queue[1..], now)
  }

  /** The queue without those requests. */
  ghost function Fresh(queue: seq<Request>, now: int): (rest: seq<Request>)
    ensures |rest| <= |queue|
  {
    if queue == [] || !IsTooOld(queue[0], now) then queue else Fresh(queue[1..], now)
  }

  lemma FreshStep(queue: seq<Request>, now: int)
    requires queue != []
    ensures IsTooOld(queue[0], now) ==>
              Fresh(queue, now) == Fresh(queue[1..], now)
              && Expired(queue, now) == [TooOld(queue[0].serial)] + Expired(queue[1..], now)
    ensures !IsTooOld(queue[0], now) ==> Fresh(queue, now) == queue && Expired(queue, now) == []
  {
  }

  lemma FreshNone(queue: seq<Request>, now: int)
    ensures queue == [] ==> Fresh(queue, now) == [] && Expired(queue, now) == []
  {
  }

  // ---------------------------------------------------------------- invariant

  type Workers = map<nat, Worker>

  ghost function Idle(workers: Workers): set<nat> {
    set k | k in workers && workers[k].request.None?
  }

  ghost function Failing(workers: Workers): set<nat> {
    set k | k in workers && workers[k].receivedError
  }

  /** Requests leave the queue in submission order: what is still queued is
      exactly the last |queue| submissions, oldest first. */
  ghost predicate Fifo(queue: seq<Request>, submitted: nat, status: map<nat, Status>, now: int) {
    && |queue| <= submitted
    && (forall i :: 0 <= i < |queue| ==> queue[i].serial == submitted - |queue| + i && queue[i].created <= now)
    && (forall s :: s in status <==> 0 <= s < submitted)
    && (forall s :: s in status ==> (status[s].Queued? <==> submitted - |queue| <= s))
  }

  /** Every request that left the queue is in flight on exactly one worker or
      was completed by exactly one terminal callback. */
  ghost predicate Conserved(workers: Workers, status: map<nat, Status>, log: seq<Outcome>) {
    && (forall k :: k in workers && workers[k].request.Some? ==>
          workers[k].request.value.serial in status && status[workers[k].request.value.serial] == InFlight(k))
    && (forall s :: s in status && status[s].InFlight? ==>
          status[s].key in workers && workers[status[s].key].request.Some?
          && workers[status[s].key].request.value.serial == s)
    && (forall i :: 0 <= i < |log| ==> log[i].serial in status && status[log[i].serial] == Done(i))
    && (forall s :: s in status && status[s].Done? ==> status[s].index < |log| && log[status[s].index].serial == s)
  }

  /** No worker but `k` has changed or gone. */
  ghost predicate OthersKept(before: Workers, after: Workers, k: nat) {
    forall j :: j in before && j != k ==> j in after && after[j] == before[j]
  }

  lemma KeptAll(workers: Workers, k: nat)
    ensures OthersKept(workers, workers, k)
  {
  }

  lemma KeptButOne(workers: Workers, k: nat, w: Worker)
    ensures OthersKept(workers, workers[k := w], k)
  {
  }

  lemma KeptOn(a: Workers, b: Workers, c: Workers, k: nat)
    requires OthersKept(a, b, k) && OthersKept(b, c, k)
    ensures OthersKept(a, c, k)
  {
  }

  // -------------------------------------------------- events as functions

  /** What an event says about the pool; the idle count and the status of each request follow from it. */
  datatype View = View(workers: Workers, nextKey: nat, queue: seq<Request>, log: seq<Outcome>, failing: int,
                       throttle: int)

  /** The idle worker `k` gets the first request that has not waited for too long. */
  ghost function Served(v: View, k: nat, now: int): View
    requires k in v.workers
  {
    var waiting := Fresh(v.queue, now);
    v.(queue := if waiting == [] then [] else waiting[1..],
       log := v.log + Expired(v.queue, now),
       workers := if waiting == [] then v.workers else v.workers[k := Busy(v.workers[k], waiting[0])])
  }

  /** Worker `k` goes away, and its request fails. */
  ghost function Dropped(v: View, k: nat): View
    requires k in v.workers
  {
    v.(workers := v.workers - {k}, log := v.log + Lost(v.workers[k]),
       failing := v.failing - One(v.workers[k].receivedError))
  }

  /** Worker `k` goes away, and a replacement serves the queue if that is asked for and nobody else is idle. */
  ghost function Destroyed(v: View, k: nat, restart: bool, connectOk: bool, now: int): View
    requires k in v.workers
  {
    var left := Dropped(v, k);
    if restart && Idle(v.workers) <= {k} && |v.workers| - 1 < v.throttle && connectOk then
      Served(left.(workers := left.workers[v.nextKey := NEW_WORKER], nextKey := v.nextKey + 1), v.nextKey, now)
    else left
  }

  lemma DestroyedAs(v: View, k: nat, restart: bool, connectOk: bool, now: int)
    requires k in v.workers
    ensures var left, after := Dropped(v, k), Destroyed(v, k, restart, connectOk, now);
            if restart && Idle(v.workers) <= {k} && |v.workers| - 1 < v.throttle && connectOk then
              after == Served(left.(workers := left.workers[v.nextKey := NEW_WORKER], nextKey := v.nextKey + 1),
                              v.nextKey, now)
            else after == left
  {
    hide Idle, Served, Lost;
  }

  lemma DestroyedKeeps(v: View, k: nat, restart: bool, connectOk: bool, now: int)
    requires k in v.workers && forall j :: j in v.workers ==> j < v.nextKey
    ensures var d := Destroyed(v, k, restart, connectOk, now);
            OthersKept(v.workers, d.workers, k) && k !in d.workers && v.log + Lost(v.workers[k]) <= d.log
  {
    hide Idle, Expired, Fresh, Lost, Busy;
  }

  lemma ServedKeeps(v: View, k: nat, now: int)
    requires k in v.workers
    ensures var d := Served(v, k, now); OthersKept(v.workers, d.workers, k) && v.log <= d.log
  {
    hide Expired, Fresh, Busy;
  }

  ghost function Shrunk(v: View): int {
    var n := |v.workers|;
    if v.throttle >= n then n - 1 else if v.throttle > 1 then v.throttle - 1 else v.throttle
  }

  /** One line from worker `k`. */
  ghost function LineTo(v: View, k: nat, line: Line, max: nat, connectOk: bool, now: int): View
    requires k in v.workers
  {
    var w := v.workers[k];
    if NextStep(w, line, v.failing) == Gone then
      if line.Error? then
        var marked := v.workers[k := w.(receivedError := true)];
        Destroyed(v.(workers := marked, failing := v.failing + 1, throttle := Shrunk(v)), k, false, connectOk, now)
      else Destroyed(v, k, true, connectOk, now)
    else
      var after := v.(workers := v.workers[k := AfterLine(w, line)], log := v.log + Answered(w, line));
      if line.Error? && !w.receivedError then after.(failing := 1, throttle := |v.workers|)
      else if line.Success? && w.receivedError then after.(failing := v.failing - 1, throttle := Raised(v, max))
      else after
  }

  /** A worker that is marked as failing and then goes leaves the same as one that just goes, but for the throttle. */
  lemma MarkedAway(v: View, u: View, k: nat, connectOk: bool, now: int)
    requires k in v.workers && !v.workers[k].receivedError && v.failing > 0
    requires u == v.(workers := v.workers[k := v.workers[k].(receivedError := true)], failing := v.failing + 1)
    ensures var d := Destroyed(u.(throttle := Shrunk(u)), k, false, connectOk, now);
            && (forall max :: d == LineTo(v, k, Error, max, connectOk, now))
            && d.workers == v.workers - {k} && d.queue == v.queue && d.log == v.log + Lost(v.workers[k])
            && d.throttle == Shrunk(v)
  {
    hide Idle, Served, AfterLine, Answered;
    assert |u.workers| == |v.workers| by {
      assert u.workers.Keys == v.workers.Keys;
    }
    assert u.workers - {k} == v.workers - {k};
  }

  ghost function Raised(v: View, max: nat): int {
    if v.failing == 1 then max else if v.throttle < max then v.throttle + 1 else v.throttle
  }

  /** A line changes no worker but `k`, which goes with its request failed or is as the line leaves it. */
  lemma LineKeeps(v: View, k: nat, line: Line, max: nat, connectOk: bool, now: int)
    requires k in v.workers && forall j :: j in v.workers ==> j < v.nextKey
    ensures var d := LineTo(v, k, line, max, connectOk, now);
            && OthersKept(v.workers, d.workers, k) && v.log <= d.log
            && (if NextStep(v.workers[k], line, v.failing) == Gone then
                  k !in d.workers && v.log + Lost(v.workers[k]) <= d.log
                else
                  d.workers == v.workers[k := AfterLine(v.workers[k], line)] && d.queue == v.queue
                  && d.log == v.log + Answered(v.workers[k], line))
  {
    hide Destroyed, AfterLine, Answered, NextStep, Lost;
    var w := v.workers[k];
    if NextStep(w, line, v.failing) == Gone {
      if line.Error? {
        ErrorGoes(w, v.failing);
        var marked := v.workers[k := w.(receivedError := true)];
        var u := v.(workers := marked, failing := v.failing + 1, throttle := Shrunk(v));
        DestroyedKeeps(u, k, false, connectOk, now);
        SameRequest(w);
      } else {
        DestroyedKeeps(v, k, true, connectOk, now);
      }
    }
  }

  lemma StaysReading(w: Worker, line: Line, failing: int)
    requires w.reading
    ensures NextStep(w, line, failing) == ReadOn ==> AfterLine(w, line).reading
  {
  }

  lemma ErrorGoes(w: Worker, failing: int)
    ensures NextStep(w, Error, failing) == Gone <==> !w.receivedError && failing > 0
  {
  }

  lemma SameRequest(w: Worker)
    ensures Lost(w.(receivedError := true)) == Lost(w)
  {
  }

  lemma QuietLine(v: View, k: nat, line: Line, max: nat, connectOk: bool, now: int)
    requires k in v.workers && (line.Restart? || line.Shutdown? || line.Malformed?)
    ensures NextStep(v.workers[k], line, v.failing) == ReadOn
    ensures var w := v.workers[k];
            LineTo(v, k, line, max, connectOk, now)
            == v.(workers := v.workers[k := w.(restart := w.restart || line.Restart?,
                                               shutdown := w.shutdown || line.Shutdown?)])
  {
    hide Destroyed;
    assert v.log + [] == v.log;
  }

  lemma ErrorLine(v: View, k: nat, max: nat, connectOk: bool, now: int)
    requires k in v.workers && (v.workers[k].receivedError || v.failing <= 0)
    ensures var w := v.workers[k];
            LineTo(v, k, Error, max, connectOk, now)
            == v.(workers := v.workers[k := w.(receivedError := true)],
                  failing := if w.receivedError then v.failing else 1,
                  throttle := if w.receivedError then v.throttle else |v.workers|)
  {
    hide Destroyed;
    assert v.log + [] == v.log;
  }

  lemma SuccessLine(v: View, k: nat, max: nat, connectOk: bool, now: int)
    requires k in v.workers
    ensures var w := v.workers[k];
            LineTo(v, k, Success, max, connectOk, now)
            == v.(workers := v.workers[k := w.(receivedError := false)], failing := v.failing - One(w.receivedError),
                  throttle := if !w.receivedError then v.throttle else if v.failing == 1 then max
                              else if v.throttle < max then v.throttle + 1 else v.throttle)
  {
    hide Destroyed;
    assert v.log + [] == v.log;
  }

  lemma ReplyLine(v: View, k: nat, line: Line, max: nat, connectOk: bool, now: int)
    requires k in v.workers && (line.Partial? || line.Final?)
    ensures !Answers(v.workers[k], line) ==>
              && NextStep(v.workers[k], line, v.failing) == Gone
              && LineTo(v, k, line, max, connectOk, now) == Destroyed(v, k, true, connectOk, now)
    ensures Answers(v.workers[k], line) ==>
              && NextStep(v.workers[k], line, v.failing)
                 == (if line.Partial? && !line.keepReading then Leave else ReadOn)
              && LineTo(v, k, line, max, connectOk, now)
                 == v.(workers := v.workers[k := AfterLine(v.workers[k], line)],
                       log := v.log + Answered(v.workers[k], line))
  {
    hide Destroyed, AfterLine, Answered;
  }

  /**
   A final reply leaves the worker idle and its request replied; a partial one keeps the request in flight, restarts the
   call timer with the first line of the reply, and stops reading if the callback asks for that.
   */
  lemma ReplyMeans(w: Worker, line: Line)
    requires Answers(w, line)
    ensures line.Final? ==>
              && AfterLine(w, line).request == None && AfterLine(w, line).timer == IdleTimer
              && Answered(w, line) == [Replied(w.request.value.serial)]
    ensures line.Partial? ==>
              && AfterLine(w, line).request == w.request && AfterLine(w, line).resuming && Answered(w, line) == []
              && AfterLine(w, line).reading == (w.reading && line.keepReading)
              && AfterLine(w, line).timer
                 == if !line.keepReading then NoTimer else if w.resuming then w.timer else CallTimer
    ensures AfterLine(w, line).idCounter == w.idCounter && AfterLine(w, line).receivedError == w.receivedError
    ensures AfterLine(w, line).restart == w.restart && AfterLine(w, line).shutdown == w.shutdown
  {
  }

  /** The requests that waited for a minute or longer at the front of the queue are failed, and no others. */
  lemma {:induction false} FreshExactly(queue: seq<Request>, now: int)
    ensures var n := |Expired(queue, now)|;
            && n <= |queue| && Fresh(queue, now) == queue[n..]
            && (forall i :: 0 <= i < n ==>
                  now - queue[i].created >= 60 && Expired(queue, now)[i] == TooOld(queue[i].serial))
            && (n < |queue| ==> now - queue[n].created < 60)
  {
    if queue != [] && IsTooOld(queue[0], now) {
      FreshExactly(queue[1..], now);
    }
  }

  /**
   After the last line a busy worker goes on.  An idle one that asked for RESTART goes and is replaced if nobody else is
   idle, there is room and the new one can be started; one that asked only for SHUTDOWN just goes; any other stays.
   */
  lemma FinishMeans(v: View, k: nat, connectOk: bool, now: int)
    requires k in v.workers && k < v.nextKey
    ensures var w, d := v.workers[k], FinishTo(v, k, connectOk, now);
            && (w.request.Some? ==> d == v)
            && (w.request.None? && w.restart ==>
                  && k !in d.workers
                  && (v.nextKey in d.workers - v.workers.Keys <==>
                      v.nextKey !in v.workers && |v.workers| - 1 < v.throttle && connectOk
                      && forall j :: j in v.workers && j != k ==> v.workers[j].request.Some?))
            && (w.request.None? && !w.restart && w.shutdown ==>
                  d == v.(workers := v.workers - {k}, failing := v.failing - if w.receivedError then 1 else 0))
            && (w.request.None? && !w.restart && !w.shutdown ==>
                  d.workers.Keys == v.workers.Keys && (d.workers[k].request.None? ==> d.queue == []))
  {
    hide Expired, Fresh;
    var w := v.workers[k];
    if w.request.None? && w.restart {
      IdleAlone(v.workers, k);
      hide Idle;
    }
    assert v.log + [] == v.log;
  }

  lemma IdleAlone(workers: Workers, k: nat)
    ensures Idle(workers) <= {k} <==> forall j :: j in workers && j != k ==> workers[j].request.Some?
  {
    forall j | j in workers && j != k && workers[j].request.None?
      ensures j in Idle(workers)
    {
    }
  }

  /** After the last line an idle worker is retired if it asked for that, and gets work otherwise. */
  ghost function FinishTo(v: View, k: nat, connectOk: bool, now: int): View
    requires k in v.workers
  {
    var w := v.workers[k];
    if w.request.Some? then v
    else if w.restart then Destroyed(v, k, true, connectOk, now)
    else if w.shutdown then Destroyed(v, k, false, connectOk, now)
    else Served(v, k, now)
  }

  /** A whole read: line after line, until one of them pauses the input or destroys the worker. */
  ghost function InputTo(v: View, k: nat, lines: seq<Line>, max: nat, connectOk: bool, now: int): View
    requires k in v.workers
    decreases |lines|
  {
    if lines == [] then FinishTo(v, k, connectOk, now)
    else
      var next, after := NextStep(v.workers[k], lines[0], v.failing), LineTo(v, k, lines[0], max, connectOk, now);
      if next == Gone then after
      else if next == Leave then FinishTo(after, k, connectOk, now)
      else InputTo(after, k, lines[1..], max, connectOk, now)
  }

  // -------------------------------------------------- how one step moves the sets

  lemma UpdateWorker(workers: Workers, k: nat, w: Worker)
    requires k in workers
    ensures |workers[k := w]| == |workers|
    ensures |Idle(workers[k := w])| == |Idle(workers)| - One(workers[k].request.None?) + One(w.request.None?)
    ensures |Failing(workers[k := w])| == |Failing(workers)| - One(workers[k].receivedError) + One(w.receivedError)
  {
    assert workers[k := w].Keys == workers.Keys;
    UpdateIdle(workers, k, w);
    UpdateFailing(workers, k, w);
  }

  function One(b: bool): int {
    if b then 1 else 0
  }

  lemma UpdateIdle(workers: Workers, k: nat, w: Worker)
    requires k in workers
    ensures |Idle(workers[k := w])| == |Idle(workers)| - One(workers[k].request.None?) + One(w.request.None?)
  {
    var rest := Idle(workers) - {k};
    assert Idle(workers) == if workers[k].request.None? then rest + {k} else rest;
    assert Idle(workers[k := w]) == if w.request.None? then rest + {k} else rest;
  }

  lemma UpdateFailing(workers: Workers, k: nat, w: Worker)
    requires k in workers
    ensures |Failing(workers[k := w])| == |Failing(workers)| - One(workers[k].receivedError) + One(w.receivedError)
  {
    var rest := Failing(workers) - {k};
    assert Failing(workers) == if workers[k].receivedError then rest + {k} else rest;
    assert Failing(workers[k := w]) == if w.receivedError then rest + {k} else rest;
  }

  lemma AddWorker(workers: Workers, k: nat)
    requires k !in workers
    ensures var after := workers[k := NEW_WORKER];
            |after| == |workers| + 1 && |Idle(after)| == |Idle(workers)| + 1 && |Failing(after)| == |Failing(workers)|
  {
    var after := workers[k := NEW_WORKER];
    assert after.Keys == workers.Keys + {k};
    assert Idle(after) == Idle(workers) + {k};
    assert Failing(after) == Failing(workers);
  }

  lemma RemoveWorker(workers: Workers, k: nat)
    requires k in workers
    ensures var after := workers - {k};
            && |after| == |workers| - 1
            && |Idle(after)| == |Idle(workers)| - One(workers[k].request.None?)
            && |Failing(after)| == |Failing(workers)| - One(workers[k].receivedError)
            && Idle(after) == Idle(workers) - {k}
    ensures |Failing(workers)| <= |workers|
  {
    Subset(Failing(workers), workers.Keys);
    var after := workers - {k};
    assert after.Keys == workers.Keys - {k};
    assert Idle(after) == Idle(workers) - {k};
    assert Failing(after) == Failing(workers) - {k};
  }

  /** Nobody but `k` is idle exactly when removing `k` leaves no idle worker. */
  lemma EmptyIdle(workers: Workers, k: nat)
    ensures Idle(workers) <= {k} <==> |Idle(workers) - {k}| == 0
  {
    if |Idle(workers) - {k}| == 0 {
      assert Idle(workers) - {k} == {};
    }
  }

  /** With `k` busy, nobody but `k` being idle means that nobody is idle. */
  lemma BusyAlone(workers: Workers, k: nat)
    ensures |Idle(workers)| == 0 ==> Idle(workers) <= {k}
    ensures k in workers && workers[k].request.Some? && Idle(workers) <= {k} ==> |Idle(workers)| == 0
  {
    EmptyIdle(workers, k);
    if k in workers && workers[k].request.Some? && Idle(workers) <= {k} {
      assert Idle(workers) == {};
    }
  }

  lemma SomeIdle(workers: Workers)
    requires |Idle(workers)| > 0
    ensures exists k :: k in workers && workers[k].request.None?
  {
    var k :| k in Idle(workers);
  }

  lemma Subset(a: set<nat>, b: set<nat>)
    requires a <= b
    ensures |a| <= |b|
  {
    assert b == a + (b - a);
  }

  /** The counters are what they are meant to count, and no worker is in a state its handlers assert against. */
  ghost predicate Counted(workers: Workers, nextKey: nat, idle: nat, failing: nat, throttle: nat, max: nat) {
    && idle == |Idle(workers)|
    && failing == |Failing(workers)|
    && 1 <= throttle <= max
    && |workers| <= max
    && (forall k :: k in workers ==> k < nextKey && workers[k].Consistent())
  }

  lemma CountedOne(workers: Workers, nextKey: nat, idle: nat, failing: nat, throttle: nat, max: nat, k: nat)
    requires Counted(workers, nextKey, idle, failing, throttle, max) && k in workers
    ensures k < nextKey && workers[k].Consistent() && failing <= |workers|
    ensures 1 <= throttle <= max && 0 < |workers| <= max
    ensures (workers[k].request.None? ==> idle > 0) && (workers[k].receivedError ==> failing > 0)
  {
    hide Worker.Consistent;
    RemoveWorker(workers, k);
  }

  lemma CountedUpdate(workers: Workers, nextKey: nat, idle: nat, failing: nat, throttle: nat, max: nat, k: nat,
                      w: Worker)
    requires Counted(workers, nextKey, idle, failing, throttle, max) && k in workers && w.Consistent()
    ensures |workers[k := w]| == |workers|
    ensures var idle' := idle - One(workers[k].request.None?) + One(w.request.None?);
            var failing' := failing - One(workers[k].receivedError) + One(w.receivedError);
            idle' >= 0 && failing' >= 0 && Counted(workers[k := w], nextKey, idle', failing', throttle, max)
            && failing' <= |workers|
  {
    hide Worker.Consistent, Idle, Failing;
    UpdateWorker(workers, k, w);
    FailingBound(workers[k := w]);
  }

  lemma FailingBound(workers: Workers)
    ensures |Failing(workers)| <= |workers|
  {
    Subset(Failing(workers), workers.Keys);
  }

  lemma CountedAdd(workers: Workers, nextKey: nat, idle: nat, failing: nat, throttle: nat, max: nat)
    requires Counted(workers, nextKey, idle, failing, throttle, max) && |workers| < throttle
    ensures nextKey !in workers
    ensures Counted(workers[nextKey := NEW_WORKER], nextKey + 1, idle + 1, failing, throttle, max)
  {
    hide Idle, Failing;
    AddWorker(workers, nextKey);
  }

  lemma CountedDrop(workers: Workers, nextKey: nat, idle: nat, failing: nat, throttle: nat, max: nat, k: nat)
    requires Counted(workers, nextKey, idle, failing, throttle, max) && k in workers
    ensures var idle' := idle - One(workers[k].request.None?);
            var failing' := failing - One(workers[k].receivedError);
            idle' >= 0 && failing' >= 0 && Counted(workers - {k}, nextKey, idle', failing', throttle, max)
    ensures Idle(workers - {k}) == Idle(workers) - {k} && failing <= |workers|
  {
    hide Worker.Consistent, Idle, Failing;
    RemoveWorker(workers, k);
  }

  lemma CountedThrottle(workers: Workers, nextKey: nat, idle: nat, failing: nat, throttle: nat, max: nat, limit: nat)
    requires Counted(workers, nextKey, idle, failing, throttle, max) && 1 <= limit <= max
    ensures Counted(workers, nextKey, idle, failing, limit, max)
  {
    hide Idle, Failing, Worker.Consistent;
  }

  /** The n-th request sent on a connection has id n, modulo 2^32, and the last one is the one in flight. */
  ghost predicate Numbered(workers: Workers, sends: map<nat, seq<nat>>) {
    forall k :: k in workers ==>
      && k in sends && workers[k].idCounter == |sends[k]| % 0x1_0000_0000
      && (workers[k].request.Some? ==>
            sends[k] != [] && workers[k].request.value.serial == sends[k][|sends[k]| - 1])
  }

  lemma NumberedSame(workers: Workers, sends: map<nat, seq<nat>>, k: nat, w: Worker)
    requires Numbered(workers, sends) && k in workers && w.idCounter == workers[k].idCounter
    requires w.request == workers[k].request || w.request.None?
    ensures Numbered(workers[k := w], sends)
  {
  }

  lemma NumberedSent(workers: Workers, sends: map<nat, seq<nat>>, k: nat, r: Request)
    requires Numbered(workers, sends) && k in workers
    ensures k in sends && Numbered(workers[k := Busy(workers[k], r)], sends[k := sends[k] + [r.serial]])
    ensures Busy(workers[k], r).idCounter == (|sends[k]| + 1) % 0x1_0000_0000
  {
    Successor(|sends[k]|);
  }

  lemma Successor(n: nat)
    ensures (n % 0x1_0000_0000 + 1) % 0x1_0000_0000 == (n + 1) % 0x1_0000_0000
  {
  }

  lemma NumberedNew(workers: Workers, sends: map<nat, seq<nat>>, k: nat)
    requires Numbered(workers, sends) && k !in workers
    ensures Numbered(workers[k := NEW_WORKER], sends[k := []])
  {
  }

  lemma NumberedLess(workers: Workers, sends: map<nat, seq<nat>>, k: nat)
    requires Numbered(workers, sends)
    ensures Numbered(workers - {k}, sends)
  {
  }

  /** Two numbers that are less than 2^32 apart are different ids. */
  lemma IdsDiffer(n: nat, m: nat)
    requires n < m < n + 0x1_0000_0000
    ensures n % 0x1_0000_0000 != m % 0x1_0000_0000
  {
  }

  // ------------------------------------------- how one step moves one request

  /** A request goes from the queue to an idle worker. */
  lemma Dispatch(workers: Workers, status: map<nat, Status>, log: seq<Outcome>, k: nat, w: Worker)
    requires Conserved(workers, status, log)
    requires k in workers && workers[k].request.None?
    requires w.request.Some? && w.request.value.serial in status && status[w.request.value.serial].Queued?
    ensures Conserved(workers[k := w], status[w.request.value.serial := InFlight(k)], log)
  {
  }

  /** Changing a worker without changing its request moves no request. */
  lemma Relabel(workers: Workers, status: map<nat, Status>, log: seq<Outcome>, k: nat, w: Worker)
    requires Conserved(workers, status, log)
    requires k in workers && w.request == workers[k].request
    ensures Conserved(workers[k := w], status, log)
    ensures Idle(workers[k := w]) == Idle(workers)
    ensures |Failing(workers[k := w])| <= |workers[k := w]|
  {
    assert Idle(workers[k := w]) == Idle(workers) && |Failing(workers[k := w])| <= |workers[k := w]| by {
      hide Conserved;
      Subset(Failing(workers[k := w]), workers[k := w].Keys);
    }
    hide Idle, Failing;
  }

  /** A new request joins; nobody refers to its serial yet. */
  lemma Enter(workers: Workers, status: map<nat, Status>, log: seq<Outcome>, s: nat)
    requires Conserved(workers, status, log) && s !in status
    ensures Conserved(workers, status[s := Queued], log)
  {
  }

  lemma EnterFifo(queue: seq<Request>, submitted: nat, status: map<nat, Status>, now: int, r: Request, k: nat)
    requires Fifo(queue, submitted, status, now) && r.serial == submitted && r.created <= now
    ensures submitted !in status && Fifo(queue + [r], submitted + 1, status[submitted := Queued], now)
    ensures queue == [] ==> Fifo([], submitted + 1, status[submitted := Queued][submitted := InFlight(k)], now)
  {
  }

  /** A queued request is completed without ever being sent. */
  lemma Expire(workers: Workers, status: map<nat, Status>, log: seq<Outcome>, o: Outcome)
    requires Conserved(workers, status, log)
    requires o.serial in status && status[o.serial].Queued?
    ensures Conserved(workers, status[o.serial := Done(|log|)], log + [o])
  {
  }

  /** The request of worker `k` is completed and the worker becomes idle. */
  lemma Complete(workers: Workers, status: map<nat, Status>, log: seq<Outcome>, k: nat, w: Worker, o: Outcome)
    requires Conserved(workers, status, log)
    requires k in workers && workers[k].request.Some? && w.request.None?
    requires o.serial == workers[k].request.value.serial
    ensures o.serial in status && status[o.serial].InFlight?
    ensures Conserved(workers[k := w], status[o.serial := Done(|log|)], log + [o])
    ensures Idle(workers[k := w]) == Idle(workers) + {k}
  {
  }

  lemma AddedIdle(workers: Workers, status: map<nat, Status>, log: seq<Outcome>, k: nat)
    requires Conserved(workers, status, log) && k !in workers
    ensures Conserved(workers[k := NEW_WORKER], status, log)
  {
  }

  lemma DropIdle(workers: Workers, status: map<nat, Status>, log: seq<Outcome>, k: nat)
    requires Conserved(workers, status, log)
    requires k in workers && workers[k].request.None?
    ensures Conserved(workers - {k}, status, log)
  {
  }

  /** The request of worker `k` is completed because the worker goes away. */
  lemma DropBusy(workers: Workers, status: map<nat, Status>, log: seq<Outcome>, k: nat, o: Outcome)
    requires Conserved(workers, status, log)
    requires k in workers && workers[k].request.Some?
    requires o.serial == workers[k].request.value.serial
    ensures o.serial in status && status[o.serial].InFlight?
    ensures Conserved(workers - {k}, status[o.serial := Done(|log|)], log + [o])
  {
  }

  /** Completing a request that is in flight does not touch the queue. */
  lemma KeepFifo(queue: seq<Request>, submitted: nat, status: map<nat, Status>, now: int, s: nat, i: nat)
    requires Fifo(queue, submitted, status, now) && s in status && !status[s].Queued?
    ensures Fifo(queue, submitted, status[s := Done(i)], now)
  {
  }

  lemma Advance(queue: seq<Request>, submitted: nat, status: map<nat, Status>, now: int, st: Status)
    requires Fifo(queue, submitted, status, now) && queue != [] && !st.Queued?
    ensures queue[0].serial in status && status[queue[0].serial].Queued?
    ensures Fifo(queue[1..], submitted, status[queue[0].serial := st], now)
  {
    assert queue[0].serial == submitted - |queue|;
    var rest := queue[1..];
    forall i | 0 <= i < |rest|
      ensures rest[i].serial == submitted - |rest| + i && rest[i].created <= now
    {
      assert rest[i] == queue[i + 1];
    }
  }

  class Pool {
    var workers: Workers
    var nextKey: nat
    var idleCount: nat
    var workersWithErrors: nat
    var throttle: nat
    var queue: seq<Request>
    var now: int
    const maxCount: nat

    var submitted: nat
    ghost var status: map<nat, Status>
    ghost var log: seq<Outcome>
    ghost var partials: seq<nat>
    /** The requests sent on each connection, in order. */
    ghost var sends: map<nat, seq<nat>>

    constructor (maxCount: nat, now: int)
      requires maxCount > 0
      ensures Valid()
      ensures this.maxCount == maxCount && throttle == maxCount && this.now == now
      ensures workers == map[] && idleCount == nextKey == submitted == 0 && queue == [] && log == []
    {
      this.maxCount, throttle, this.now := maxCount, maxCount, now;
      workers, nextKey, queue, idleCount, workersWithErrors := map[], 0, [], 0, 0;
      submitted, status, log, partials, sends := 0, map[], [], [], map[];
    }

    ghost predicate Counts()
      reads this
    {
      Counted(workers, nextKey, idleCount, workersWithErrors, throttle, maxCount)
    }

    lemma CountsOne(k: nat)
      requires Counts() && k in workers
      ensures k < nextKey && workers[k].Consistent() && workersWithErrors <= |workers|
      ensures 1 <= throttle <= maxCount && 0 < |workers| <= maxCount
      ensures (workers[k].request.None? ==> idleCount > 0) && (workers[k].receivedError ==> workersWithErrors > 0)
    {
      hide Counted;
      CountedOne(workers, nextKey, idleCount, workersWithErrors, throttle, maxCount, k);
    }

    lemma CountsIdle()
      requires Counts()
      ensures idleCount == |Idle(workers)| && forall k :: k in workers ==> k < nextKey
    {
      hide Idle, Failing, Worker.Consistent;
    }

    ghost predicate Consistent()
      reads this
    {
      && Counts() && Fifo(queue, submitted, status, now) && Conserved(workers, status, log)
      && Numbered(workers, sends)
    }

    ghost function Seen(): View
      reads this
    {
      View(workers, nextKey, queue, log, workersWithErrors, throttle)
    }

    lemma KeysBelow(k: nat)
      requires ValidExcept(k)
      ensures forall j :: j in workers ==> j < nextKey
    {
      hide Counted, Conserved, Numbered, Fifo;
      CountsIdle();
    }

    /** A worker that is not idle is no exception. */
    lemma NoException(k: nat)
      requires Valid()
      ensures ValidExcept(k)
    {
      hide Counted, Conserved, Numbered, Fifo, Idle;
      CountsIdle();
      BusyAlone(workers, k);
    }

    /** A reply answers the request in flight exactly if it carries the number of requests sent on the connection. */
    lemma AnswersExactly(k: nat, line: Line)
      requires Consistent() && k in workers && (line.Partial? || line.Final?)
      ensures k in sends
      ensures Answers(workers[k], line) <==> workers[k].request.Some? && line.id == |sends[k]| % 0x1_0000_0000
    {
      hide Conserved, Fifo, Counted;
      CountsOne(k);
    }

    /**
     A reply to the n-th request of a connection, repeated after that request is done and before 2^32 further ones are
     sent there, answers nothing and costs the worker.
     */
    lemma StaleReply(k: nat, n: nat, line: Line)
      requires Consistent() && k in workers && k in sends && (line.Partial? || line.Final?)
      requires n <= |sends[k]| < n + 0x1_0000_0000 && (n == |sends[k]| ==> workers[k].request.None?)
      requires line.id == n % 0x1_0000_0000
      ensures NextStep(workers[k], line, workersWithErrors) == Gone
    {
      hide Conserved, Fifo, Counted;
      AnswersExactly(k, line);
      if n < |sends[k]| {
        IdsDiffer(n, |sends[k]|);
      }
    }

    /** What holds between events: on top of `Consistent()`, nobody waits while a worker is idle. */
    ghost predicate Valid()
      reads this
    {
      Consistent() && (queue != [] ==> idleCount == 0)
    }

    /** While the input of worker `k` is being handled, `k` alone may be idle with requests waiting. */
    ghost predicate ValidExcept(k: nat)
      reads this
    {
      Consistent() && (queue != [] ==> Idle(workers) <= {k})
    }

    /** Send `r` on the idle worker `k`, unless it has been waiting for too long. */
    method RequestSend(k: nat, r: Request) returns (sent: bool)
      requires k in workers && workers[k].request.None?
      requires Counts() && Conserved(workers, status, log) && Numbered(workers, sends)
      requires r.serial in status && status[r.serial].Queued?
      modifies this`workers, this`idleCount, this`sends, this`status, this`log
      ensures Counts() && Conserved(workers, status, log) && Numbered(workers, sends)
      ensures sent <==> now - r.created < 60
      ensures !sent ==> log == old(log) + [TooOld(r.serial)] && status == old(status)[r.serial := Done(|old(log)|)]
                        && workers == old(workers) && idleCount == old(idleCount) && sends == old(sends)
      ensures sent ==> log == old(log) && status == old(status)[r.serial := InFlight(k)]
                       && idleCount == old(idleCount) - 1
                       && workers == old(workers)[k := Busy(old(workers)[k], r)]
      ensures sent ==> k in old(sends) && sends == old(sends)[k := old(sends)[k] + [r.serial]]
                       && workers[k].request == Some(r.(id := |sends[k]| % 0x1_0000_0000))
                       && workers[k].timer == CallTimer
    {
      hide Counted, Conserved, Numbered;
      CountsOne(k);
      assert workers[k].timer != NoTimer;
      if IsTooOld(r, now) {
        Expire(workers, status, log, TooOld(r.serial));
        log := log + [TooOld(r.serial)];
        status := status[r.serial := Done(|log| - 1)];
        return false;
      }
      var w := Busy(workers[k], r);
      CountedUpdate(workers, nextKey, idleCount, workersWithErrors, throttle, maxCount, k, w);
      Dispatch(workers, status, log, k, w);
      NumberedSent(workers, sends, k, r);
      workers := workers[k := w];
      idleCount := idleCount - 1;
      status := status[r.serial := InFlight(k)];
      sends := sends[k := sends[k] + [r.serial]];
      return true;
    }

    /** Take the oldest request from the queue and try to send it on `k`. */
    method SendOldest(k: nat) returns (sent: bool)
      requires Consistent() && queue != [] && k in workers && workers[k].request.None?
      modifies this`workers, this`idleCount, this`sends, this`queue, this`status, this`log
      ensures Consistent() && queue == old(queue)[1..]
      ensures sent <==> !IsTooOld(old(queue)[0], now)
      ensures !sent ==>
                log == old(log) + [TooOld(old(queue)[0].serial)] && workers == old(workers)
                && idleCount == old(idleCount)
      ensures sent ==> log == old(log) && workers == old(workers)[k := Busy(old(workers)[k], old(queue)[0])]
                       && idleCount == old(idleCount) - 1
    {
      hide Counted, Conserved, Numbered, Fifo, Busy;
      var request := queue[0];
      Advance(queue, submitted, status, now, InFlight(k));
      Advance(queue, submitted, status, now, Done(|log|));
      queue := queue[1..];
      sent := RequestSend(k, request);
    }

    /** Hand `k` the oldest queued request that is not too old; fail the ones before it. */
    method SendNext(k: nat)
      requires Consistent() && k in workers && workers[k].request.None?
      modifies this`workers, this`idleCount, this`sends, this`queue, this`status, this`log
      ensures Consistent() && Seen() == Served(old(Seen()), k, now)
      ensures queue != [] ==> idleCount == old(idleCount) - 1
      ensures log == old(log) + Expired(old(queue), now)
      ensures Fresh(old(queue), now) == [] ==> queue == [] && workers == old(workers) && idleCount == old(idleCount)
      ensures Fresh(old(queue), now) != [] ==>
                && queue == Fresh(old(queue), now)[1..]
                && workers == old(workers)[k := Busy(old(workers)[k], Fresh(old(queue), now)[0])]
                && idleCount == old(idleCount) - 1
    {
      hide Pool.Consistent, Fresh, Expired, Busy;
      FreshNone(queue, now);
      while queue != []
        invariant queue == [] ==> Fresh(queue, now) == [] && Expired(queue, now) == []
        invariant nextKey == old(nextKey) && workersWithErrors == old(workersWithErrors) && throttle == old(throttle)
        invariant Consistent() && workers == old(workers) && idleCount == old(idleCount)
        invariant Fresh(queue, now) == Fresh(old(queue), now)
        invariant log + Expired(queue, now) == old(log) + Expired(old(queue), now)
        decreases |queue|
      {
        FreshStep(queue, now);
        FreshNone(queue[1..], now);
        var sent := SendOldest(k);
        if sent {
          return;
        }
      }
    }

    method Create(connectOk: bool) returns (k: Option<nat>)
      requires Consistent()
      modifies this`workers, this`nextKey, this`idleCount, this`sends
      ensures Consistent()
      ensures k.Some? <==> |old(workers)| < throttle && connectOk
      ensures k.None? ==> workers == old(workers) && idleCount == old(idleCount) && nextKey == old(nextKey)
      ensures k.Some? ==> k.value == old(nextKey) && nextKey == old(nextKey) + 1 && k.value !in old(workers)
                          && workers == old(workers)[k.value := NEW_WORKER] && idleCount == old(idleCount) + 1
      ensures k.Some? ==> Seen() == old(Seen()).(workers := workers, nextKey := nextKey)
      ensures k.Some? ==> workers[k.value] == Worker(None, 0, false, false, false, false, false, IdleTimer, true)
    {
      hide Counted, Conserved, Numbered, Fifo;
      if |workers| >= throttle || !connectOk {
        return None;
      }
      CountedAdd(workers, nextKey, idleCount, workersWithErrors, throttle, maxCount);
      AddedIdle(workers, status, log, nextKey);
      NumberedNew(workers, sends, nextKey);
      sends := sends[nextKey := []];
      workers := workers[nextKey := NEW_WORKER];
      idleCount := idleCount + 1;
      k := Some(nextKey);
      nextKey := nextKey + 1;
    }

    /** First half of destroying a connection: take it out of every count and fail its request. */
    method Drop(k: nat)
      requires Consistent() && k in workers
      modifies this`workers, this`idleCount, this`workersWithErrors, this`status, this`log
      ensures Consistent()
      ensures workers == old(workers) - {k}
      ensures log == old(log) + if old(workers)[k].request.None? then [] else
                [WorkerLost(old(workers)[k].request.value.serial)]
      ensures Seen() == Dropped(old(Seen()), k)
      ensures Idle(workers) == old(Idle(workers)) - {k}
    {
      hide Conserved, Numbered, Fifo, Idle, Counted;
      var w := workers[k];
      CountedDrop(workers, nextKey, idleCount, workersWithErrors, throttle, maxCount, k);
      NumberedLess(workers, sends, k);
      if w.receivedError {
        assert 0 < workersWithErrors <= |workers|;
        workersWithErrors := workersWithErrors - 1;
      }
      if w.request.None? {
        DropIdle(workers, status, log, k);
        idleCount := idleCount - 1;
      } else {
        var o := WorkerLost(w.request.value.serial);
        DropBusy(workers, status, log, k, o);
        KeepFifo(queue, submitted, status, now, o.serial, |log|);
        log := log + [o];
        status := status[o.serial := Done(|log| - 1)];
      }
      workers := workers - {k};
    }

    /** Destroy connection `k`; when that leaves nobody idle and `restart` is set, try to start a
        replacement and give it work. */
    method Destroy(k: nat, restart: bool, connectOk: bool) returns (replacement: Option<nat>)
      requires ValidExcept(k) && k in workers
      modifies this`workers, this`nextKey, this`idleCount, this`sends, this`workersWithErrors, this`queue,
               this`status, this`log
      ensures Valid() && Seen() == Destroyed(old(Seen()), k, restart, connectOk, now)
      ensures replacement.Some? <==> restart && Idle(old(workers)) <= {k} && |old(workers)| - 1 < throttle && connectOk
      ensures replacement.Some? ==> replacement.value == old(nextKey)
    {
      hide Counted, Conserved, Numbered, Fifo, Idle, Expired, Fresh, Served, Busy, Dropped, Destroyed, Lost;
      DestroyedAs(Seen(), k, restart, connectOk, now);
      Drop(k);
      CountsIdle();
      replacement := None;
      EmptyIdle(old(workers), k);
      if idleCount == 0 && restart {
        RemoveWorker(old(workers), k);
        replacement := Create(connectOk);
        if replacement.Some? {
          SendNext(replacement.value);
        }
      }
    }

    /** Change flags of worker `k` that no counter depends on. */
    method Touch(k: nat, w: Worker)
      requires Consistent() && k in workers
      requires w.Consistent() && w.request == workers[k].request && w.receivedError == workers[k].receivedError
      requires w.idCounter == workers[k].idCounter
      modifies this`workers
      ensures Consistent() && workers == old(workers)[k := w] && Idle(workers) == old(Idle(workers))
    {
      hide Conserved, Numbered, Fifo, Idle, Counted, Worker.Consistent;
      CountedUpdate(workers, nextKey, idleCount, workersWithErrors, throttle, maxCount, k, w);
      Relabel(workers, status, log, k, w);
      NumberedSame(workers, sends, k, w);
      workers := workers[k := w];
    }

    /** RESTART and SHUTDOWN lines. */
    method SetFlags(k: nat, restart: bool, shutdown: bool)
      requires ValidExcept(k) && k in workers
      modifies this`workers
      ensures ValidExcept(k) && workers == old(workers)[k := old(workers)[k].(restart := restart, shutdown := shutdown)]
    {
      hide Conserved, Numbered, Fifo, Idle, Counted;
      CountsOne(k);
      Touch(k, workers[k].(restart := restart, shutdown := shutdown));
    }

    /** A line of a multi-line reply. */
    method HandlePartial(k: nat, keepReading: bool) returns (more: bool)
      requires ValidExcept(k) && k in workers && workers[k].reading && workers[k].request.Some?
      modifies this`workers, this`partials
      ensures ValidExcept(k) && more == keepReading
      ensures workers == old(workers)[k := AfterPartial(old(workers)[k], keepReading)]
      ensures partials == old(partials) + [old(workers)[k].request.value.serial]
    {
      hide Conserved, Numbered, Fifo, Idle, Counted;
      CountsOne(k);
      var w := workers[k];
      if w.resuming {
        assert w.timer != NoTimer;
      } else {
        w := w.(resuming := true, timer := CallTimer);
      }
      partials := partials + [w.request.value.serial];
      more := true;
      if !keepReading && w.reading {
        w := w.(resumePending := false, timer := NoTimer, reading := false);
        more := false;
      }
      Touch(k, w);
    }

    /** The end of a reply. */
    method HandleFinal(k: nat)
      requires ValidExcept(k) && k in workers && workers[k].reading && workers[k].request.Some?
      modifies this`workers, this`idleCount, this`status, this`log
      ensures ValidExcept(k) && workers == old(workers)[k := Finished(old(workers)[k])]
      ensures idleCount == old(idleCount) + 1 && log == old(log) + [Replied(old(workers)[k].request.value.serial)]
    {
      hide Conserved, Numbered, Fifo, Idle, Counted;
      CountsOne(k);
      var serial := workers[k].request.value.serial;
      var w := workers[k].(resuming := false, request := None, resumePending := false, timer := IdleTimer);
      CountedUpdate(workers, nextKey, idleCount, workersWithErrors, throttle, maxCount, k, w);
      Complete(workers, status, log, k, w, Replied(serial));
      KeepFifo(queue, submitted, status, now, serial, |log|);
      NumberedSame(workers, sends, k, w);
      workers := workers[k := w];
      idleCount := idleCount + 1;
      log := log + [Replied(serial)];
      status := status[serial := Done(|log| - 1)];
    }

    /** A reply line carrying the id of the request in flight on `k`. */
    method RequestHandle(k: nat, line: Line) returns (more: bool)
      requires ValidExcept(k) && k in workers && workers[k].reading
      requires Answers(workers[k], line)
      modifies this`workers, this`idleCount, this`status, this`log, this`partials
      ensures ValidExcept(k)
      ensures line.Partial? ==>
                && more == line.keepReading && idleCount == old(idleCount) && log == old(log)
                && workers == old(workers)[k := AfterPartial(old(workers)[k], line.keepReading)]
                && partials == old(partials) + [old(workers)[k].request.value.serial]
      ensures line.Final? ==>
                && more && workers == old(workers)[k := Finished(old(workers)[k])] && partials == old(partials)
                && idleCount == old(idleCount) + 1
                && log == old(log) + [Replied(old(workers)[k].request.value.serial)]
    {
      hide Pool.ValidExcept, AfterPartial, Finished;
      if line.Partial? {
        more := HandlePartial(k, line.keepReading);
      } else {
        HandleFinal(k);
        more := true;
      }
    }

    method MarkError(k: nat)
      requires ValidExcept(k) && k in workers && !workers[k].receivedError
      modifies this`workers, this`workersWithErrors
      ensures ValidExcept(k) && workers == old(workers)[k := old(workers)[k].(receivedError := true)]
      ensures 0 < workersWithErrors == old(workersWithErrors) + 1 <= |workers| == |old(workers)|
    {
      hide Conserved, Numbered, Fifo, Idle, Counted, Worker.Consistent;
      CountsOne(k);
      var w := workers[k].(receivedError := true);
      FlagKeeps(workers[k], w);
      CountedUpdate(workers, nextKey, idleCount, workersWithErrors, throttle, maxCount, k, w);
      Relabel(workers, status, log, k, w);
      NumberedSame(workers, sends, k, w);
      workersWithErrors := workersWithErrors + 1;
      workers := workers[k := w];
    }

    /** ERROR line: remember the failure; with several failing workers shrink the pool. */
    method WorkerError(k: nat, connectOk: bool) returns (alive: bool)
      requires ValidExcept(k) && k in workers
      modifies this`workers, this`nextKey, this`idleCount, this`sends, this`workersWithErrors, this`throttle,
               this`queue, this`status, this`log
      ensures alive <==> old(workers)[k].receivedError || old(workersWithErrors) == 0
      ensures alive ==> ValidExcept(k) && queue == old(queue) && log == old(log) && idleCount == old(idleCount)
                        && workers == old(workers)[k := old(workers)[k].(receivedError := true)]
                        && throttle == (if old(workers)[k].receivedError then old(throttle) else |workers|)
      ensures !alive ==> Valid() && workers == old(workers) - {k} && queue == old(queue)
                         && log == old(log) + Lost(old(workers)[k])
                         && throttle == (if old(throttle) >= |old(workers)| then |old(workers)| - 1
                                         else if old(throttle) > 1 then old(throttle) - 1 else old(throttle))
      ensures alive ==> nextKey == old(nextKey)
                        && workersWithErrors == (if old(workers)[k].receivedError then old(workersWithErrors) else 1)
      ensures !alive ==> Seen() == LineTo(old(Seen()), k, Error, maxCount, connectOk, now)
    {
      hide Conserved, Numbered, Fifo, Idle, Counted, Destroyed, LineTo;
      if workers[k].receivedError {
        assert workers[k := workers[k].(receivedError := true)] == workers;
        return true;
      }
      MarkError(k);
      CountsOne(k);
      if workersWithErrors == 1 {
        CountedThrottle(workers, nextKey, idleCount, workersWithErrors, throttle, maxCount, |workers|);
        throttle := |workers|;
        return true;
      }
      assert |workers| > 1;
      MarkedAway(old(Seen()), Seen(), k, connectOk, now);
      ShrinkPool(k, connectOk);
      return false;
    }

    /** With several failing workers this one goes, and no more than one fewer may be there. */
    method ShrinkPool(k: nat, connectOk: bool)
      requires ValidExcept(k) && k in workers && |workers| > 1
      modifies this`workers, this`nextKey, this`idleCount, this`sends, this`workersWithErrors, this`throttle,
               this`queue, this`status, this`log
      ensures Valid()
      ensures Seen() == Destroyed(old(Seen()).(throttle := Shrunk(old(Seen()))), k, false, connectOk, now)
    {
      hide Conserved, Numbered, Fifo, Idle, Counted, Destroyed;
      CountsOne(k);
      CountedThrottle(workers, nextKey, idleCount, workersWithErrors, throttle, maxCount, Shrunk(Seen()));
      if throttle >= |workers| {
        throttle := |workers| - 1;
      } else if throttle > 1 {
        throttle := throttle - 1;
      }
      var _ := Destroy(k, false, connectOk);
    }

    /** SUCCESS line: raise the throttle again, all the way once nobody is failing. */
    method WorkerSuccess(k: nat)
      requires ValidExcept(k) && k in workers
      modifies this`workers, this`workersWithErrors, this`throttle
      ensures ValidExcept(k)
      ensures workers == old(workers)[k := old(workers)[k].(receivedError := false)]
      ensures throttle == (if !old(workers)[k].receivedError then old(throttle)
                           else if old(workersWithErrors) == 1 then maxCount
                           else if old(throttle) < maxCount then old(throttle) + 1 else old(throttle))
      ensures workersWithErrors == old(workersWithErrors) - One(old(workers)[k].receivedError)
    {
      hide Conserved, Numbered, Fifo, Idle, Counted, Worker.Consistent;
      if !workers[k].receivedError {
        assert workers[k := workers[k].(receivedError := false)] == workers;
        return;
      }
      CountsOne(k);
      assert 0 < workersWithErrors <= |workers|;
      var w := workers[k].(receivedError := false);
      FlagKeeps(workers[k], w);
      CountedUpdate(workers, nextKey, idleCount, workersWithErrors, throttle, maxCount, k, w);
      Relabel(workers, status, log, k, w);
      NumberedSame(workers, sends, k, w);
      workersWithErrors := workersWithErrors - 1;
      workers := workers[k := w];
      var limit := throttle;
      if workersWithErrors == 0 {
        limit := maxCount;
      } else if throttle < maxCount {
        limit := throttle + 1;
      }
      CountedThrottle(workers, nextKey, idleCount, workersWithErrors, throttle, maxCount, limit);
      throttle := limit;
    }

    /** One line of input from worker `k`. */
    method HandleLine(k: nat, line: Line, connectOk: bool) returns (next: Next)
      requires ValidExcept(k) && k in workers && workers[k].reading
      modifies this`workers, this`nextKey, this`idleCount, this`sends, this`workersWithErrors, this`throttle,
               this`queue, this`status, this`log, this`partials
      ensures if next == Gone then Valid() else ValidExcept(k)
      ensures next == NextStep(old(workers)[k], line, old(workersWithErrors))
      ensures Seen() == LineTo(old(Seen()), k, line, maxCount, connectOk, now)
      ensures partials
              == old(partials) + (if line.Partial? && next != Gone then [old(workers)[k].request.value.serial] else [])
    {
      hide Pool.Valid, Pool.ValidExcept, LineTo, Lost;
      next := ReadOn;
      match line {
        case Restart =>
          QuietLine(Seen(), k, line, maxCount, connectOk, now);
          SetFlags(k, true, workers[k].shutdown);
        case Shutdown =>
          QuietLine(Seen(), k, line, maxCount, connectOk, now);
          SetFlags(k, workers[k].restart, true);
        case Malformed =>
          QuietLine(Seen(), k, line, maxCount, connectOk, now);
        case Error =>
          if workers[k].receivedError || workersWithErrors == 0 {
            ErrorLine(Seen(), k, maxCount, connectOk, now);
          }
          var alive := WorkerError(k, connectOk);
          if !alive {
            next := Gone;
          }
        case Success =>
          SuccessLine(Seen(), k, maxCount, connectOk, now);
          WorkerSuccess(k);
        case Partial(_, _) =>
          next := HandleReply(k, line, connectOk);
        case Final(_) =>
          next := HandleReply(k, line, connectOk);
      }
    }

    /** A reply line: a reply to anything but the request in flight destroys the worker. */
    method HandleReply(k: nat, line: Line, connectOk: bool) returns (next: Next)
      requires ValidExcept(k) && k in workers && workers[k].reading && (line.Partial? || line.Final?)
      modifies this`workers, this`nextKey, this`idleCount, this`sends, this`workersWithErrors,
               this`queue, this`status, this`log, this`partials
      ensures if next == Gone then Valid() else ValidExcept(k)
      ensures next == NextStep(old(workers)[k], line, old(workersWithErrors))
      ensures Seen() == LineTo(old(Seen()), k, line, maxCount, connectOk, now)
      ensures partials
              == old(partials) + (if line.Partial? && next != Gone then [old(workers)[k].request.value.serial] else [])
    {
      hide Pool.Valid, Pool.ValidExcept, Destroyed, LineTo, NextStep, AfterPartial, Finished;
      ReplyLine(Seen(), k, line, maxCount, connectOk, now);
      if Answers(workers[k], line) {
        var more := RequestHandle(k, line);
        next := if more then ReadOn else Leave;
      } else {
        var _ := Destroy(k, true, connectOk);
        next := Gone;
      }
    }

    /** Destroy an idle connection without replacing it. */
    method Retire(k: nat, connectOk: bool)
      requires ValidExcept(k) && k in workers && workers[k].request.None?
      modifies this`workers, this`nextKey, this`idleCount, this`sends, this`workersWithErrors, this`queue,
               this`status, this`log
      ensures Valid() && Seen() == Destroyed(old(Seen()), k, false, connectOk, now)
      ensures workers == old(workers) - {k} && queue == old(queue) && log == old(log)
    {
      hide Conserved, Numbered, Fifo, Idle, Failing, Worker.Consistent, Expired, Fresh, Served;
      var _ := Destroy(k, false, connectOk);
    }

    /** After the lines of one read: an idle worker is retired if it asked for that, else given work. */
    method FinishInput(k: nat, connectOk: bool)
      requires ValidExcept(k) && k in workers
      modifies this`workers, this`nextKey, this`idleCount, this`sends, this`workersWithErrors, this`queue,
               this`status, this`log
      ensures Valid() && Seen() == FinishTo(old(Seen()), k, connectOk, now)
      ensures OthersKept(old(workers), workers, k) && old(log) <= log
    {
      hide Conserved, Numbered, Fifo, Idle, Failing, Worker.Consistent, Destroyed, Served, OthersKept, Lost;
      if workers[k].request.Some? {
        BusyAlone(workers, k);
        KeptAll(workers, k);
      } else if workers[k].restart {
        DestroyedKeeps(Seen(), k, true, connectOk, now);
        var _ := Destroy(k, true, connectOk);
      } else if workers[k].shutdown {
        DestroyedKeeps(Seen(), k, false, connectOk, now);
        Retire(k, connectOk);
      } else {
        ServedKeeps(Seen(), k, now);
        RemoveWorker(workers, k);
        EmptyIdle(workers, k);
        SendNext(k);
      }
    }

    /** The lines of one read, until one of them ends the reading or the worker. */
    method ReadLines(k: nat, lines: seq<Line>, connectOk: bool) returns (gone: bool)
      requires ValidExcept(k) && k in workers && workers[k].reading
      modifies this`workers, this`nextKey, this`idleCount, this`sends, this`workersWithErrors, this`throttle,
               this`queue, this`status, this`log, this`partials
      ensures old(log) <= log && OthersKept(old(workers), workers, k)
      ensures if gone then Valid() else ValidExcept(k) && k in workers
      ensures InputTo(old(Seen()), k, lines, maxCount, connectOk, now)
              == if gone then Seen() else FinishTo(Seen(), k, connectOk, now)
    {
      hide Pool.Valid, Pool.ValidExcept, OthersKept, NextStep, AfterLine, Lost, Answered, LineTo, FinishTo;
      KeptAll(workers, k);
      var i := 0;
      assert lines[0..] == lines;
      while i < |lines|
        invariant 0 <= i <= |lines| && ValidExcept(k) && k in workers && workers[k].reading
        invariant old(log) <= log && OthersKept(old(workers), workers, k)
        invariant InputTo(Seen(), k, lines[i..], maxCount, connectOk, now)
                  == InputTo(old(Seen()), k, lines, maxCount, connectOk, now)
      {
        ghost var before := workers;
        assert lines[i..][1..] == lines[i + 1..];
        KeysBelow(k);
        LineKeeps(Seen(), k, lines[i], maxCount, connectOk, now);
        StaysReading(workers[k], lines[i], workersWithErrors);
        var next := HandleLine(k, lines[i], connectOk);
        KeptOn(old(workers), before, workers, k);
        if next == Gone {
          return true;
        }
        if next == Leave {
          return false;
        }
        i := i + 1;
      }
      return false;
    }

    /** Everything one read of worker `k` brought in. */
    method Input(k: nat, lines: seq<Line>, connectOk: bool)
      requires Valid() && k in workers && workers[k].reading
      modifies this`workers, this`nextKey, this`idleCount, this`sends, this`workersWithErrors, this`throttle,
               this`queue, this`status, this`log, this`partials
      ensures Valid() && old(log) <= log
      ensures OthersKept(old(workers), workers, k)
      ensures Seen() == InputTo(old(Seen()), k, lines, maxCount, connectOk, now)
    {
      hide Conserved, Numbered, Fifo, Idle, Failing, Worker.Consistent, OthersKept, InputTo, FinishTo;
      BusyAlone(workers, k);
      var gone := ReadLines(k, lines, connectOk);
      if !gone {
        hide Pool.Consistent;
        ghost var before := workers;
        FinishInput(k, connectOk);
        KeptOn(old(workers), before, workers, k);
      }
    }

    /** The worker died or sent an over-long line. */
    method Disconnected(k: nat, connectOk: bool)
      requires Valid() && k in workers
      modifies this`workers, this`nextKey, this`idleCount, this`sends, this`workersWithErrors, this`queue,
               this`status, this`log
      ensures Valid() && k !in workers && old(log) + Lost(old(workers)[k]) <= log
      ensures OthersKept(old(workers), workers, k)
      ensures Seen() == Destroyed(old(Seen()), k, true, connectOk, now)
    {
      hide Conserved, Numbered, Fifo, Idle, Failing, Worker.Consistent, Destroyed, Lost;
      BusyAlone(workers, k);
      DestroyedKeeps(Seen(), k, true, connectOk, now);
      var _ := Destroy(k, true, connectOk);
    }

    method IdleTimeout(k: nat, connectOk: bool)
      requires Valid() && k in workers && workers[k].timer == IdleTimer
      modifies this`workers, this`nextKey, this`idleCount, this`sends, this`workersWithErrors, this`queue,
               this`status, this`log
      ensures Valid() && queue == old(queue) && log == old(log)
      ensures workers == (if old(idleCount) > 1 then old(workers) - {k} else old(workers))
    {
      hide Conserved, Numbered, Fifo, Idle, Failing, Expired, Fresh;
      assert workers[k].request == None;
      if idleCount > 1 {
        BusyAlone(workers, k);
        Retire(k, connectOk);
      }
    }

    method CallTimeout(k: nat, connectOk: bool)
      requires Valid() && k in workers && workers[k].timer == CallTimer
      modifies this`workers, this`nextKey, this`idleCount, this`sends, this`workersWithErrors, this`queue,
               this`status, this`log
      ensures Valid() && k !in workers && old(workers)[k].request.Some? && old(log) + Lost(old(workers)[k]) <= log
      ensures OthersKept(old(workers), workers, k)
      ensures Seen() == Destroyed(old(Seen()), k, true, connectOk, now)
    {
      hide Conserved, Numbered, Fifo, Idle, Failing, Destroyed;
      assert workers[k].request != None;
      Disconnected(k, connectOk);
    }

    /** Ask for the paused input of a multi-line reply to be read again. */
    method ResumeInput(k: nat)
      requires Valid() && k in workers
      modifies this`workers
      ensures Valid()
      ensures var w := old(workers)[k];
              workers == if w.request.None? then old(workers)
                         else old(workers)[k := w.(reading := true, resumePending := true,
                                                   timer := if w.resumePending then w.timer else ResumeTimer)]
    {
      hide Conserved, Numbered, Fifo, Idle, Failing;
      if workers[k].request == None {
        return;
      }
      var w := workers[k].(reading := true);
      if !w.resumePending {
        w := w.(resumePending := true, timer := ResumeTimer);
      }
      Touch(k, w);
    }

    /** The zero timeout set by `ResumeInput` fires. */
    method ResumeFires(k: nat, lines: seq<Line>, connectOk: bool)
      requires Valid() && k in workers && workers[k].timer == ResumeTimer
      modifies this`workers, this`nextKey, this`idleCount, this`sends, this`workersWithErrors, this`throttle,
               this`queue, this`status, this`log, this`partials
      ensures Valid() && old(log) <= log
      ensures OthersKept(old(workers), workers, k)
      ensures var w := old(workers)[k].(resumePending := false, timer := CallTimer);
              Seen() == InputTo(old(Seen()).(workers := old(workers)[k := w]), k, lines, maxCount, connectOk, now)
    {
      hide Counted, Conserved, Numbered, Fifo, Idle, InputTo, OthersKept;
      CountsOne(k);
      KeptButOne(workers, k, workers[k].(resumePending := false, timer := CallTimer));
      Touch(k, workers[k].(resumePending := false, timer := CallTimer));
      ghost var before := workers;
      Input(k, lines, connectOk);
      KeptOn(old(workers), before, workers, k);
    }

    method Tick(secs: nat)
      requires Valid()
      modifies this`now
      ensures Valid() && now == old(now) + secs
    {
      hide Conserved, Numbered, Idle, Failing;
      now := now + secs;
    }

    /** The first idle connection, if any. */
    method FindFree() returns (k: Option<nat>)
      requires Valid()
      ensures k.Some? <==> idleCount > 0
      ensures k.Some? ==> k.value in workers && workers[k.value].request.None?
                          && forall j :: j in workers && workers[j].request.None? ==> k.value <= j
    {
      hide Conserved, Numbered, Fifo, Idle, Failing;
      if idleCount == 0 {
        return None;
      }
      SomeIdle(workers);
      var i := 0;
      while i < nextKey
        invariant i <= nextKey
        invariant forall j :: j in workers && workers[j].request.None? ==> i <= j
      {
        if i in workers && workers[i].request == None {
          return Some(i);
        }
        i := i + 1;
      }
      assert false;
    }

    /** A connection for a new request: none while others are waiting, else an idle one, else a new one. */
    method FindOrCreate(connectOk: bool) returns (k: Option<nat>)
      requires Valid()
      modifies this`workers, this`nextKey, this`idleCount, this`sends
      ensures Consistent()
      ensures k.None? <==> queue != [] || (old(idleCount) == 0 && (|old(workers)| >= throttle || !connectOk))
      ensures k.None? ==> workers == old(workers) && idleCount == old(idleCount)
      ensures k.Some? && old(idleCount) > 0 ==>
                k.value in old(workers) && old(workers)[k.value].request.None?
                && workers == old(workers) && idleCount == old(idleCount)
      ensures k.Some? && old(idleCount) == 0 ==>
                k.value == old(nextKey) && k.value !in old(workers) && workers == old(workers)[k.value := NEW_WORKER]
    {
      hide Conserved, Numbered, Fifo, Idle, Failing, Worker.Consistent;
      k := None;
      if queue == [] {
        k := FindFree();
        if k == None {
          k := Create(connectOk);
        }
      }
    }

    /** `auth_worker_call`: submit a request; the result is the worker it was sent to, if any. */
    method Submit(connectOk: bool) returns (k: Option<nat>)
      requires Valid()
      modifies this`workers, this`nextKey, this`idleCount, this`sends, this`queue, this`status, this`log, this`submitted
      ensures Valid() && submitted == old(submitted) + 1 && log == old(log)
      ensures k.None? <==> old(queue) != [] || (old(idleCount) == 0 && (|old(workers)| >= throttle || !connectOk))
      ensures k.None? ==> workers == old(workers) && queue == old(queue) + [Request(old(submitted), now, 0)]
      ensures k.Some? ==> queue == [] && k.value in workers && k.value in sends
                          && workers[k.value].request
                             == Some(Request(old(submitted), now, |sends[k.value]| % 0x1_0000_0000))
      ensures k.Some? && old(idleCount) > 0 ==>
                && k.value in old(workers) && old(workers)[k.value].request.None?
                && workers == old(workers)[k.value := Busy(old(workers)[k.value], Request(old(submitted), now, 0))]
      ensures k.Some? && old(idleCount) == 0 ==>
                && k.value == old(nextKey) && k.value !in old(workers)
                && workers == old(workers)[k.value := Busy(NEW_WORKER, Request(old(submitted), now, 0))]
    {
      hide Conserved, Numbered, Fifo, Idle, Counted, Busy;
      var request := Request(submitted, now, 0);
      k := FindOrCreate(connectOk);
      EnterFifo(queue, submitted, status, now, request, if k.Some? then k.value else 0);
      Enter(workers, status, log, submitted);
      status := status[submitted := Queued];
      submitted := submitted + 1;
      if k.Some? {
        var sent := RequestSend(k.value, request);
        assert sent;
      } else {
        queue := queue + [request];
      }
    }

    /** Requests are waiting and there is no worker left to take them. */
    ghost predicate Stranded()
      reads this
    {
      workers == map[] && queue != []
    }

    predicate Enabled(e: Event)
      reads this
    {
      match e
      case Call(_) => true
      case Lines(k, _, _) => k in workers && workers[k].reading
      case Death(k, _) => k in workers
      case IdleTimerFires(k, _) => k in workers && workers[k].timer == IdleTimer
      case CallTimerFires(k, _) => k in workers && workers[k].timer == CallTimer
      case Resume(k) => k in workers
      case ResumeTimerFires(k, _, _) => k in workers && workers[k].timer == ResumeTimer
      case TimePasses(_) => true
    }

    method Step(e: Event)
      requires Valid() && Enabled(e)
      modifies this
      ensures Valid() && old(log) <= log && submitted == old(submitted) + (if e.Call? then 1 else 0)
      ensures old(Stranded()) ==> Stranded() && log == old(log) && old(queue) <= queue
      ensures now == old(now) + if e.TimePasses? then e.secs else 0
      ensures e.Call? ==>
                var r := Request(old(submitted), now, 0);
                log == old(log)
                && if old(queue) != []
                      || (old(idleCount) == 0 && (|old(workers)| >= old(throttle) || !e.connectOk)) then
                     queue == old(queue) + [r] && workers == old(workers)
                   else
                     queue == [] && exists k :: k in workers && Sent(workers[k], r)
                                                && (k in old(workers) ==> old(workers)[k].request.None?)
      ensures e.Lines? ==> Seen() == InputTo(old(Seen()), e.key, e.lines, maxCount, e.connectOk, now)
      ensures e.Death? || e.CallTimerFires? ==> Seen() == Destroyed(old(Seen()), e.key, true, e.connectOk, now)
      ensures e.IdleTimerFires? ==>
                queue == old(queue) && log == old(log)
                && workers == if old(idleCount) > 1 then old(workers) - {e.key} else old(workers)
      ensures e.Resume? ==>
                var w := old(workers)[e.key];
                workers == if w.request.None? then old(workers)
                           else old(workers)[e.key := w.(reading := true, resumePending := true,
                                                         timer := if w.resumePending then w.timer else ResumeTimer)]
      ensures e.ResumeTimerFires? ==>
                var w := old(workers)[e.key].(resumePending := false, timer := CallTimer);
                Seen() == InputTo(old(Seen()).(workers := old(workers)[e.key := w]), e.key, e.lines, maxCount,
                                  e.connectOk, now)
      ensures e.TimePasses? ==> Seen() == old(Seen())
    {
      hide Pool.Valid, Busy, Lost, Destroyed, InputTo, OthersKept;
      match e {
        case Call(ok) =>
          var k := Submit(ok);
          assert k.Some? ==> Sent(workers[k.value], Request(old(submitted), now, 0));
        case Lines(k, lines, ok) => Input(k, lines, ok);
        case Death(k, ok) => Disconnected(k, ok);
        case IdleTimerFires(k, ok) => IdleTimeout(k, ok);
        case CallTimerFires(k, ok) => CallTimeout(k, ok);
        case Resume(k) => ResumeInput(k);
        case ResumeTimerFires(k, lines, ok) => ResumeFires(k, lines, ok);
        case TimePasses(secs) => Tick(secs);
      }
    }

    /** Every run: from any good state, whatever happens and in whatever order, the pool stays good, every request
        submitted is taken, completed requests stay completed, and a stranded queue stays stranded. */
    method Run(events: seq<Event>)
      requires Valid()
      modifies this
      ensures Valid() && old(log) <= log
      ensures submitted == old(submitted) + Calls(events) && now == old(now) + Elapsed(events)
      ensures old(Stranded()) ==> Stranded() && log == old(log) && old(queue) <= queue
    {
      hide Pool.Valid;
      var i := 0;
      while i < |events|
        invariant i <= |events| && Valid() && old(log) <= log
        invariant submitted == old(submitted) + Calls(events[..i]) && now == old(now) + Elapsed(events[..i])
        invariant old(Stranded()) ==> Stranded() && log == old(log) && old(queue) <= queue
      {
        assert events[..i + 1][..i] == events[..i];
        if Enabled(events[i]) {
          Step(events[i]);
        }
        i := i + 1;
      }
      assert events[..i] == events;
    }

    /** Unless the pool is stranded the oldest waiting request can still leave the queue: if the workers
        keep dying, the last one is replaced and its replacement serves the queue. */
    method Drain()
      requires Valid() && queue != [] && workers != map[]
      modifies this
      ensures Valid() && submitted == old(submitted) && |queue| < |old(queue)|
    {
      hide Conserved, Numbered, Fifo, Idle, Failing, Worker.Consistent, Busy, Lost;
      var waiting := |queue|;
      while |queue| == waiting
        invariant Valid() && submitted == old(submitted) && |queue| <= waiting
        invariant |queue| == waiting ==> workers != map[]
        decreases |queue|, |workers|
      {
        var k :| k in workers;
        BusyAlone(workers, k);
        ghost var before := workers;
        var replacement := Destroy(k, true, true);
        RemoveWorker(before, k);
      }
    }
  }

  /** A pool of one worker, with one request in flight and one waiting. */
  method Overload() returns (p: Pool)
    ensures fresh(p) && p.Valid() && p.log == [] && p.queue == [Request(1, 0, 0)] && p.now == 0
    ensures p.workers == map[0 := Busy(NEW_WORKER, Request(0, 0, 0))]
  {
    hide Conserved, Numbered, Fifo, Failing, Worker.Consistent;
    p := new Pool(1, 0);
    var k := p.Submit(true);
    assert p.workers.Keys == {0} && Idle(p.workers) == {};
    var _ := p.Submit(true);
  }

  /** A worker that announces SHUTDOWN while it is still busy is not replaced, so the pool ends up stranded. */
  method Strand() returns (p: Pool)
    ensures p.Valid() && p.Stranded() && p.log == [Replied(0)]
  {
    hide Pool.Valid, Pool.ValidExcept, LineTo, Served, Idle, OthersKept;
    p := Overload();
    p.NoException(0);
    QuietLine(p.Seen(), 0, Shutdown, p.maxCount, true, p.now);
    var next := p.HandleLine(0, Shutdown, true);
    ReplyLine(p.Seen(), 0, Final(1), p.maxCount, true, p.now);
    next := p.HandleLine(0, Final(1), true);
    DestroyedAs(p.Seen(), 0, false, true, p.now);
    p.FinishInput(0, true);
    assert p.workers.Keys == {};
  }

  /** A reply that comes twice: the next request has another id, so the worker goes and that request fails. */
  method RepeatedReply() returns (p: Pool)
    ensures p.Valid() && p.log == [Replied(0), WorkerLost(1)] && 0 !in p.workers
  {
    hide Pool.Valid, Pool.ValidExcept, LineTo, Destroyed, Idle, OthersKept;
    p := Overload();
    p.NoException(0);
    ReplyLine(p.Seen(), 0, Final(1), p.maxCount, true, p.now);
    var next := p.HandleLine(0, Final(1), true);
    FreshExactly(p.queue, p.now);
    hide Fresh, Expired;
    p.FinishInput(0, true);
    p.NoException(0);
    ReplyLine(p.Seen(), 0, Final(1), p.maxCount, false, p.now);
    DestroyedAs(p.Seen(), 0, true, false, p.now);
    next := p.HandleLine(0, Final(1), false);
  }
}
