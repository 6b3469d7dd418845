/**
 The passdb chain of a plaintext login (auth-request.c): lookups answer one after another, each
 answer is judged by its database's rules, and the chain goes on to the next database, starts over
 with the ordinary databases after a master login, or stops with a verdict.
 */
module PassdbChain {
  import W = Wrappers

  datatype Result =
    | InternalFailure
    | SchemeNotAvailable
    | UserUnknown
    | UserDisabled
    | PassExpired
    | PasswordMismatch
    | Ok

  datatype Rule = Return | ReturnOk | ReturnFail | Continue | ContinueOk | ContinueFail

  datatype Skip = Never | IfAuthenticated | IfUnauthenticated

  datatype Passdb = Passdb(deny: bool, skip: Skip, success: Rule, failure: Rule, internalfail: Rule)

  /** A database's answer: its result, whether a check inside it (such as allow_nets) failed, and
      whether it set the login_user field. */
  datatype Reply = Reply(result: Result, failed: bool, setsLogin: bool)

  /** What the chain remembers; `dbs` is the list from the current database on. */
  datatype Chain = Chain(
    dbs: seq<Passdb>,
    loginRequested: bool,
    success: bool,
    authenticated: bool,
    seenUnknown: bool,
    seenInternal: bool)

  // ------------------------------------------------------------- judging one answer

  /** A deny database stops everything unless it does not know the user. */
  predicate Blocks(db: Passdb, r: Reply) {
    db.deny && r.result != UserUnknown
  }

  /** The result that counts: a deny match means that the user is disabled, and a success with a failed check inside
      is taken as an unknown user. */
  function Judged(db: Passdb, r: Reply): Result {
    if Blocks(db, r) then (if r.result == InternalFailure then InternalFailure else UserDisabled)
    else if r.failed && r.result == Ok then UserUnknown
    else r.result
  }

  /** No rule applies: the login has failed for good. */
  predicate Fatal(db: Passdb, r: Reply) {
    Blocks(db, r) || Judged(db, r) in {UserDisabled, PassExpired}
  }

  function RuleFor(db: Passdb, judged: Result): Rule {
    match judged
    case Ok => db.success
    case InternalFailure => db.internalfail
    case _ => db.failure
  }

  predicate Continues(rule: Rule) {
    rule in {Continue, ContinueOk, ContinueFail}
  }

  predicate GoesOn(db: Passdb, r: Reply) {
    !Fatal(db, r) && Continues(RuleFor(db, Judged(db, r)))
  }

  /** `passdb_success` after a rule. */
  function Verdict(rule: Rule, before: bool): bool {
    match rule
    case ReturnOk => true
    case ContinueOk => true
    case ReturnFail => false
    case ContinueFail => false
    case _ => before
  }

  predicate WantSkip(db: Passdb, authenticated: bool) {
    match db.skip
    case Never => false
    case IfAuthenticated => authenticated
    case IfUnauthenticated => !authenticated
  }

  function SkipAhead(dbs: seq<Passdb>, authenticated: bool): (r: seq<Passdb>)
    ensures |r| <= |dbs|
    ensures r != [] ==> !WantSkip(r[0], authenticated)
  {
    if dbs != [] && WantSkip(dbs[0], authenticated) then SkipAhead(dbs[1..], authenticated) else dbs
  }

  // ------------------------------------------------------------- the machine

  /** The request fields that the chain reads and writes, and one method per callback. */
  class Request {
    const passdbs: seq<Passdb>
    var dbs: seq<Passdb>
    var loginRequested: bool
    var failed: bool
    var passdbSuccess: bool
    var skipPasswordCheck: bool
    var seenUserUnknown: bool
    var seenInternalFailure: bool
    var successful: bool
    var internalFailure: bool
    var finished: bool

    /** A new request; a master login starts with the master databases. */
    constructor (masterdbs: seq<Passdb>, passdbs: seq<Passdb>, masterLogin: bool)
      ensures this.passdbs == passdbs && !failed && !successful && !internalFailure && !finished
      ensures View() == Chain(if masterLogin then masterdbs else passdbs, masterLogin, false, false, false, false)
    {
      this.passdbs := passdbs;
      dbs := if masterLogin then masterdbs else passdbs;
      loginRequested, failed, passdbSuccess, skipPasswordCheck := masterLogin, false, false, false;
      seenUserUnknown, seenInternalFailure := false, false;
      successful, internalFailure, finished := false, false, false;
    }

    function View(): Chain
      reads this
    {
      Chain(dbs, loginRequested, passdbSuccess, skipPasswordCheck, seenUserUnknown, seenInternalFailure)
    }

    /**
     First part of `auth_request_handle_passdb_callback`: deny databases, failed checks and users who can't log in.
     */
    method Judge(answer: Result) returns (fatal: bool, result: Result)
      requires dbs != []
      modifies this`failed
      ensures var r := Reply(answer, old(failed), false);
              fatal == Fatal(dbs[0], r) && result == Judged(dbs[0], r)
      ensures !fatal ==> !failed
    {
      result := answer;
      if dbs[0].deny && result != UserUnknown {
        if result != InternalFailure {
          result := UserDisabled;
        }
        return true, result;
      }
      if failed {
        if result == Ok {
          result := UserUnknown;
        }
        failed := false;
      }
      return result in {UserDisabled, PassExpired}, result;
    }

    /** Second part: apply the rule for the result. */
    method ApplyRule(result: Result) returns (goesOn: bool)
      requires dbs != []
      modifies this`passdbSuccess, this`skipPasswordCheck
      ensures passdbSuccess == Verdict(RuleFor(dbs[0], result), old(passdbSuccess))
      ensures goesOn == Continues(RuleFor(dbs[0], result))
      ensures skipPasswordCheck == (old(skipPasswordCheck) || (result == Ok && goesOn))
    {
      var db := dbs[0];
      var rule;
      match result {
        case Ok => rule := db.success;
        case InternalFailure => rule := db.internalfail;
        case _ => rule := db.failure;
      }
      goesOn := false;
      match rule {
        case Return =>
        case ReturnOk => passdbSuccess := true;
        case ReturnFail => passdbSuccess := false;
        case Continue => goesOn := true;
        case ContinueOk => goesOn, passdbSuccess := true, true;
        case ContinueFail => goesOn, passdbSuccess := true, false;
      }
      if result == Ok && goesOn {
        skipPasswordCheck := true;
      }
    }

    /** Third part: the next database to ask. */
    method FindNext(result: Result) returns (next: seq<Passdb>)
      requires dbs != []
      modifies this`loginRequested
      ensures loginRequested == (old(loginRequested) && result != Ok)
      ensures next == SkipAhead(if old(loginRequested) && result == Ok then passdbs else dbs[1..], skipPasswordCheck)
    {
      next := dbs[1..];
      if loginRequested && result == Ok {
        loginRequested := false;
        next := passdbs;
      }
      ghost var candidates := next;
      while next != [] && WantSkip(next[0], skipPasswordCheck)
        invariant SkipAhead(next, skipPasswordCheck) == SkipAhead(candidates, skipPasswordCheck)
        decreases |next|
      {
        next := next[1..];
      }
    }

    /** `auth_request_handle_passdb_callback`: returns whether the chain is finished, and the result. */
    method HandleCallback(answer: Result) returns (done: bool, result: Result)
      requires dbs != []
      modifies this`dbs, this`loginRequested, this`failed, this`passdbSuccess, this`skipPasswordCheck,
               this`seenUserUnknown, this`seenInternalFailure
      ensures var r := Reply(answer, old(failed), false);
              && done == Stops(old(View()), passdbs, r)
              && (done ==> result == FinalResult(old(View()), r))
              && passdbSuccess == NextSuccess(old(View()), r)
              && (!done ==> dbs != [] && !failed && View() == Advance(old(View()), passdbs, r))
              && (!Fatal(old(dbs)[0], r) ==> !failed)
    {
      hide WantSkip, SkipAhead, Verdict, Judged, Fatal, RuleFor, Continues;
      done, result := Judge(answer);
      if done {
        return;
      }
      var goesOn := ApplyRule(result);
      var next := FindNext(result);
      if goesOn && next != [] {
        dbs := next;
        if result == UserUnknown {
          seenUserUnknown := true;
        } else if result == InternalFailure {
          seenInternalFailure := true;
        }
        return;
      }
      done := true;
      if passdbSuccess {
        result := Ok;
      } else if seenInternalFailure {
        result := InternalFailure;
      }
    }

    /** `plain_verify_callback` and `auth_request_success` */
    method PlainVerifyCallback(result: Result)
      requires !finished
      modifies this`successful, this`internalFailure, this`finished
      ensures finished && successful == (old(successful) || (result == Ok && !failed && passdbSuccess))
      ensures internalFailure == (old(internalFailure) || result == InternalFailure)
    {
      match result {
        case Ok =>
          if !failed && passdbSuccess {
            successful := true;
          }
        case InternalFailure =>
          internalFailure := true;
        case _ =>
      }
      finished := true;
    }

    /** One lookup and its callbacks: the chain moves on, or the login is over. */
    method Answer(reply: Reply)
      requires dbs != [] && !failed && !finished && !successful
      modifies this
      ensures finished == Stops(old(View()), passdbs, reply)
      ensures !finished ==> dbs != [] && !failed && !successful && internalFailure == old(internalFailure)
                            && View() == Advance(old(View()), passdbs, reply)
      ensures finished ==>
                && successful == Ending(FinalResult(old(View()), reply), NextSuccess(old(View()), reply)).LoggedIn()
                && internalFailure == (old(internalFailure) || FinalResult(old(View()), reply) == InternalFailure)
    {
      hide Stops, Advance, FinalResult, NextSuccess, Fatal;
      if reply.setsLogin {
        loginRequested := true;
      }
      failed := reply.failed;
      Folded(old(View()), View(), passdbs, reply, Reply(reply.result, failed, false));
      var done, result := HandleCallback(reply.result);
      if done {
        PlainVerifyCallback(result);
      }
    }

    /** `auth_request_verify_plain` and its callbacks, until the chain stops or no more answers come. */
    method VerifyPlain(replies: seq<Reply>)
      requires dbs != [] && !failed && !finished && !successful
      modifies this
      ensures var end := End(old(View()), passdbs, replies);
              && finished == end.Some?
              && (end.Some? ==> successful == end.value.LoggedIn()
                                && internalFailure == (old(internalFailure) || end.value.result == InternalFailure))
    {
      hide Stops, Advance, FinalResult, NextSuccess, Fatal;
      var n := 0;
      while n < |replies| && !finished
        invariant n <= |replies|
        invariant !finished ==> dbs != [] && !failed && !successful && internalFailure == old(internalFailure)
                                && End(View(), passdbs, replies[n..]) == End(old(View()), passdbs, replies)
        invariant finished ==> var end := End(old(View()), passdbs, replies);
                               end.Some? && successful == end.value.LoggedIn()
                               && internalFailure == (old(internalFailure) || end.value.result == InternalFailure)
        decreases |replies| - n
      {
        assert replies[n..][0] == replies[n] && replies[n..][1..] == replies[n + 1..];
        Answer(replies[n]);
        n := n + 1;
      }
    }
  }

  // ------------------------------------------------------- one step as a function

  function NextSuccess(c: Chain, r: Reply): bool
    requires c.dbs != []
  {
    if Fatal(c.dbs[0], r) then c.success else Verdict(RuleFor(c.dbs[0], Judged(c.dbs[0], r)), c.success)
  }

  /** The databases that come next, if the chain goes on. */
  function Following(c: Chain, passdbs: seq<Passdb>, r: Reply): seq<Passdb>
    requires c.dbs != []
  {
    var ok := Judged(c.dbs[0], r) == Ok;
    SkipAhead(if (c.loginRequested || r.setsLogin) && ok then passdbs else c.dbs[1..],
              c.authenticated || (ok && GoesOn(c.dbs[0], r)))
  }

  predicate Stops(c: Chain, passdbs: seq<Passdb>, r: Reply)
    requires c.dbs != []
  {
    !GoesOn(c.dbs[0], r) || Following(c, passdbs, r) == []
  }

  /** The chain after an answer that does not stop it. */
  function Advance(c: Chain, passdbs: seq<Passdb>, r: Reply): Chain
    requires c.dbs != []
  {
    var j := Judged(c.dbs[0], r);
    Chain(Following(c, passdbs, r),
          (c.loginRequested || r.setsLogin) && j != Ok,
          NextSuccess(c, r),
          c.authenticated || j == Ok,
          c.seenUnknown || j == UserUnknown,
          c.seenInternal || j == InternalFailure)
  }

  /** The result of a chain that stops with `r`. */
  function FinalResult(c: Chain, r: Reply): Result
    requires c.dbs != []
  {
    if Fatal(c.dbs[0], r) then Judged(c.dbs[0], r)
    else if NextSuccess(c, r) then Ok
    else if c.seenInternal then InternalFailure
    else Judged(c.dbs[0], r)
  }

  // -------------------------------------------------------------- whole chains

  datatype Visit = Visit(db: Passdb, reply: Reply)

  /** The databases asked and their answers, until the chain stops or no more answers come. */
  function Visits(c: Chain, passdbs: seq<Passdb>, replies: seq<Reply>): (t: seq<Visit>)
    ensures |t| <= |replies|
    decreases |replies|
  {
    if c.dbs == [] || replies == [] then []
    else [Visit(c.dbs[0], replies[0])]
         + (if Stops(c, passdbs, replies[0]) then []
            else Visits(Advance(c, passdbs, replies[0]), passdbs, replies[1..]))
  }

  /** How a chain ends: the result and `passdb_success`. */
  datatype Ending = Ending(result: Result, success: bool) {
    /** What `plain_verify_callback` and `auth_request_success` make of it. */
    predicate LoggedIn() {
      result == Ok && success
    }
  }

  function End(c: Chain, passdbs: seq<Passdb>, replies: seq<Reply>): W.Option<Ending>
    decreases |replies|
  {
    if c.dbs == [] || replies == [] then W.None
    else if Stops(c, passdbs, replies[0]) then W.Some(Ending(FinalResult(c, replies[0]), NextSuccess(c, replies[0])))
    else End(Advance(c, passdbs, replies[0]), passdbs, replies[1..])
  }

  /** Setting login_user before the answer is judged is the same as setting it with the answer. */
  lemma Folded(c: Chain, d: Chain, passdbs: seq<Passdb>, r: Reply, q: Reply)
    requires c.dbs != []
    requires d == c.(loginRequested := c.loginRequested || r.setsLogin) && q == r.(setsLogin := false)
    ensures Stops(d, passdbs, q) == Stops(c, passdbs, r)
    ensures FinalResult(d, q) == FinalResult(c, r) && NextSuccess(d, q) == NextSuccess(c, r)
    ensures Advance(d, passdbs, q) == Advance(c, passdbs, r)
    ensures FinalResult(c, r) == Ok ==> !Fatal(c.dbs[0], q)
  {
    JudgedAlike(c.dbs[0], r);
    hide Judged, Fatal, GoesOn, Verdict, RuleFor, SkipAhead;
  }

  lemma JudgedAlike(db: Passdb, r: Reply)
    ensures var q := r.(setsLogin := false);
            Judged(db, q) == Judged(db, r) && Fatal(db, q) == Fatal(db, r) && GoesOn(db, q) == GoesOn(db, r)
    ensures Fatal(db, r) ==> Judged(db, r) != Ok
  {
  }

  // ------------------------------------------------------------------ the fold

  /** The rule applied to a visit sets `passdb_success`. */
  predicate Decides(v: Visit) {
    !Fatal(v.db, v.reply) && RuleFor(v.db, Judged(v.db, v.reply)) !in {Return, Continue}
  }

  predicate Approves(v: Visit) {
    RuleFor(v.db, Judged(v.db, v.reply)) in {ReturnOk, ContinueOk}
  }

  /** The last visit from `i` on that decides does so positively; without any, `before` stands. */
  function LastDecision(t: seq<Visit>, before: bool): bool {
    if t == [] then before
    else if Decides(t[|t| - 1]) then Approves(t[|t| - 1])
    else LastDecision(t[..|t| - 1], before)
  }

  predicate SawInternal(t: seq<Visit>) {
    exists v :: v in t && Judged(v.db, v.reply) == InternalFailure
  }

  /** The ending as one fold over the visits. */
  function Folding(t: seq<Visit>, c: Chain): Ending
    requires t != []
  {
    var last := t[|t| - 1];
    var success := LastDecision(t, c.success);
    var result := if Fatal(last.db, last.reply) then Judged(last.db, last.reply)
                  else if success then Ok
                  else if c.seenInternal || SawInternal(t[..|t| - 1]) then InternalFailure
                  else Judged(last.db, last.reply);
    Ending(result, success)
  }

  lemma {:induction false} DecisionSplit(v: Visit, t: seq<Visit>, before: bool)
    ensures LastDecision([v] + t, before) == LastDecision(t, if Decides(v) then Approves(v) else before)
  {
    var all := [v] + t;
    if t == [] {
      assert all[..0] == [];
    } else {
      assert all[..|all| - 1] == [v] + t[..|t| - 1];
      DecisionSplit(v, t[..|t| - 1], before);
    }
  }

  lemma InternalSplit(v: Visit, t: seq<Visit>)
    ensures SawInternal([v] + t) == (Judged(v.db, v.reply) == InternalFailure || SawInternal(t))
  {
    assert v in [v] + t;
    assert forall w :: w in t ==> w in [v] + t;
  }

  /** The callback machine ends exactly as the fold over the databases it visited. */
  lemma {:induction false} EndsAsFold(c: Chain, passdbs: seq<Passdb>, replies: seq<Reply>)
    requires End(c, passdbs, replies).Some?
    ensures Visits(c, passdbs, replies) != []
    ensures End(c, passdbs, replies) == W.Some(Folding(Visits(c, passdbs, replies), c))
    decreases |replies|
  {
    hide Stops, Judged, Fatal, RuleFor, Following;
    var r := replies[0];
    var v := Visit(c.dbs[0], r);
    DecidesIsVerdict(c, r);
    if Stops(c, passdbs, r) {
      DecisionSplit(v, [], c.success);
      assert [v] + [] == [v] && [v][..0] == [];
    } else {
      var d, rest := Advance(c, passdbs, r), replies[1..];
      var t := Visits(d, passdbs, rest);
      EndsAsFold(d, passdbs, rest);
      DecisionSplit(v, t, c.success);
      InternalSplit(v, t[..|t| - 1]);
      assert ([v] + t)[..|t|] == [v] + t[..|t| - 1];
    }
  }

  lemma DecidesIsVerdict(c: Chain, r: Reply)
    requires c.dbs != []
    ensures var v := Visit(c.dbs[0], r);
            NextSuccess(c, r) == if Decides(v) then Approves(v) else c.success
  {
  }

  predicate AllWentOn(t: seq<Visit>) {
    forall v :: v in t ==> GoesOn(v.db, v.reply)
  }

  /** Only the last visit can be one that ends the login for good: all earlier ones went on. */
  lemma {:induction false} EarlierVisitsWentOn(c: Chain, passdbs: seq<Passdb>, replies: seq<Reply>)
    ensures var t := Visits(c, passdbs, replies);
            t != [] ==> AllWentOn(t[..|t| - 1])
    decreases |replies|
  {
    hide Judged, Fatal, Following, GoesOn;
    if c.dbs != [] && replies != [] && !Stops(c, passdbs, replies[0]) {
      EarlierVisitsWentOn(Advance(c, passdbs, replies[0]), passdbs, replies[1..]);
      var t, rest := Visits(c, passdbs, replies), Visits(Advance(c, passdbs, replies[0]), passdbs, replies[1..]);
      if rest != [] {
        assert t[..|t| - 1] == [Visit(c.dbs[0], replies[0])] + rest[..|rest| - 1];
      }
    }
  }

  /**
   A login succeeds if and only if the last decision was positive and the last database did not end it for good; so
   no deny database knew the user and no database called the user disabled or expired.
   */
  lemma LoginExactly(c: Chain, passdbs: seq<Passdb>, replies: seq<Reply>)
    requires End(c, passdbs, replies).Some?
    ensures var t := Visits(c, passdbs, replies);
            && t != []
            && (End(c, passdbs, replies).value.LoggedIn() <==>
                LastDecision(t, c.success) && forall v :: v in t ==> !Fatal(v.db, v.reply))
  {
    hide End, Visits, LastDecision, SawInternal, Judged, Fatal, RuleFor, Continues;
    EndsAsFold(c, passdbs, replies);
    EarlierVisitsWentOn(c, passdbs, replies);
    var t := Visits(c, passdbs, replies);
    var last := t[|t| - 1];
    JudgedAlike(last.db, last.reply);
    assert t == t[..|t| - 1] + [last];
  }

  // ------------------------------------------------------- the rules, database by database

  /** The password was right, and nothing inside the database objected. */
  ghost predicate Accepted(v: Visit) {
    !v.db.deny && v.reply.result == Ok && !v.reply.failed
  }

  /** The user may not log in, whatever other databases say. */
  ghost predicate Barred(v: Visit) {
    (v.db.deny && v.reply.result != UserUnknown) || v.reply.result in {UserDisabled, PassExpired}
  }

  /** The setting that applies to the answer. */
  ghost function RuleOf(v: Visit): Rule {
    if v.reply.result == Ok && !v.reply.failed then v.db.success
    else if v.reply.result == InternalFailure then v.db.internalfail
    else v.db.failure
  }

  lemma VisitMeans(v: Visit)
    ensures Fatal(v.db, v.reply) <==> Barred(v)
    ensures Judged(v.db, v.reply) == Ok <==> Accepted(v)
    ensures !Barred(v) ==>
              && (Decides(v) <==> RuleOf(v) !in {Return, Continue})
              && (Approves(v) <==> RuleOf(v) in {ReturnOk, ContinueOk})
              && (GoesOn(v.db, v.reply) <==> RuleOf(v) in {Continue, ContinueOk, ContinueFail})
              && (Judged(v.db, v.reply) == InternalFailure <==> v.reply.result == InternalFailure)
    ensures Barred(v) ==> !GoesOn(v.db, v.reply)
                          && (Judged(v.db, v.reply) == InternalFailure <==> v.reply.result == InternalFailure)
  {
  }

  /** The last visit that decides is `i`, and it does so positively. */
  ghost predicate DecidedBy(t: seq<Visit>, i: nat) {
    i < |t| && RuleOf(t[i]) in {ReturnOk, ContinueOk} && forall j :: i < j < |t| ==> RuleOf(t[j]) in {Return, Continue}
  }

  lemma {:induction false} LastDecides(t: seq<Visit>)
    requires forall v :: v in t ==> !Barred(v)
    ensures LastDecision(t, false) <==> exists i: nat :: DecidedBy(t, i)
  {
    hide Decides, Approves, RuleOf, Barred;
    if t != [] {
      var n := |t| - 1;
      LastDecides(t[..n]);
      VisitMeans(t[n]);
      if Decides(t[n]) {
        assert Approves(t[n]) ==> DecidedBy(t, n);
      } else {
        assert forall i: nat :: i < n ==> (DecidedBy(t, i) <==> DecidedBy(t[..n], i));
      }
    }
  }

  /**
   A plaintext login succeeds if and only if no database visited bars the user and the last one visited whose rule says
   ok or fail says ok.  It ends in an internal failure if and only if the last database bars the user because of one,
   or nobody barred or admitted the user and some database visited had one.
   */
  lemma LoginByRules(c: Chain, passdbs: seq<Passdb>, replies: seq<Reply>)
    requires End(c, passdbs, replies).Some? && !c.success && !c.seenInternal
    ensures var t, end := Visits(c, passdbs, replies), End(c, passdbs, replies).value;
            && t != []
            && (end.LoggedIn() <==> (forall v :: v in t ==> !Barred(v)) && exists i: nat :: DecidedBy(t, i))
            && (end.result == InternalFailure <==>
                if Barred(t[|t| - 1]) then t[|t| - 1].reply.result == InternalFailure
                else !end.LoggedIn() && exists v :: v in t && v.reply.result == InternalFailure)
  {
    hide End, Visits, LastDecision, Judged, Fatal, RuleFor, Continues, GoesOn, DecidedBy, Barred;
    var t := Visits(c, passdbs, replies);
    LoginExactly(c, passdbs, replies);
    EndsAsFold(c, passdbs, replies);
    EarlierVisitsWentOn(c, passdbs, replies);
    forall v | v in t
      ensures Fatal(v.db, v.reply) <==> Barred(v)
      ensures Judged(v.db, v.reply) == InternalFailure <==> v.reply.result == InternalFailure
      ensures Judged(v.db, v.reply) == Ok ==> !Barred(v)
      ensures Barred(v) ==> !GoesOn(v.db, v.reply)
    {
      VisitMeans(v);
      JudgedAlike(v.db, v.reply);
    }
    var n := |t| - 1;
    assert t == t[..n] + [t[n]];
    if !Barred(t[n]) {
      assert forall v :: v in t ==> !Barred(v);
      LastDecides(t);
    }
  }

  /**
   The databases that come next: after a right password with another login requested all ordinary ones, and otherwise
   the rest of the list.  Exactly those are passed over that are to be skipped once the user is authenticated, or until
   then, up to the first other one.
   */
  lemma FollowingExactly(c: Chain, passdbs: seq<Passdb>, r: Reply) returns (n: nat)
    requires c.dbs != [] && GoesOn(c.dbs[0], r)
    ensures var accepted := Accepted(Visit(c.dbs[0], r));
            var candidates := if (c.loginRequested || r.setsLogin) && accepted then passdbs else c.dbs[1..];
            var passed := if c.authenticated || accepted then IfAuthenticated else IfUnauthenticated;
            && n <= |candidates| && Following(c, passdbs, r) == candidates[n..]
            && (forall i :: 0 <= i < n ==> candidates[i].skip == passed)
            && (n < |candidates| ==> candidates[n].skip != passed)
  {
    VisitMeans(Visit(c.dbs[0], r));
    hide Judged, GoesOn, Accepted;
    var accepted := Accepted(Visit(c.dbs[0], r));
    var candidates := if (c.loginRequested || r.setsLogin) && accepted then passdbs else c.dbs[1..];
    n := SkipsExactly(candidates, c.authenticated || accepted);
  }

  lemma {:induction false} SkipsExactly(dbs: seq<Passdb>, authenticated: bool) returns (n: nat)
    ensures var passed := if authenticated then IfAuthenticated else IfUnauthenticated;
            && n <= |dbs| && SkipAhead(dbs, authenticated) == dbs[n..]
            && (forall i :: 0 <= i < n ==> dbs[i].skip == passed) && (n < |dbs| ==> dbs[n].skip != passed)
  {
    n := 0;
    if dbs != [] && WantSkip(dbs[0], authenticated) {
      var m := SkipsExactly(dbs[1..], authenticated);
      n := m + 1;
      assert dbs[1..][m..] == dbs[n..];
    }
  }

  /** The chain goes on exactly if the user is not barred, the rule says so and some database is left to ask. */
  lemma StopsExactly(c: Chain, passdbs: seq<Passdb>, r: Reply)
    requires c.dbs != []
    ensures var v := Visit(c.dbs[0], r);
            Stops(c, passdbs, r) <==>
            Barred(v) || RuleOf(v) !in {Continue, ContinueOk, ContinueFail} || Following(c, passdbs, r) == []
  {
    VisitMeans(Visit(c.dbs[0], r));
  }

  /** The user was authenticated before visit `i`. */
  ghost predicate AcceptedBefore(c: Chain, t: seq<Visit>, i: nat)
    requires i <= |t|
  {
    c.authenticated || exists j :: 0 <= j < i && Accepted(t[j])
  }

  /**
   Over every run: after the first one, a database that is to be skipped once the user is authenticated is asked only
   if no earlier one accepted the password, and one to be skipped until then only if some earlier one did.
   */
  lemma {:induction false} SkipsByHistory(c: Chain, passdbs: seq<Passdb>, replies: seq<Reply>, i: nat)
    requires 0 < i < |Visits(c, passdbs, replies)|
    ensures var t := Visits(c, passdbs, replies);
            && (t[i].db.skip == IfAuthenticated ==> !AcceptedBefore(c, t, i))
            && (t[i].db.skip == IfUnauthenticated ==> AcceptedBefore(c, t, i))
    decreases |replies|
  {
    var t, r := Visits(c, passdbs, replies), replies[0];
    var d := Advance(c, passdbs, r);
    var rest := Visits(d, passdbs, replies[1..]);
    assert t == [Visit(c.dbs[0], r)] + rest;
    VisitMeans(t[0]);
    hide Visits, Judged, GoesOn, Following, Accepted;
    if i == 1 {
      var n := FollowingExactly(c, passdbs, r);
      VisitsFirst(d, passdbs, replies[1..]);
    } else {
      SkipsByHistory(d, passdbs, replies[1..], i - 1);
    }
    AcceptedLater(c, d, t, rest, i);
  }

  lemma AcceptedLater(c: Chain, d: Chain, t: seq<Visit>, rest: seq<Visit>, i: nat)
    requires 0 < i <= |t| && rest == t[1..] && d.authenticated == (c.authenticated || Accepted(t[0]))
    ensures AcceptedBefore(d, rest, i - 1) <==> AcceptedBefore(c, t, i)
  {
    hide Accepted;
    assert forall j :: 0 <= j < i - 1 ==> rest[j] == t[j + 1];
    assert forall j :: 0 < j < i ==> t[j] == rest[j - 1];
  }

  lemma VisitsFirst(c: Chain, passdbs: seq<Passdb>, replies: seq<Reply>)
    ensures var t := Visits(c, passdbs, replies);
            t != [] ==> c.dbs != [] && replies != [] && t[0] == Visit(c.dbs[0], replies[0])
  {
  }

  // ------------------------------------------------------------------ termination

  function Logins(t: seq<Visit>): nat {
    if t == [] then 0 else One(t[0].reply.setsLogin) + Logins(t[1..])
  }

  function One(b: bool): nat {
    if b then 1 else 0
  }

  /** The most lookups a chain can still make when `logins` of the answers set login_user. */
  function Budget(c: Chain, passdbs: seq<Passdb>, logins: nat): nat {
    |c.dbs| + |passdbs| * (One(c.loginRequested) + logins)
  }

  lemma StepWithinBudget(c: Chain, passdbs: seq<Passdb>, r: Reply, logins: nat)
    requires c.dbs != []
    ensures Budget(Advance(c, passdbs, r), passdbs, logins) + 1 <= Budget(c, passdbs, One(r.setsLogin) + logins)
  {
    hide Judged, Fatal, GoesOn;
    var d := Advance(c, passdbs, r);
    var p := |passdbs|;
    var before, after := One(c.loginRequested) + One(r.setsLogin) + logins, One(d.loginRequested) + logins;
    if (c.loginRequested || r.setsLogin) && Judged(c.dbs[0], r) == Ok {
      assert p * after + p == p * (after + 1);
      Monotone(p, after + 1, before);
    } else {
      Monotone(p, after, before);
    }
  }

  lemma Monotone(p: nat, a: nat, b: nat)
    requires a <= b
    ensures p * a <= p * b
  {
  }

  /**
   However the chain jumps, it asks at most |dbs| + |passdbs| * (restarts) times; one that is not over has a lookup
   left.
   */
  lemma {:induction false} Bounded(c: Chain, passdbs: seq<Passdb>, replies: seq<Reply>)
    requires c.dbs != []
    ensures var t := Visits(c, passdbs, replies);
            && |t| <= Budget(c, passdbs, Logins(t))
            && (End(c, passdbs, replies).None? ==> |t| == |replies| && |t| < Budget(c, passdbs, Logins(t)))
    decreases |replies|
  {
    var t := Visits(c, passdbs, replies);
    if replies != [] {
      var r := replies[0];
      if Stops(c, passdbs, r) {
        StepWithinBudget(c, passdbs, r, 0);
      } else {
        Bounded(Advance(c, passdbs, r), passdbs, replies[1..]);
        assert t[1..] == Visits(Advance(c, passdbs, r), passdbs, replies[1..]);
        StepWithinBudget(c, passdbs, r, Logins(t[1..]));
      }
    }
  }

  /** When no answer sets login_user, a login is over after at most |masterdbs| + |passdbs| lookups. */
  lemma LoginTerminates(masterdbs: seq<Passdb>, passdbs: seq<Passdb>, masterLogin: bool, replies: seq<Reply>)
    requires (if masterLogin then masterdbs else passdbs) != []
    requires forall r :: r in replies ==> !r.setsLogin
    requires |replies| >= |masterdbs| + |passdbs|
    ensures var start := Chain(if masterLogin then masterdbs else passdbs, masterLogin, false, false, false, false);
            End(start, passdbs, replies).Some?
  {
    hide End, Visits, Logins;
    var c := Chain(if masterLogin then masterdbs else passdbs, masterLogin, false, false, false, false);
    Bounded(c, passdbs, replies);
    NoLogins(c, passdbs, replies);
  }

  lemma {:induction false} NoLogins(c: Chain, passdbs: seq<Passdb>, replies: seq<Reply>)
    requires forall r :: r in replies ==> !r.setsLogin
    ensures Logins(Visits(c, passdbs, replies)) == 0
    decreases |replies|
  {
    if c.dbs != [] && replies != [] {
      assert replies[0] in replies;
      var t := Visits(c, passdbs, replies);
      NoLogins(Advance(c, passdbs, replies[0]), passdbs, replies[1..]);
    }
  }

  /**
   Without that condition there is no bound: a database whose answers always set login_user is asked again and again.
   */
  lemma {:induction false} LoginLoop(n: nat, c: Chain)
    requires var db := Passdb(false, Never, Continue, Return, Return);
             c.dbs == [db]
    ensures var db := Passdb(false, Never, Continue, Return, Return);
            End(c, [db], seq(n, i => Reply(Ok, false, true))).None?
    decreases n
  {
    var db := Passdb(false, Never, Continue, Return, Return);
    var r := Reply(Ok, false, true);
    var replies := seq(n, i => r);
    if n > 0 {
      assert replies[1..] == seq(n - 1, i => r);
      assert Following(c, [db], r) == [db];
      LoginLoop(n - 1, Advance(c, [db], r));
    }
  }
}
