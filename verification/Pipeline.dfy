/** The send pipeline: claims under the state mutex, the backoff state under the failure mutex,
    the transport under the modem mutex, and any number of request handlers and workers. */
module Pipeline {
  import opened Wrappers
  import opened Retry
  import opened Gate
  import opened Pdu

  // ----- The shared variables and their critical sections -----

  /** The last claimed PDU; no time before the first claim. */
  datatype Claims = Claims(lastPDU: string, lastSent: Option<int>)

  /** Is the same PDU still inside the cooldown? The zero time is infinitely long ago. */
  predicate Duplicate(c: Claims, pdu: string, now: int, cooldown: int) {
    pdu == c.lastPDU && c.lastSent.Some? && now - c.lastSent.value < cooldown
  }

  datatype Failures = Failures(count: nat, until: Option<int>)

  function Recorded(f: Failures, ok: bool, now: int): Failures {
    if ok then Failures(0, None) else
    var d := BackoffFor(f.count + 1);
    Failures(f.count + 1, if d > 0 then Some(now + d) else f.until)
  }

  /** Does a backoff end lie in the future? The zero time never does. */
  predicate Blocked(until: Option<int>, now: int) {
    until.Some? && now < until.value
  }

  class Relay {
    var lastPDU: string
    var lastSent: Option<int>
    var consecFails: nat
    var backoffUntil: Option<int>
    var allowedDest: seq<string>

    function TheClaims(): Claims
      reads this
    {
      Claims(lastPDU, lastSent)
    }

    function TheFailures(): Failures
      reads this
    {
      Failures(consecFails, backoffUntil)
    }

    constructor (flag: string)
      ensures TheClaims() == Claims("", None) && TheFailures() == Failures(0, None)
      ensures allowedDest == AllowList(flag)
    {
      lastPDU, lastSent, consecFails, backoffUntil := "", None, 0, None;
      new;
      allowedDest := ParseAllowList(flag);
    }

    /** Reserves a PDU; the clock reads `t1` at the check and `t2` at the assignment. */
    method ClaimPDU(pduHex: string, cooldown: int, t1: int, t2: int) returns (granted: bool)
      modifies this`lastPDU, this`lastSent
      ensures granted <==> !Duplicate(old(TheClaims()), pduHex, t1, cooldown)
      ensures TheClaims() == if granted then Claims(pduHex, Some(t2)) else old(TheClaims())
    {
      if pduHex == lastPDU && lastSent.Some? && t1 - lastSent.value < cooldown { return false; }
      lastPDU, lastSent := pduHex, Some(t2);
      return true;
    }

    /** The worker's look at the backoff state. */
    method MustWait(now: int) returns (wait: bool)
      ensures wait <==> Blocked(backoffUntil, now)
    {
      return backoffUntil.Some? && now < backoffUntil.value;
    }

    /** The worker's report after a transmission. */
    method RecordOutcome(ok: bool, now: int)
      modifies this`consecFails, this`backoffUntil
      ensures TheFailures() == Recorded(old(TheFailures()), ok, now)
    {
      if ok {
        consecFails, backoffUntil := 0, None;
      } else {
        consecFails := consecFails + 1;
        var d := ComputeBackoff(consecFails);
        if d > 0 { backoffUntil := Some(now + d); }
      }
    }

    /** A request from either frontend: the job to start a worker for, if any. */
    method Handle(r: Request, cooldown: int, t1: int, t2: int) returns (job: Option<Job>)
      modifies this`lastPDU, this`lastSent
      ensures var admitted := Admit(r, allowedDest);
        if admitted.Success? && !Duplicate(old(TheClaims()), admitted.value.pdu, t1, cooldown)
        then job == Some(admitted.value) && TheClaims() == Claims(admitted.value.pdu, Some(t2))
        else job == None && TheClaims() == old(TheClaims())
    {
      hide AdmitPdu;
      var admitted := Admit(r, allowedDest);
      if admitted.Failure? { return None; }
      var granted := ClaimPDU(admitted.value.pdu, cooldown, t1, t2);
      return if granted then Some(admitted.value) else None;
    }
  }

  // ----- All interleavings -----

  datatype Config = Config(cooldown: int, allow: seq<string>)

  datatype Pc =
    | Checking
    | Deciding(until: Option<int>, seen: nat)   // read after `seen` recorded outcomes
    | Waiting(until: Option<int>, seen: nat)    // for the modem
    | Sending
    | Recording(ok: bool)
    | Finished

  datatype Worker = Worker(request: Request, job: Job, pc: Pc)

  /** A handler between the check and the assignment, holding the state mutex. */
  datatype Claimant = Claimant(request: Request, job: Job, checked: int)

  datatype Grant = Grant(pdu: string, checked: int, at: int)
  datatype Outcome = Outcome(ok: bool, at: int, worker: nat)

  /** A transmission that began: when, how many outcomes its worker knew at its check-read and
      how many were recorded by then. */
  datatype Start = Start(worker: nat, at: int, read: nat, known: nat)

  datatype State = State(now: int, claims: Claims, claimant: Option<Claimant>, fails: Failures, modem: Option<nat>,
                         workers: seq<Worker>, grants: seq<Grant>, outcomes: seq<Outcome>, starts: seq<Start>)

  const INIT := State(0, Claims("", None), None, Failures(0, None), None, [], [], [], [])

  datatype Action =
    | Tick(d: nat)
    | BeginClaim(r: Request)
    | CommitClaim
    | ReadBackoff(w: nat)
    | Decide(w: nat)
    | EnterTransport(w: nat)
    | LeaveTransport(w: nat, ok: bool)
    | Report(w: nat)

  predicate Enabled(cfg: Config, s: State, a: Action) {
    match a
    case Tick(_) => true
    case BeginClaim(r) => s.claimant.None? && Admit(r, cfg.allow).Success?
    case CommitClaim => s.claimant.Some?
    case ReadBackoff(w) => w < |s.workers| && s.workers[w].pc.Checking?
    case Decide(w) => w < |s.workers| && s.workers[w].pc.Deciding?
    case EnterTransport(w) => w < |s.workers| && s.workers[w].pc.Waiting? && s.modem.None?
    case LeaveTransport(w, _) => w < |s.workers| && s.workers[w].pc.Sending? && s.modem == Some(w)
    case Report(w) => w < |s.workers| && s.workers[w].pc.Recording?
  }

  function Move(s: State, w: nat, pc: Pc): State
    requires w < |s.workers|
  {
    s.(workers := s.workers[w := s.workers[w].(pc := pc)])
  }

  function Apply(cfg: Config, s: State, a: Action): State
    requires Enabled(cfg, s, a)
  {
    match a
    case Tick(d) => s.(now := s.now + d)
    case BeginClaim(r) =>
      var job := Admit(r, cfg.allow).value;
      if Duplicate(s.claims, job.pdu, s.now, cfg.cooldown) then s
      else s.(claimant := Some(Claimant(r, job, s.now)))
    case CommitClaim =>
      var c := s.claimant.value;
      s.(claims := Claims(c.job.pdu, Some(s.now)), claimant := None,
         workers := s.workers + [Worker(c.request, c.job, Checking)],
         grants := s.grants + [Grant(c.job.pdu, c.checked, s.now)])
    case ReadBackoff(w) => Move(s, w, Deciding(s.fails.until, |s.outcomes|))
    case Decide(w) =>
      var pc := s.workers[w].pc;
      Move(s, w, if Blocked(pc.until, s.now) then Finished else Waiting(pc.until, pc.seen))
    case EnterTransport(w) =>
      Move(s, w, Sending).(modem := Some(w),
                           starts := s.starts + [Start(w, s.now, s.workers[w].pc.seen, |s.outcomes|)])
    case LeaveTransport(w, ok) => Move(s, w, Recording(ok)).(modem := None)
    case Report(w) =>
      var ok := s.workers[w].pc.ok;
      Move(s, w, Finished).(fails := Recorded(s.fails, ok, s.now), outcomes := s.outcomes + [Outcome(ok, s.now, w)])
  }

  ghost predicate Next(cfg: Config, s: State, s': State) {
    exists a :: Enabled(cfg, s, a) && s' == Apply(cfg, s, a)
  }

  ghost predicate Run(cfg: Config, ss: seq<State>) {
    ss != [] && ss[0] == INIT && forall i | 0 <= i < |ss| - 1 :: Next(cfg, ss[i], ss[i + 1])
  }

  ghost predicate Reachable(cfg: Config, s: State) {
    exists ss :: Run(cfg, ss) && ss[|ss| - 1] == s
  }

  // ----- What every reachable state keeps -----

  /** The failure state that a history of outcomes leaves behind. */
  ghost function FailuresAfter(os: seq<Outcome>): Failures {
    if os == [] then Failures(0, None)
    else Recorded(FailuresAfter(os[..|os| - 1]), os[|os| - 1].ok, os[|os| - 1].at)
  }

  ghost predicate ClaimsInv(cfg: Config, s: State) {
    && |s.grants| == |s.workers|
    && (if s.grants == [] then s.claims == Claims("", None)
        else s.claims == Claims(s.grants[|s.grants| - 1].pdu, Some(s.grants[|s.grants| - 1].at)))
    && (forall i | 0 <= i < |s.grants| :: s.grants[i].checked <= s.grants[i].at <= s.now)
    && (forall i | 0 < i < |s.grants| :: Spaced(cfg, s.grants[i - 1], s.grants[i]))
    && (s.claimant.Some? ==>
          var c := s.claimant.value;
          && Admit(c.request, cfg.allow) == Success(c.job) && c.checked <= s.now
          && (s.grants != [] ==> Spaced(cfg, s.grants[|s.grants| - 1], Grant(c.job.pdu, c.checked, s.now))))
  }

  /** The next grant came later, and a repeated PDU passed its check after the cooldown. */
  ghost predicate Spaced(cfg: Config, g: Grant, h: Grant) {
    g.at <= h.checked && (g.pdu == h.pdu ==> h.checked - g.at >= cfg.cooldown)
  }

  ghost predicate WorkersInv(cfg: Config, s: State) {
    && |s.grants| == |s.workers|
    && (forall w | 0 <= w < |s.workers| ::
          && Admit(s.workers[w].request, cfg.allow) == Success(s.workers[w].job)
          && s.grants[w].pdu == s.workers[w].job.pdu)
    && (forall w | 0 <= w < |s.workers| :: s.workers[w].pc.Sending? <==> s.modem == Some(w))
    && (s.modem.Some? ==> s.modem.value < |s.workers|)
  }

  ghost predicate Started(pc: Pc) { pc.Sending? || pc.Recording? || pc.Finished? }

  ghost predicate StartsInv(s: State) {
    && (forall w | 0 <= w < |s.grants| :: s.grants[w].at <= s.now)
    && (forall j | 0 <= j < |s.starts| ::
          && s.starts[j].worker < |s.workers| == |s.grants| && Started(s.workers[s.starts[j].worker].pc)
          && s.grants[s.starts[j].worker].at <= s.starts[j].at <= s.now)
    && (forall i, j | 0 <= i < j < |s.starts| :: s.starts[i].worker != s.starts[j].worker)
  }

  ghost predicate Sorted(os: seq<Outcome>) {
    forall i, j | 0 <= i <= j < |os| :: os[i].at <= os[j].at
  }

  /** What was read after `seen` outcomes is what they left behind. */
  ghost predicate ReadWas(s: State, until: Option<int>, seen: nat) {
    seen <= |s.outcomes| && until == FailuresAfter(s.outcomes[..seen]).until
  }

  ghost predicate BackoffInv(s: State) {
    && s.fails == FailuresAfter(s.outcomes)
    && Sorted(s.outcomes) && (forall i | 0 <= i < |s.outcomes| :: s.outcomes[i].at <= s.now)
    && (forall w | 0 <= w < |s.workers| && s.workers[w].pc.Deciding? ::
          ReadWas(s, s.workers[w].pc.until, s.workers[w].pc.seen))
    && (forall w | 0 <= w < |s.workers| && s.workers[w].pc.Waiting? ::
          ReadWas(s, s.workers[w].pc.until, s.workers[w].pc.seen) && !Blocked(s.workers[w].pc.until, s.now))
    && (forall j | 0 <= j < |s.starts| ::
          var x := s.starts[j];
          x.read <= x.known <= |s.outcomes| && !Blocked(FailuresAfter(s.outcomes[..x.read]).until, x.at))
  }

  ghost predicate Inv(cfg: Config, s: State) {
    ClaimsInv(cfg, s) && WorkersInv(cfg, s) && StartsInv(s) && BackoffInv(s)
  }

  lemma ClaimsStep(cfg: Config, s: State, a: Action)
    requires ClaimsInv(cfg, s) && Enabled(cfg, s, a)
    ensures ClaimsInv(cfg, Apply(cfg, s, a))
  {
    hide Admit;
  }

  lemma WorkersStep(cfg: Config, s: State, a: Action)
    requires ClaimsInv(cfg, s) && WorkersInv(cfg, s) && Enabled(cfg, s, a)
    ensures WorkersInv(cfg, Apply(cfg, s, a))
  {
    hide Admit;
  }

  lemma StartsStep(cfg: Config, s: State, a: Action)
    requires ClaimsInv(cfg, s) && StartsInv(s) && Enabled(cfg, s, a)
    ensures StartsInv(Apply(cfg, s, a))
  {
    hide Admit;
  }

  lemma OneMoreRecorded(os: seq<Outcome>, o: Outcome)
    ensures FailuresAfter(os + [o]) == Recorded(FailuresAfter(os), o.ok, o.at)
    ensures forall n | 0 <= n <= |os| :: (os + [o])[..n] == os[..n]
  {
    assert (os + [o])[..|os|] == os;
  }

  lemma BackoffStep(cfg: Config, s: State, a: Action)
    requires BackoffInv(s) && Enabled(cfg, s, a)
    ensures BackoffInv(Apply(cfg, s, a))
  {
    hide Admit, FailuresAfter, Recorded;
    assert s.outcomes[..|s.outcomes|] == s.outcomes;
    if a.Report? { OneMoreRecorded(s.outcomes, Outcome(s.workers[a.w].pc.ok, s.now, a.w)); }
  }

  lemma {:induction false} ReachableInv(cfg: Config, s: State)
    requires Reachable(cfg, s)
    ensures Inv(cfg, s)
  {
    var ss :| Run(cfg, ss) && ss[|ss| - 1] == s;
    RunInv(cfg, ss, |ss| - 1);
  }

  lemma {:induction false} RunInv(cfg: Config, ss: seq<State>, i: nat)
    requires Run(cfg, ss) && i < |ss|
    ensures Inv(cfg, ss[i])
  {
    hide ClaimsInv, WorkersInv, StartsInv, BackoffInv, Apply, Enabled;
    if i == 0 {
      InitInv(cfg);
    } else {
      RunInv(cfg, ss, i - 1);
      assert Next(cfg, ss[i - 1], ss[i - 1 + 1]);
      var a :| Enabled(cfg, ss[i - 1], a) && ss[i] == Apply(cfg, ss[i - 1], a);
      ClaimsStep(cfg, ss[i - 1], a);
      WorkersStep(cfg, ss[i - 1], a);
      StartsStep(cfg, ss[i - 1], a);
      BackoffStep(cfg, ss[i - 1], a);
    }
  }

  lemma InitInv(cfg: Config)
    ensures Inv(cfg, INIT)
  {
  }

  // ----- Main results over all interleavings -----

  /** Gating: every transmission belongs to a worker that won its own claim earlier, for the PDU
      of its request, and that PDU decodes to an allowed recipient; a claim leads to at most one
      transmission; and no two workers are inside the transport together. */
  lemma TransmissionsAreGated(cfg: Config, s: State)
    requires Reachable(cfg, s)
    ensures |s.grants| == |s.workers|
    ensures forall j | 0 <= j < |s.starts| ::
      var w := s.starts[j].worker;
      && w < |s.workers| && s.grants[w].at <= s.starts[j].at
      && s.grants[w].pdu == s.workers[w].job.pdu && RequestPdu(s.workers[w].request) == Some(s.workers[w].job.pdu)
      && Decode(s.workers[w].job.pdu).Success? && Allowed(cfg.allow, Decode(s.workers[w].job.pdu).value.phone)
    ensures forall i, j | 0 <= i < j < |s.starts| :: s.starts[i].worker != s.starts[j].worker
    ensures forall v, w | 0 <= v < w < |s.workers| :: !(s.workers[v].pc.Sending? && s.workers[w].pc.Sending?)
  {
    hide Admit, Decode, Reachable;
    ReachableInv(cfg, s);
    forall w | 0 <= w < |s.workers|
      ensures var job := s.workers[w].job;
        && RequestPdu(s.workers[w].request) == Some(job.pdu)
        && Decode(job.pdu).Success? && Allowed(cfg.allow, Decode(job.pdu).value.phone)
    {
      AdmitExact(s.workers[w].request, cfg.allow);
    }
  }

  /** Cooldown over whole runs: grants i..j of one PDU with nothing else granted in between
      span at least (j - i) cooldowns, whichever frontend asked. */
  lemma {:induction false} GrantsSpan(cfg: Config, s: State, i: nat, j: nat)
    requires Reachable(cfg, s) && i <= j < |s.grants|
    requires forall k | i <= k <= j :: s.grants[k].pdu == s.grants[i].pdu
    ensures s.grants[j].at - s.grants[i].at >= (j - i) * cfg.cooldown
    decreases j
  {
    hide Admit, Reachable;
    ReachableInv(cfg, s);
    if i < j {
      GrantsSpan(cfg, s, i, j - 1);
      assert Spaced(cfg, s.grants[j - 1], s.grants[j]);
      OneMore(j - 1 - i, cfg.cooldown);
    }
  }

  lemma OneMore(n: int, c: int)
    ensures (n + 1) * c == n * c + c
  {
  }

  /** A claim is turned down exactly when the latest grant was for the same PDU less than a
      cooldown ago; in particular any other PDU granted in between re-opens the way. */
  lemma ClaimExact(cfg: Config, s: State, pdu: string)
    requires Reachable(cfg, s)
    ensures Duplicate(s.claims, pdu, s.now, cfg.cooldown) <==>
            && s.grants != [] && s.grants[|s.grants| - 1].pdu == pdu
            && s.now - s.grants[|s.grants| - 1].at < cfg.cooldown
  {
    ReachableInv(cfg, s);
  }

  /** The n latest outcomes are the failures since the latest success. */
  ghost predicate Streak(os: seq<Outcome>, n: int) {
    0 <= n <= |os| && (forall i | |os| - n <= i < |os| :: !os[i].ok) && (n < |os| ==> os[|os| - n - 1].ok)
  }

  lemma {:induction false} FailuresMeaning(os: seq<Outcome>)
    ensures var f := FailuresAfter(os);
      Streak(os, f.count) && f.until == if f.count < 3 then None else Some(os[|os| - 1].at + BackoffFor(f.count))
  {
    if os != [] {
      var n := |os| - 1;
      var init := os[..n];
      FailuresMeaning(init);
      var f, g := FailuresAfter(init), FailuresAfter(os);
      BackoffMonotone(g.count, g.count);
      assert forall i | 0 <= i < n :: init[i] == os[i];
      if !os[n].ok && g.count < |os| { assert os[|os| - g.count - 1] == init[|init| - f.count - 1]; }
    }
  }

  /** In every reachable state the failure counter is the length of the current streak, and the
      backoff end is absent below three failures and otherwise the latest failure's time plus
      the pause for the streak. */
  lemma BackoffState(cfg: Config, s: State)
    requires Reachable(cfg, s)
    ensures Streak(s.outcomes, s.fails.count)
    ensures s.fails.until ==
            if s.fails.count < 3 then None
            else Some(s.outcomes[|s.outcomes| - 1].at + BackoffFor(s.fails.count))
  {
    hide Admit;
    ReachableInv(cfg, s);
    FailuresMeaning(s.outcomes);
  }

  ghost predicate NoSuccess(os: seq<Outcome>, i: int, j: int)
    requires 0 <= i <= j <= |os|
  {
    forall k | i <= k < j :: !os[k].ok
  }

  lemma OneMoreOutcome(os: seq<Outcome>, j: nat)
    requires 0 < j <= |os|
    ensures FailuresAfter(os[..j]) == Recorded(FailuresAfter(os[..j - 1]), os[j - 1].ok, os[j - 1].at)
  {
    assert os[..j][..j - 1] == os[..j - 1];
  }

  /** Further failures never move an open window's end back. */
  lemma {:induction false} UntilGrows(os: seq<Outcome>, i: nat, j: nat)
    requires i <= j <= |os| && Sorted(os) && NoSuccess(os, i, j)
    requires FailuresAfter(os[..i]).until.Some?
    ensures FailuresAfter(os[..j]).until.Some?
    ensures FailuresAfter(os[..i]).until.value <= FailuresAfter(os[..j]).until.value
    decreases j
  {
    if i < j {
      UntilGrows(os, i, j - 1);
      OneMoreOutcome(os, j);
      FailuresMeaning(os[..j - 1]);
      var f := FailuresAfter(os[..j - 1]);
      assert os[..j - 1][|os[..j - 1]| - 1] == os[j - 2];
      BackoffMonotone(f.count, f.count + 1);
    }
  }

  /** The first `seen` outcomes end in a streak of three or more failures whose pause, counted
      from the latest of them, is not over at `at`. */
  ghost predicate Paused(os: seq<Outcome>, seen: int, at: int)
    requires 0 <= seen <= |os|
  {
    exists n :: Streak(os[..seen], n) && n >= 3 && at < os[seen - 1].at + BackoffFor(n)
  }

  /** A backoff end lies in the future exactly when the outcomes say so. */
  lemma BlockedMeaning(os: seq<Outcome>, seen: nat, at: int)
    requires seen <= |os|
    ensures Blocked(FailuresAfter(os[..seen]).until, at) <==> Paused(os, seen, at)
  {
    hide FailuresAfter, BackoffFor, Streak;
    FailuresMeaning(os[..seen]);
    var c := FailuresAfter(os[..seen]).count;
    forall n | Streak(os[..seen], n) ensures n == c { StreakUnique(os[..seen], n, c); }
    if c >= 3 { StreakBound(os[..seen], c); }
  }

  lemma StreakUnique(os: seq<Outcome>, m: int, n: int)
    requires Streak(os, m) && Streak(os, n)
    ensures m == n
  {
  }

  lemma StreakBound(os: seq<Outcome>, n: int)
    requires Streak(os, n)
    ensures n <= |os| && (n > 0 ==> !os[|os| - 1].ok)
  {
  }

  /** The worker's check: it gives up exactly when the outcomes recorded at its check-read end in
      a streak of three or more failures whose pause is not over at the decision. */
  lemma CheckExact(cfg: Config, s: State, w: nat)
    requires Reachable(cfg, s) && Enabled(cfg, s, Decide(w))
    ensures var pc := s.workers[w].pc;
      && pc.seen <= |s.outcomes|
      && (Apply(cfg, s, Decide(w)).workers[w].pc == Finished <==> Paused(s.outcomes, pc.seen, s.now))
  {
    hide Admit, Reachable, FailuresAfter, Paused;
    ReachableInv(cfg, s);
    BlockedMeaning(s.outcomes, s.workers[w].pc.seen, s.now);
  }

  /** The k-th outcome opened a window that lasts beyond `at`, and no success was recorded
      between it and the first `known` outcomes. */
  ghost predicate Opening(os: seq<Outcome>, k: int, known: int, at: int) {
    && 0 <= k < known <= |os| && NoSuccess(os, k + 1, known) && Paused(os, k + 1, at)
  }

  /** A transmission that starts inside a window opened by a recorded failure, with no success
      recorded since, belongs to a worker that looked at the backoff state before that failure. */
  lemma LateStarterReadEarly(cfg: Config, s: State, j: nat, k: nat)
    requires Reachable(cfg, s) && j < |s.starts|
    requires Opening(s.outcomes, k, s.starts[j].known, s.starts[j].at)
    ensures s.starts[j].read <= k
  {
    hide Admit, Paused;
    ReachableInv(cfg, s);
    var x := s.starts[j];
    BlockedMeaning(s.outcomes, k + 1, x.at);
    if x.read > k { UntilGrows(s.outcomes, k + 1, x.read); }
  }

  /** Did transmission x start while the recorded outcomes asked for a pause? */
  ghost predicate InWindow(s: State, x: Start)
    requires x.known <= |s.outcomes|
  {
    Blocked(FailuresAfter(s.outcomes[..x.known]).until, x.at)
  }

  /** When the check and the send race: a transmission starts inside an open window exactly
      when some failure recorded after its worker's check-read opened one that no success has
      closed. Without an outcome recorded in between it never does. */
  lemma WindowRace(cfg: Config, s: State, j: nat)
    requires Reachable(cfg, s) && j < |s.starts|
    ensures var x := s.starts[j];
      && x.read <= x.known <= |s.outcomes|
      && (InWindow(s, x) <==> exists k :: x.read <= k && Opening(s.outcomes, k, x.known, x.at))
      && (x.read == x.known ==> !InWindow(s, x))
  {
    hide Admit, Reachable, FailuresAfter, Paused;
    ReachableInv(cfg, s);
    var x := s.starts[j];
    if InWindow(s, x) {
      LatestOpens(s.outcomes, x.known, x.at);
      LateStarterReadEarly(cfg, s, j, x.known - 1);
    }
    if k :| x.read <= k && Opening(s.outcomes, k, x.known, x.at) {
      BlockedMeaning(s.outcomes, k + 1, x.at);
      UntilGrows(s.outcomes, k + 1, x.known);
    }
  }

  /** While a pause is asked for, the latest outcome is a failure that asks for it. */
  lemma LatestOpens(os: seq<Outcome>, known: nat, at: int)
    requires known <= |os| && Blocked(FailuresAfter(os[..known]).until, at)
    ensures known > 0 && Opening(os, known - 1, known, at)
  {
    hide FailuresAfter, Paused;
    FailuresMeaning(os[..known]);
    BlockedMeaning(os, known, at);
  }

  /** After a transmission the worker holds its result and the modem is free. */
  lemma ResultHeld(cfg: Config, s: State, w: nat, ok: bool)
    requires Enabled(cfg, s, LeaveTransport(w, ok))
    ensures var t := Apply(cfg, s, LeaveTransport(w, ok));
      t.workers[w].pc == Recording(ok) && t.modem == None && t.outcomes == s.outcomes && t.fails == s.fails
  {
    hide Admit;
  }

  /** The report of a result records exactly that result, at its time, and no other worker changes. */
  lemma ResultRecorded(cfg: Config, s: State, w: nat)
    requires Enabled(cfg, s, Report(w))
    ensures var t := Apply(cfg, s, Report(w));
      && t.outcomes == s.outcomes + [Outcome(s.workers[w].pc.ok, s.now, w)] && t.workers[w].pc == Finished
      && (forall v | 0 <= v < |s.workers| && v != w :: t.workers[v] == s.workers[v])
  {
    hide Admit, Recorded;
  }

  /** A result once obtained is kept until it is reported, whatever else happens. */
  lemma ResultKept(cfg: Config, s: State, w: nat, a: Action)
    requires Enabled(cfg, s, a) && w < |s.workers| && s.workers[w].pc.Recording? && a != Report(w)
    ensures w < |Apply(cfg, s, a).workers| && Apply(cfg, s, a).workers[w] == s.workers[w]
  {
    hide Admit, Recorded;
  }

  // ----- The race is real: a run in which a transmission starts inside an open window -----

  lemma Reach(cfg: Config, s: State, a: Action)
    requires Reachable(cfg, s) && Enabled(cfg, s, a)
    ensures Reachable(cfg, Apply(cfg, s, a))
  {
    var ss :| Run(cfg, ss) && ss[|ss| - 1] == s;
    var s' := Apply(cfg, s, a);
    assert Next(cfg, s, s');
    var tt := ss + [s'];
    forall i | 0 <= i < |tt| - 1 ensures Next(cfg, tt[i], tt[i + 1]) {
      if i < |ss| - 1 { assert Next(cfg, ss[i], ss[i + 1]); }
    }
    assert Run(cfg, tt) && tt[|tt| - 1] == s';
  }

  lemma InitReachable(cfg: Config)
    ensures Reachable(cfg, INIT)
  {
    assert Run(cfg, [INIT]) && [INIT][|[INIT]| - 1] == INIT;
  }

  /** After the cooldown, one more request gets a worker past its backoff check. */
  lemma Spawn(cfg: Config, s: State, r: Request) returns (t: State)
    requires Reachable(cfg, s) && s.claimant.None? && s.fails == Failures(0, None) && s.outcomes == []
    requires Admit(r, cfg.allow).Success?
    ensures Reachable(cfg, t) && t.claimant.None? && t.fails == s.fails && t.outcomes == [] && t.modem == s.modem
    ensures t.starts == s.starts
    ensures t.workers == s.workers + [Worker(r, Admit(r, cfg.allow).value, Waiting(None, 0))]
  {
    hide Admit, Reachable, Inv;
    ReachableInv(cfg, s);
    var job := Admit(r, cfg.allow).value;
    var d := if cfg.cooldown > 0 then cfg.cooldown else 0;
    LastGrantIsPast(cfg, s);
    Reach(cfg, s, Tick(d));
    t := Apply(cfg, s, Tick(d));
    assert !Duplicate(t.claims, job.pdu, t.now, cfg.cooldown);
    Reach(cfg, t, BeginClaim(r));
    t := Apply(cfg, t, BeginClaim(r));
    Reach(cfg, t, CommitClaim);
    t := Apply(cfg, t, CommitClaim);
    var w := |s.workers|;
    Reach(cfg, t, ReadBackoff(w));
    t := Apply(cfg, t, ReadBackoff(w));
    Reach(cfg, t, Decide(w));
    t := Apply(cfg, t, Decide(w));
    assert t.workers == s.workers + [Worker(r, job, Waiting(None, 0))];
  }

  lemma LastGrantIsPast(cfg: Config, s: State)
    requires Inv(cfg, s)
    ensures s.claims.lastSent.Some? ==> s.claims.lastSent.value <= s.now
  {
    hide Admit;
  }

  /** A waiting worker transmits and fails. */
  lemma Fail(cfg: Config, s: State, w: nat) returns (t: State)
    requires Reachable(cfg, s) && w < |s.workers| && s.workers[w].pc.Waiting? && s.modem.None?
    ensures Reachable(cfg, t) && t.modem.None? && t.now == s.now
    ensures t.fails == Recorded(s.fails, false, s.now) && |t.outcomes| == |s.outcomes| + 1
    ensures t.workers == s.workers[w := s.workers[w].(pc := Finished)]
  {
    hide Reachable, Recorded;
    Reach(cfg, s, EnterTransport(w));
    t := Apply(cfg, s, EnterTransport(w));
    Reach(cfg, t, LeaveTransport(w, false));
    t := Apply(cfg, t, LeaveTransport(w, false));
    Reach(cfg, t, Report(w));
    t := Apply(cfg, t, Report(w));
  }

  /** Whatever the cooldown and the allow list, if any request is admitted at all then some run
      starts a transmission while the backoff window is open. */
  lemma WindowCanBeMissed(cfg: Config, r: Request) returns (s: State, j: nat)
    requires Admit(r, cfg.allow).Success?
    ensures Reachable(cfg, s) && j < |s.starts| && s.starts[j].known <= |s.outcomes| && InWindow(s, s.starts[j])
  {
    hide Admit, Reachable;
    InitReachable(cfg);
    s := Spawn(cfg, INIT, r);
    s := Spawn(cfg, s, r);
    s := Spawn(cfg, s, r);
    s := Spawn(cfg, s, r);
    s := Fail(cfg, s, 0);
    s := Fail(cfg, s, 1);
    s := Fail(cfg, s, 2);
    BackoffMonotone(3, 3);
    Reach(cfg, s, EnterTransport(3));
    s := Apply(cfg, s, EnterTransport(3));
    j := |s.starts| - 1;
    assert s.starts[j].known == |s.outcomes| && s.starts[j].at == s.now;
    assert s.outcomes[..|s.outcomes|] == s.outcomes;
    ReachableInv(cfg, s);
  }
}
