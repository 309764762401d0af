/**
 * Merchant authentication with one shared flight.
 *
 * A flight refreshes or logs in on behalf of every caller that joins it.  The code between two awaits runs without
 * interruption, so a run is a sequence of such pieces: a call, the arrival of a provider answer, the delivery of a
 * flight's result to one caller, or one caller's abort.
 */
module HesabeAuth {
  import opened Wrappers

  datatype Snapshot = Snapshot(accessToken: string, refreshToken: string, expiresAt: int)

  datatype AuthError = AuthenticationFailed | NetworkFailed | RateLimited

  datatype TriState = True | False | Neither

  /** A number as JavaScript has it, up to rounding. */
  datatype Number = Finite(value: real) | NotFinite

  /** The provider's envelope; token texts are trimmed, and an absent or non-text token is empty. */
  datatype Envelope = Envelope(
    status: TriState,
    bearer: bool,
    expiresIn: Option<Number>,
    accessToken: string,
    refreshToken: string)

  /** What came back for one authentication request; `None` for the envelope means the body is not JSON. */
  datatype Answer = NoResponse | Http(code: int, envelope: Option<Envelope>)

  datatype FlightResult = Issued(snapshot: Snapshot) | Failed(error: AuthError)

  /** A refresh sends the token it wants renewed, a login the merchant's credentials. */
  datatype PostKind = Refresh(token: string) | Login

  datatype Post = Post(kind: PostKind, outcome: Option<FlightResult>)

  /** One shared authentication: the requests it sent and, once settled, its result. */
  datatype Flight = Flight(posts: seq<Post>, result: Option<FlightResult>)

  datatype Source = Cached(at: int, snapshot: Snapshot) | Joined(flight: nat)

  datatype CallerState =
    | NotStarted
    | Waiting(flight: nat)
    | Got(token: string, source: Source)
    | GotError(error: AuthError, from: nat)
    | Aborted

  datatype State = State(
    snapshot: Option<Snapshot>,
    inFlight: Option<nat>,
    flights: seq<Flight>,
    callers: seq<CallerState>)

  datatype Step =
    | Call(c: nat, now: int, preAborted: bool)
    | Arrive(answer: Answer, at: int)
    | Deliver(c: nat)
    | Abort(c: nat)

  const EARLY_REFRESH_MS := 60_000

  function PowerOfTwo(n: nat): (r: real)
    ensures r >= 1.0
  {
    if n == 0 then 1.0 else 2.0 * PowerOfTwo(n - 1)
  }

  /**
   * From here on a double-precision result is infinite: 2^1024 - 2^970 (IEEE 754, rounding to nearest).  The exponent is
   * a variable so that the powers stay symbolic.
   */
  function Overflow(): real {
    var exponent: nat :| exponent == 1024;
    PowerOfTwo(exponent) - PowerOfTwo(exponent - 54)
  }

  predicate IsFresh(s: Snapshot, now: int) {
    now < s.expiresAt - EARLY_REFRESH_MS
  }

  /** The envelope grants both tokens for a positive lifetime that a double can add to the clock. */
  ghost predicate Grants(e: Envelope, now: int) {
    && e.status == True && e.bearer && e.accessToken != "" && e.refreshToken != ""
    && e.expiresIn.Some? && e.expiresIn.value.Finite?
    && var seconds := e.expiresIn.value.value;
      0.0 < seconds && 1000.0 * seconds < Overflow() && now as real + 1000.0 * seconds < Overflow()
  }

  /** The snapshot holds the envelope's own tokens until the lifetime, in whole milliseconds, is over. */
  ghost predicate TakenFrom(snapshot: Snapshot, e: Envelope, now: int)
    requires Grants(e, now)
  {
    && snapshot.accessToken == e.accessToken && snapshot.refreshToken == e.refreshToken
    && var milliseconds := 1000.0 * e.expiresIn.value.value;
      (snapshot.expiresAt - now) as real <= milliseconds < (snapshot.expiresAt - now + 1) as real
  }

  function ParseEnvelope(e: Envelope, now: int): (r: FlightResult)
    ensures r.Issued? <==> Grants(e, now)
    ensures r.Issued? ==> TakenFrom(r.snapshot, e, now)
    ensures r == Failed(AuthenticationFailed) <==> e.status == False
    ensures r != Failed(RateLimited)
  {
    if e.status.False? then Failed(AuthenticationFailed)
    else if !e.status.True? || !e.bearer || e.expiresIn.None? then Failed(NetworkFailed)
    else if e.expiresIn.value.NotFinite? || e.expiresIn.value.value <= 0.0 then Failed(NetworkFailed)
    else if e.accessToken == "" || e.refreshToken == "" then Failed(NetworkFailed)
    else
      var lifetime := e.expiresIn.value.value * 1000.0;
      if lifetime >= Overflow() || now as real + lifetime >= Overflow() then Failed(NetworkFailed)
      else Issued(Snapshot(e.accessToken, e.refreshToken, now + lifetime.Floor))
  }

  lemma {:induction false} PowersGrow(m: nat, n: nat)
    requires m <= n
    ensures PowerOfTwo(m) <= PowerOfTwo(n)
    decreases n
  {
    if m == n {
    } else {
      PowersGrow(m, n - 1);
    }
  }

  lemma OverflowIsFar(n: nat)
    requires n <= 1023
    ensures PowerOfTwo(n) <= Overflow()
  {
    PowersGrow(n, 1023);
    PowersGrow(970, 1023);
    assert PowerOfTwo(1024) == 2.0 * PowerOfTwo(1023);
  }

  /** Overflow is never met with a clock in milliseconds and lifetimes of up to a thousand million seconds. */
  lemma OrdinaryLifetimesAreGranted(e: Envelope, now: int)
    requires now <= 10_000_000_000_000
    requires e.expiresIn.Some? && e.expiresIn.value.Finite? && 0.0 < e.expiresIn.value.value <= 1_000_000_000.0
    ensures Grants(e, now) <==> e.status == True && e.bearer && e.accessToken != "" && e.refreshToken != ""
  {
    assert PowerOfTwo(15) == 32768.0;
    assert PowerOfTwo(30) == 1073741824.0;
    assert PowerOfTwo(44) == 17592186044416.0;
    OverflowIsFar(44);
  }

  /** The answer says outright that the credentials, or the refresh token, are not accepted. */
  ghost predicate Rejects(answer: Answer) {
    answer.Http? && (answer.code == 401 || answer.code == 403
      || (200 <= answer.code <= 299 && answer.envelope.Some? && answer.envelope.value.status == False))
  }

  /** The answer, read at `now`, issues this snapshot. */
  ghost predicate Issues(answer: Answer, now: int, snapshot: Snapshot) {
    && answer.Http? && 200 <= answer.code <= 299 && answer.envelope.Some?
    && Grants(answer.envelope.value, now) && TakenFrom(snapshot, answer.envelope.value, now)
  }

  /** An answer issues a token, rejects the credentials, limits the rate, or is trouble with the network. */
  ghost predicate Means(answer: Answer, now: int, r: FlightResult) {
    match r
    case Issued(snapshot) => Issues(answer, now, snapshot)
    case Failed(AuthenticationFailed) => Rejects(answer)
    case Failed(RateLimited) => answer.Http? && answer.code == 429
    case Failed(NetworkFailed) =>
      && !Rejects(answer) && !(answer.Http? && answer.code == 429)
      && !(answer.Http? && 200 <= answer.code <= 299 && answer.envelope.Some? && Grants(answer.envelope.value, now))
  }

  function PostAuth(answer: Answer, now: int): (r: FlightResult)
    ensures Means(answer, now, r)
  {
    match answer
    case NoResponse => Failed(NetworkFailed)
    case Http(code, envelope) =>
      if !(200 <= code <= 299) then
        if code == 429 then Failed(RateLimited)
        else if code == 401 || code == 403 then Failed(AuthenticationFailed)
        else Failed(NetworkFailed)
      else if envelope.None? then Failed(NetworkFailed)
      else ParseEnvelope(envelope.value, now)
  }

  // ---------------------------------------------------------------- steps

  function SetCaller(s: State, c: nat, state: CallerState): State
    requires c < |s.callers|
  {
    s.(callers := s.callers[c := state])
  }

  /** A new flight refreshes if it has a refresh token and logs in otherwise. */
  function NewFlight(snapshot: Option<Snapshot>): Flight {
    var refreshes := snapshot.Some? && snapshot.value.refreshToken != "";
    Flight([Post(if refreshes then Refresh(snapshot.value.refreshToken) else Login, None)], None)
  }

  function StartShared(s: State): State {
    if s.inFlight.Some? then s
    else s.(inFlight := Some(|s.flights|), flights := s.flights + [NewFlight(s.snapshot)])
  }

  function DoCall(s: State, c: nat, now: int, preAborted: bool): State
    requires c < |s.callers|
  {
    if preAborted then SetCaller(s, c, Aborted)
    else if s.snapshot.Some? && IsFresh(s.snapshot.value, now) then
      SetCaller(s, c, Got(s.snapshot.value.accessToken, Cached(now, s.snapshot.value)))
    else
      var s' := StartShared(s);
      if s'.inFlight.Some? then SetCaller(s', c, Waiting(s'.inFlight.value)) else s'
  }

  /** The answer to the flight's last request: fall back to a login, or settle. */
  function Advance(f: Flight, r: FlightResult): Flight
    requires f.posts != []
  {
    var last := |f.posts| - 1;
    var posts := f.posts[last := f.posts[last].(outcome := Some(r))];
    if f.posts[last].kind.Refresh? && r == Failed(AuthenticationFailed) then
      f.(posts := posts + [Post(Login, None)])
    else f.(posts := posts, result := Some(r))
  }

  function DoArrive(s: State, answer: Answer, at: int): State {
    if s.inFlight.None? || s.inFlight.value >= |s.flights| || s.flights[s.inFlight.value].posts == [] then s
    else
      var i := s.inFlight.value;
      var r := PostAuth(answer, at);
      var f := Advance(s.flights[i], r);
      var s' := s.(flights := s.flights[i := f]);
      if f.result.None? then s'
      else if r.Issued? then s'.(inFlight := None, snapshot := Some(r.snapshot))
      else s'.(inFlight := None)
  }

  function ResultFor(f: nat, r: FlightResult): CallerState {
    if r.Issued? then Got(r.snapshot.accessToken, Joined(f)) else GotError(r.error, f)
  }

  predicate Pending(s: State, c: nat) {
    c < |s.callers| && s.callers[c].Waiting? && s.callers[c].flight < |s.flights|
  }

  function Apply(s: State, step: Step): State {
    match step
    case Call(c, now, preAborted) =>
      if c < |s.callers| && s.callers[c].NotStarted? then DoCall(s, c, now, preAborted) else s
    case Arrive(answer, at) => DoArrive(s, answer, at)
    case Deliver(c) =>
      if Pending(s, c) && s.flights[s.callers[c].flight].result.Some? then
        SetCaller(s, c, ResultFor(s.callers[c].flight, s.flights[s.callers[c].flight].result.value))
      else s
    case Abort(c) =>
      if Pending(s, c) && s.flights[s.callers[c].flight].result.None? then SetCaller(s, c, Aborted) else s
  }

  // ---------------------------------------------------------------- invariant

  /** The life of a flight: one request, or a rejected refresh followed by a login; settled by its last answer. */
  ghost predicate FlightOk(f: Flight) {
    && 1 <= |f.posts| <= 2
    && (|f.posts| == 2 ==>
          && f.posts[0].kind.Refresh? && f.posts[0].outcome == Some(Failed(AuthenticationFailed))
          && f.posts[1].kind == Login)
    && f.result == f.posts[|f.posts| - 1].outcome
    && (f.posts[|f.posts| - 1].kind.Refresh? ==> f.result != Some(Failed(AuthenticationFailed)))
  }

  ghost predicate CallerOk(s: State, c: CallerState) {
    match c
    case Waiting(f) => f < |s.flights|
    case Got(token, Joined(f)) =>
      f < |s.flights| && s.flights[f].result.Some? && s.flights[f].result.value.Issued?
      && token == s.flights[f].result.value.snapshot.accessToken
    case Got(token, Cached(at, snapshot)) =>
      && token == snapshot.accessToken && snapshot.expiresAt - at > EARLY_REFRESH_MS
      && exists f :: 0 <= f < |s.flights| && s.flights[f].result == Some(Issued(snapshot))
    case GotError(error, f) => f < |s.flights| && s.flights[f].result == Some(Failed(error))
    case _ => true
  }

  ghost predicate Consistent(s: State) {
    && (forall i :: 0 <= i < |s.flights| ==> FlightOk(s.flights[i]))
    && (forall i :: 0 <= i < |s.flights| ==> (s.flights[i].result.None? <==> s.inFlight == Some(i)))
    && (s.inFlight.Some? ==> s.inFlight.value == |s.flights| - 1)
    && (forall c :: 0 <= c < |s.callers| ==> CallerOk(s, s.callers[c]))
    && (s.snapshot.Some? ==> exists f :: 0 <= f < |s.flights| && s.flights[f].result == Some(Issued(s.snapshot.value)))
  }

  function Initial(n: nat): State {
    State(None, None, [], seq(n, _ => NotStarted))
  }

  /** Flights are only added, and a settled one never changes. */
  ghost predicate Grows(s: State, t: State) {
    && |s.flights| <= |t.flights|
    && forall i :: 0 <= i < |s.flights| && s.flights[i].result.Some? ==> t.flights[i] == s.flights[i]
  }

  lemma CallersStayOk(s: State, t: State, c: CallerState)
    requires Grows(s, t) && CallerOk(s, c)
    ensures CallerOk(t, c)
  {
    if c.Got? && c.source.Cached? {
      var f :| 0 <= f < |s.flights| && s.flights[f].result == Some(Issued(c.source.snapshot));
      assert t.flights[f].result == Some(Issued(c.source.snapshot));
    }
  }

  lemma SnapshotStaysIssued(s: State, t: State)
    requires Grows(s, t) && Consistent(s) && t.snapshot == s.snapshot
    ensures t.snapshot.Some? ==>
      exists f :: 0 <= f < |t.flights| && t.flights[f].result == Some(Issued(t.snapshot.value))
  {
    if s.snapshot.Some? {
      var f :| 0 <= f < |s.flights| && s.flights[f].result == Some(Issued(s.snapshot.value));
      assert t.flights[f].result == Some(Issued(s.snapshot.value));
    }
  }

  lemma AdvanceOk(f: Flight, r: FlightResult)
    requires FlightOk(f) && f.result.None?
    ensures FlightOk(Advance(f, r))
    ensures Advance(f, r).result.Some? ==> Advance(f, r).result == Some(r)
  {
  }

  lemma FlightMovesOn(s: State, t: State, f: nat)
    requires Consistent(s) && s.inFlight == Some(f) && f < |s.flights| && |t.flights| == |s.flights|
    requires t.flights == s.flights[f := t.flights[f]] && t.callers == s.callers && FlightOk(t.flights[f])
    requires t.inFlight == if t.flights[f].result.None? then Some(f) else None
    requires t.snapshot == s.snapshot
      || (t.snapshot.Some? && t.flights[f].result == Some(Issued(t.snapshot.value)))
    ensures Consistent(t) && Grows(s, t)
  {
    forall c | 0 <= c < |s.callers| ensures CallerOk(t, t.callers[c]) {
      CallersStayOk(s, t, s.callers[c]);
    }
    if t.snapshot == s.snapshot {
      SnapshotStaysIssued(s, t);
    }
  }

  lemma ArriveKeepsConsistent(s: State, answer: Answer, at: int)
    requires Consistent(s)
    ensures var t := DoArrive(s, answer, at); Consistent(t) && Grows(s, t)
  {
    if s.inFlight.Some? {
      var f := s.inFlight.value;
      AdvanceOk(s.flights[f], PostAuth(answer, at));
      FlightMovesOn(s, DoArrive(s, answer, at), f);
    }
  }

  lemma CallKeepsConsistent(s: State, c: nat, now: int, preAborted: bool)
    requires Consistent(s) && c < |s.callers|
    ensures var t := DoCall(s, c, now, preAborted); Consistent(t) && Grows(s, t)
  {
    var t := DoCall(s, c, now, preAborted);
    SnapshotStaysIssued(s, t);
    forall d | 0 <= d < |t.callers| ensures CallerOk(t, t.callers[d]) {
      if d != c {
        CallersStayOk(s, t, s.callers[d]);
      }
    }
  }

  lemma EndOfWaitKeepsConsistent(s: State, t: State, c: nat, state: CallerState)
    requires Consistent(s) && c < |s.callers| && t == SetCaller(s, c, state) && CallerOk(s, state)
    ensures Consistent(t) && Grows(s, t)
  {
    forall d | 0 <= d < |t.callers| ensures CallerOk(t, t.callers[d]) {
      CallersStayOk(s, t, t.callers[d]);
    }
    SnapshotStaysIssued(s, t);
  }

  lemma DeliverKeepsConsistent(s: State, c: nat)
    requires Consistent(s)
    ensures var t := Apply(s, Deliver(c)); Consistent(t) && Grows(s, t)
  {
    if Pending(s, c) && s.flights[s.callers[c].flight].result.Some? {
      var f := s.callers[c].flight;
      EndOfWaitKeepsConsistent(s, Apply(s, Deliver(c)), c, ResultFor(f, s.flights[f].result.value));
    }
  }

  lemma AbortKeepsConsistent(s: State, c: nat)
    requires Consistent(s)
    ensures var t := Apply(s, Abort(c)); Consistent(t) && Grows(s, t)
  {
    if Pending(s, c) && s.flights[s.callers[c].flight].result.None? {
      EndOfWaitKeepsConsistent(s, Apply(s, Abort(c)), c, Aborted);
    }
  }

  lemma StepKeepsConsistent(s: State, step: Step)
    requires Consistent(s)
    ensures var t := Apply(s, step); Consistent(t) && Grows(s, t)
  {
    match step
    case Call(c, now, preAborted) =>
      if c < |s.callers| {
        CallKeepsConsistent(s, c, now, preAborted);
      }
    case Arrive(answer, at) => ArriveKeepsConsistent(s, answer, at);
    case Deliver(c) => DeliverKeepsConsistent(s, c);
    case Abort(c) => AbortKeepsConsistent(s, c);
  }

  // ---------------------------------------------------------------- runs

  /** The steps of a run and the states between them. */
  datatype Run = Run(steps: seq<Step>, states: seq<State>)

  predicate Shaped(run: Run) {
    |run.states| == |run.steps| + 1
  }

  predicate Stepped(run: Run, i: nat)
    requires Shaped(run) && i < |run.steps|
  {
    run.states[i + 1] == Apply(run.states[i], run.steps[i])
  }

  ghost predicate IsRun(run: Run) {
    && Shaped(run) && run.states[0] == Initial(|run.states[0].callers|)
    && forall i :: 0 <= i < |run.steps| ==> Stepped(run, i)
  }

  /** Any steps, with any number of callers, are the steps of a run. */
  lemma {:induction false} EveryStepSequenceRuns(n: nat, steps: seq<Step>) returns (run: Run)
    ensures IsRun(run) && run.steps == steps && run.states[0] == Initial(n)
  {
    if steps == [] {
      run := Run([], [Initial(n)]);
    } else {
      var last := |steps| - 1;
      var before := EveryStepSequenceRuns(n, steps[..last]);
      run := Run(steps, before.states + [Apply(before.states[last], steps[last])]);
      forall i | 0 <= i < |steps| ensures Stepped(run, i) {
        assert i < last ==> Stepped(before, i);
      }
    }
  }

  lemma {:induction false} RunsAreConsistent(run: Run, i: nat)
    requires IsRun(run) && i <= |run.steps|
    ensures Consistent(run.states[i])
  {
    if i == 0 {
    } else {
      var last := i - 1;
      assert Stepped(run, last);
      RunsAreConsistent(run, last);
      StepKeepsConsistent(run.states[last], run.steps[last]);
    }
  }

  /** At most one flight is unsettled at any time, and it is the one new callers join. */
  lemma AtMostOneFlight(run: Run, i: nat, f: nat, g: nat)
    requires IsRun(run) && i <= |run.steps|
    requires var s := run.states[i];
      f < |s.flights| && g < |s.flights| && s.flights[f].result.None? && s.flights[g].result.None?
    ensures f == g && run.states[i].inFlight == Some(f)
  {
    RunsAreConsistent(run, i);
  }

  /** A flight sends at most two requests, the second one a login after the refresh was rejected as such. */
  lemma FlightsSendAtMostTwoPosts(run: Run, i: nat, f: nat)
    requires IsRun(run) && i <= |run.steps| && f < |run.states[i].flights|
    ensures var posts := run.states[i].flights[f].posts;
      && 1 <= |posts| <= 2
      && (|posts| == 2 ==>
            && posts[0].kind.Refresh? && posts[0].outcome == Some(Failed(AuthenticationFailed))
            && posts[1].kind == Login)
  {
    RunsAreConsistent(run, i);
    assert FlightOk(run.states[i].flights[f]);
  }

  ghost predicate SettledAs(s: State, f: nat, flight: Flight) {
    f < |s.flights| && s.flights[f] == flight && flight.result.Some?
  }

  lemma StepKeepsSettled(s: State, step: Step, t: State, f: nat, flight: Flight)
    requires Consistent(s) && SettledAs(s, f, flight) && t == Apply(s, step)
    ensures SettledAs(t, f, flight)
  {
    StepKeepsConsistent(s, step);
  }

  /** A settled flight never changes again, so all who joined it see one result. */
  lemma {:induction false} SettledFlightsStand(run: Run, i: nat, j: nat, f: nat, flight: Flight)
    requires IsRun(run) && i <= j <= |run.steps| && SettledAs(run.states[i], f, flight)
    ensures SettledAs(run.states[j], f, flight)
    decreases j
  {
    if i == j {
    } else {
      var last := j - 1;
      SettledFlightsStand(run, i, last, f, flight);
      RunsAreConsistent(run, last);
      assert Stepped(run, last);
      StepKeepsSettled(run.states[last], run.steps[last], run.states[j], f, flight);
    }
  }

  /** The caller has what flight `f` ended with: the issued access token, or the error. */
  ghost predicate Told(state: CallerState, f: nat, r: FlightResult) {
    match r
    case Issued(snapshot) => state == Got(snapshot.accessToken, Joined(f))
    case Failed(error) => state == GotError(error, f)
  }

  /** A caller that has begun moves only while it waits: by its own abort, or by getting its settled flight's result. */
  lemma CallerMoves(s: State, step: Step, c: nat)
    requires c < |s.callers| && !s.callers[c].NotStarted?
    ensures var t := Apply(s, step);
      && |t.callers| == |s.callers|
      && (t.callers[c] == s.callers[c]
          || (s.callers[c].Waiting? && step == Abort(c) && t.callers[c] == Aborted)
          || (step == Deliver(c) && Pending(s, c) && s.flights[s.callers[c].flight].result.Some?
              && Told(t.callers[c], s.callers[c].flight, s.flights[s.callers[c].flight].result.value)))
  {
  }

  /** Caller `c` joined flight `f` and is still waiting, has aborted, or has that flight's own result. */
  ghost predicate JoinedTo(s: State, c: nat, f: nat) {
    && c < |s.callers| && f < |s.flights|
    && (s.callers[c] == Waiting(f) || s.callers[c] == Aborted
        || (s.flights[f].result.Some? && Told(s.callers[c], f, s.flights[f].result.value)))
  }

  lemma StepKeepsJoined(s: State, step: Step, t: State, c: nat, f: nat)
    requires Consistent(s) && t == Apply(s, step) && JoinedTo(s, c, f)
    ensures JoinedTo(t, c, f)
  {
    StepKeepsConsistent(s, step);
    CallerMoves(s, step, c);
  }

  lemma {:induction false} JoinedStaysJoined(run: Run, i: nat, j: nat, c: nat, f: nat)
    requires IsRun(run) && i <= j <= |run.steps| && JoinedTo(run.states[i], c, f)
    ensures JoinedTo(run.states[j], c, f)
    decreases j
  {
    if i == j {
    } else {
      var last := j - 1;
      JoinedStaysJoined(run, i, last, c, f);
      RunsAreConsistent(run, last);
      assert Stepped(run, last);
      StepKeepsJoined(run.states[last], run.steps[last], run.states[j], c, f);
    }
  }

  lemma WaitingIsJoined(s: State, c: nat, f: nat)
    requires Consistent(s) && c < |s.callers| && s.callers[c] == Waiting(f)
    ensures JoinedTo(s, c, f)
  {
    assert CallerOk(s, s.callers[c]);
  }

  /** A caller that joined a flight only ever gets that flight's own token or error, unless it aborts. */
  lemma JoinersGetTheirFlightsResult(run: Run, i: nat, j: nat, c: nat, f: nat)
    requires IsRun(run) && i <= j <= |run.steps|
    requires c < |run.states[i].callers| && run.states[i].callers[c] == Waiting(f)
    ensures JoinedTo(run.states[j], c, f)
  {
    RunsAreConsistent(run, i);
    WaitingIsJoined(run.states[i], c, f);
    JoinedStaysJoined(run, i, j, c, f);
  }

  ghost predicate Unaborted(s: State, c: nat) {
    c < |s.callers| && !s.callers[c].NotStarted? && s.callers[c] != Aborted
  }

  lemma {:induction false} StaysUnaborted(run: Run, i: nat, j: nat, c: nat)
    requires IsRun(run) && i <= j <= |run.steps| && Unaborted(run.states[i], c)
    requires forall m :: i <= m < j ==> run.steps[m] != Abort(c)
    ensures Unaborted(run.states[j], c)
    decreases j
  {
    if i == j {
    } else {
      var last := j - 1;
      StaysUnaborted(run, i, last, c);
      assert Stepped(run, last);
      CallerMoves(run.states[last], run.steps[last], c);
    }
  }

  /** A waiting caller ends aborted only if it was that caller's own signal that fired. */
  lemma OnlyOnesOwnAbortCounts(run: Run, i: nat, j: nat, c: nat)
    requires IsRun(run) && i <= j <= |run.steps| && c < |run.states[i].callers| && run.states[i].callers[c].Waiting?
    requires forall m :: i <= m < j ==> run.steps[m] != Abort(c)
    ensures c < |run.states[j].callers| && run.states[j].callers[c] != Aborted
  {
    StaysUnaborted(run, i, j, c);
  }

  /** The flight is settled, and the caller that joined it has its result or has aborted. */
  ghost predicate Served(s: State, c: nat, f: nat, flight: Flight) {
    && SettledAs(s, f, flight) && c < |s.callers|
    && (s.callers[c] == Aborted || Told(s.callers[c], f, flight.result.value))
  }

  ghost predicate HasResult(s: State, c: nat, f: nat, flight: Flight) {
    flight.result.Some? && c < |s.callers| && Told(s.callers[c], f, flight.result.value)
  }

  lemma ServedUnlessAborted(s: State, c: nat, f: nat, flight: Flight)
    requires Served(s, c, f, flight) && s.callers[c] != Aborted
    ensures HasResult(s, c, f, flight)
  {
  }

  lemma DeliveryServes(s: State, c: nat, f: nat, flight: Flight)
    requires JoinedTo(s, c, f) && SettledAs(s, f, flight)
    ensures Served(Apply(s, Deliver(c)), c, f, flight)
  {
  }

  lemma StepKeepsServed(s: State, step: Step, t: State, c: nat, f: nat, flight: Flight)
    requires Consistent(s) && Served(s, c, f, flight) && t == Apply(s, step)
    ensures Served(t, c, f, flight)
  {
    StepKeepsSettled(s, step, t, f, flight);
    CallerMoves(s, step, c);
  }

  lemma {:induction false} ServedStaysServed(run: Run, i: nat, j: nat, c: nat, f: nat, flight: Flight)
    requires IsRun(run) && i <= j <= |run.steps| && Served(run.states[i], c, f, flight)
    ensures Served(run.states[j], c, f, flight)
    decreases j
  {
    if i == j {
    } else {
      var last := j - 1;
      ServedStaysServed(run, i, last, c, f, flight);
      RunsAreConsistent(run, last);
      assert Stepped(run, last);
      StepKeepsServed(run.states[last], run.steps[last], run.states[j], c, f, flight);
    }
  }

  lemma DeliveryEndsTheWait(run: Run, i: nat, k: nat, next: nat, c: nat, f: nat, flight: Flight)
    requires IsRun(run) && i <= k < |run.steps| && run.steps[k] == Deliver(c) && next == k + 1
    requires c < |run.states[i].callers| && run.states[i].callers[c] == Waiting(f)
    requires SettledAs(run.states[k], f, flight)
    ensures Served(run.states[next], c, f, flight)
  {
    assert Stepped(run, k);
    JoinersGetTheirFlightsResult(run, i, k, c, f);
    DeliveryServes(run.states[k], c, f, flight);
  }

  /**
   * Once its flight has settled, a delivery ends a joiner's wait for good, and unless the joiner's own signal fired it
   * ends with the flight's result.
   */
  lemma ServedJoinersHaveTheResult(run: Run, i: nat, k: nat, j: nat, c: nat, f: nat, flight: Flight)
    requires IsRun(run) && i <= k < j <= |run.steps| && run.steps[k] == Deliver(c)
    requires c < |run.states[i].callers| && run.states[i].callers[c] == Waiting(f)
    requires SettledAs(run.states[k], f, flight)
    ensures Served(run.states[j], c, f, flight)
    ensures (forall m :: i <= m < j ==> run.steps[m] != Abort(c)) ==> HasResult(run.states[j], c, f, flight)
  {
    var next := k + 1;
    DeliveryEndsTheWait(run, i, k, next, c, f, flight);
    ServedStaysServed(run, next, j, c, f, flight);
    if forall m :: i <= m < j ==> run.steps[m] != Abort(c) {
      OnlyOnesOwnAbortCounts(run, i, j, c);
      ServedUnlessAborted(run.states[j], c, f, flight);
    }
  }

  /** The two states differ at most in what became of one caller, which has begun in both. */
  ghost predicate SameForOthers(s: State, t: State, c: nat) {
    && t.snapshot == s.snapshot && t.inFlight == s.inFlight && t.flights == s.flights && |t.callers| == |s.callers|
    && (forall d :: 0 <= d < |s.callers| && d != c ==> t.callers[d] == s.callers[d])
    && (c < |s.callers| && t.callers[c] != s.callers[c] ==> !s.callers[c].NotStarted? && !t.callers[c].NotStarted?)
  }

  lemma CallKeepsSameForOthers(s: State, t: State, d: nat, now: int, preAborted: bool, c: nat)
    requires SameForOthers(s, t, c) && d < |s.callers| && s.callers[d].NotStarted? && t.callers[d].NotStarted?
    ensures SameForOthers(DoCall(s, d, now, preAborted), DoCall(t, d, now, preAborted), c)
  {
    assert t.callers[d] == s.callers[d];
  }

  lemma ArriveKeepsSameForOthers(s: State, t: State, answer: Answer, at: int, c: nat)
    requires SameForOthers(s, t, c)
    ensures SameForOthers(DoArrive(s, answer, at), DoArrive(t, answer, at), c)
  {
  }

  lemma OtherWaitsKeepSameForOthers(s: State, t: State, step: Step, c: nat)
    requires SameForOthers(s, t, c) && (step.Deliver? || step.Abort?) && step.c != c
    ensures SameForOthers(Apply(s, step), Apply(t, step), c)
  {
    if step.c < |s.callers| {
      assert t.callers[step.c] == s.callers[step.c];
    }
  }

  lemma StepKeepsSameForOthers(s: State, t: State, step: Step, c: nat)
    requires SameForOthers(s, t, c)
    ensures SameForOthers(Apply(s, step), Apply(t, step), c)
  {
    if step.Call? {
      if step.c < |s.callers| && s.callers[step.c].NotStarted? {
        assert t.callers[step.c].NotStarted?;
        CallKeepsSameForOthers(s, t, step.c, step.now, step.preAborted, c);
      }
    } else if step.Arrive? {
      ArriveKeepsSameForOthers(s, t, step.answer, step.at, c);
    } else if step.c == c {
      EndOfWaitIsOnesOwn(s, step);
      EndOfWaitIsOnesOwn(t, step);
    } else {
      OtherWaitsKeepSameForOthers(s, t, step, c);
    }
  }

  lemma EndOfWaitIsOnesOwn(s: State, step: Step)
    requires step.Deliver? || step.Abort?
    ensures SameForOthers(s, Apply(s, step), step.c)
  {
  }

  lemma SameNext(s: State, t: State, step: Step, s': State, t': State, c: nat)
    requires SameForOthers(s, t, c) && s' == Apply(s, step) && t' == Apply(t, step)
    ensures SameForOthers(s', t', c)
  {
    StepKeepsSameForOthers(s, t, step, c);
  }

  lemma AbortedStep(s: State, t: State, c: nat)
    requires t == Apply(s, Abort(c))
    ensures SameForOthers(t, s, c)
  {
  }

  /**
   * An abort concerns nobody else: leave it out of the run, and every flight, the cached token and every other caller
   * end up the same.
   */
  lemma {:induction false} AbortTouchesNobodyElse(run: Run, without: Run, i: nat, j: nat, c: nat)
    requires IsRun(run) && IsRun(without) && without.states[0] == run.states[0]
    requires i < j <= |run.steps| && run.steps[i] == Abort(c)
    requires without.steps == run.steps[..i] + run.steps[i + 1..]
    ensures SameForOthers(run.states[j], without.states[j - 1], c)
    decreases j
  {
    var before := j - 1;
    assert Stepped(run, before);
    if before == i {
      SamePrefix(run, without, i);
      AbortedStep(run.states[i], run.states[j], c);
    } else {
      var earlier := before - 1;
      AbortTouchesNobodyElse(run, without, i, before, c);
      assert Stepped(without, earlier) && without.steps[earlier] == run.steps[before];
      SameNext(
        run.states[before], without.states[earlier], run.steps[before], run.states[j], without.states[before], c);
    }
  }

  lemma {:induction false} SamePrefix(a: Run, b: Run, i: nat)
    requires IsRun(a) && IsRun(b) && a.states[0] == b.states[0]
    requires i <= |a.steps| && i <= |b.steps| && a.steps[..i] == b.steps[..i]
    ensures a.states[i] == b.states[i]
  {
    if i == 0 {
    } else {
      var last := i - 1;
      assert Stepped(a, last) && Stepped(b, last);
      assert a.steps[..last] == a.steps[..i][..last] && b.steps[..last] == b.steps[..i][..last];
      assert a.steps[last] == a.steps[..i][last];
      SamePrefix(a, b, last);
    }
  }

  /** A token handed out without a flight was issued by one and had more than a minute left. */
  lemma CachedTokensAreFresh(run: Run, i: nat, c: nat)
    requires IsRun(run) && i <= |run.steps| && c < |run.states[i].callers|
    requires var state := run.states[i].callers[c]; state.Got? && state.source.Cached?
    ensures var s := run.states[i];
      var Cached(at, snapshot) := s.callers[c].source;
      && s.callers[c].token == snapshot.accessToken && snapshot.expiresAt - at > 60_000
      && exists f :: 0 <= f < |s.flights| && s.flights[f].result == Some(Issued(snapshot))
  {
    RunsAreConsistent(run, i);
    assert CallerOk(run.states[i], run.states[i].callers[c]);
  }

  // ---------------------------------------------------------------- what each event does

  /** The first request of a flight that starts while `latest` is the last token issued. */
  ghost predicate Opens(f: Flight, latest: Option<Snapshot>) {
    match latest
    case None => f == Flight([Post(Login, None)], None)
    case Some(snapshot) =>
      f == Flight([Post(if snapshot.refreshToken == "" then Login else Refresh(snapshot.refreshToken), None)], None)
  }

  /** A call is turned away, is answered from the cache, or joins the flight under way, starting it if there is none. */
  lemma CallsAreAnsweredExactly(s: State, c: nat, now: int, preAborted: bool)
    requires Consistent(s) && c < |s.callers| && s.callers[c] == NotStarted
    ensures var t := Apply(s, Call(c, now, preAborted));
      && t.snapshot == s.snapshot && |t.callers| == |s.callers|
      && (forall d :: 0 <= d < |s.callers| && d != c ==> t.callers[d] == s.callers[d])
      && (preAborted ==> t.callers[c] == Aborted)
      && (!preAborted && s.snapshot.Some? && now < s.snapshot.value.expiresAt - 60_000 ==>
            t.callers[c] == Got(s.snapshot.value.accessToken, Cached(now, s.snapshot.value)))
      && (!preAborted && (s.snapshot.None? || s.snapshot.value.expiresAt - 60_000 <= now) ==>
            t.inFlight.Some? && t.callers[c] == Waiting(t.inFlight.value))
      && (t.callers[c].Waiting? && s.inFlight.None? ==>
            |t.flights| == |s.flights| + 1 && s.flights <= t.flights && Opens(t.flights[|s.flights|], s.snapshot))
      && (!t.callers[c].Waiting? || s.inFlight.Some? ==> t.flights == s.flights && t.inFlight == s.inFlight)
  {
  }

  /** A rejected refresh is followed by a login; any other answer ends the flight with what it means. */
  ghost predicate FlightTakes(f: Flight, answer: Answer, at: int, g: Flight)
    requires f.posts != []
  {
    var last := |f.posts| - 1;
    && |f.posts| <= |g.posts| && g.posts[..last] == f.posts[..last] && g.posts[last].kind == f.posts[last].kind
    && g.posts[last].outcome.Some? && Means(answer, at, g.posts[last].outcome.value)
    && if f.posts[last].kind.Refresh? && Rejects(answer) then
      g.posts[|f.posts|..] == [Post(Login, None)] && g.result.None?
    else
      |g.posts| == |f.posts| && g.result == g.posts[last].outcome
  }

  lemma AdvanceTakes(f: Flight, answer: Answer, at: int)
    requires f.posts != [] && f.result.None?
    ensures FlightTakes(f, answer, at, Advance(f, PostAuth(answer, at)))
  {
  }

  /** The flight under way takes the answer; once it has ended there is none, and what it was issued is cached. */
  lemma AnswersAreTakenExactly(s: State, answer: Answer, at: int)
    requires Consistent(s) && s.inFlight.Some?
    ensures
      var t, f := Apply(s, Arrive(answer, at)), s.inFlight.value;
      && t.callers == s.callers && |t.flights| == |s.flights| && FlightTakes(s.flights[f], answer, at, t.flights[f])
      && (forall g :: 0 <= g < |s.flights| && g != f ==> t.flights[g] == s.flights[g])
      && (t.flights[f].result.None? ==> t.inFlight == s.inFlight && t.snapshot == s.snapshot)
      && (t.flights[f].result.Some? ==>
            && t.inFlight.None?
            && match t.flights[f].result.value
               case Issued(snapshot) => t.snapshot == Some(snapshot)
               case Failed(_) => t.snapshot == s.snapshot)
  {
    assert FlightOk(s.flights[s.inFlight.value]);
    AdvanceTakes(s.flights[s.inFlight.value], answer, at);
  }

  /** One's own abort ends a wait exactly while the flight is under way; a delivery ends it exactly afterwards. */
  lemma WaitsEndExactly(s: State, c: nat, f: nat)
    requires Consistent(s) && c < |s.callers| && s.callers[c] == Waiting(f)
    ensures f < |s.flights|
    ensures s.flights[f].result.None? ==>
      Apply(s, Abort(c)) == s.(callers := s.callers[c := Aborted]) && Apply(s, Deliver(c)) == s
    ensures s.flights[f].result.Some? ==>
      && Apply(s, Abort(c)) == s
      && var t := Apply(s, Deliver(c));
        |t.callers| == |s.callers| && t == s.(callers := s.callers[c := t.callers[c]])
        && Told(t.callers[c], f, s.flights[f].result.value)
  {
    assert CallerOk(s, s.callers[c]);
  }

  // ---------------------------------------------------------------- where tokens and errors come from

  lemma SettledByItsAnswer(s: State, step: Step, t: State, f: nat)
    requires Consistent(s) && t == Apply(s, step)
    requires f < |t.flights| && t.flights[f].result.Some? && (f < |s.flights| ==> s.flights[f].result.None?)
    ensures step.Arrive? && s.inFlight == Some(f) && Means(step.answer, step.at, t.flights[f].result.value)
  {
    if step.Arrive? && s.inFlight.Some? {
      AdvanceOk(s.flights[s.inFlight.value], PostAuth(step.answer, step.at));
    }
  }

  /** A flight ends with what the answer means that arrived last for it, while it was the flight under way. */
  lemma {:induction false} FlightsEndAsAnswered(run: Run, i: nat, f: nat, r: FlightResult)
    returns (k: nat)
    requires IsRun(run) && i <= |run.steps| && f < |run.states[i].flights| && run.states[i].flights[f].result == Some(r)
    ensures k < i && run.steps[k].Arrive? && Means(run.steps[k].answer, run.steps[k].at, r)
    ensures run.states[k].inFlight == Some(f)
  {
    if i == 0 {
      assert false;
    } else {
      var last := i - 1;
      assert Stepped(run, last);
      RunsAreConsistent(run, last);
      var s := run.states[last];
      if f < |s.flights| && s.flights[f].result.Some? {
        StepKeepsSettled(s, run.steps[last], run.states[i], f, s.flights[f]);
        k := FlightsEndAsAnswered(run, last, f, r);
      } else {
        SettledByItsAnswer(s, run.steps[last], run.states[i], f);
        k := last;
      }
    }
  }

  /** The step brings a successful envelope that grants this access token. */
  ghost predicate Brings(step: Step, token: string) {
    && step.Arrive? && step.answer.Http? && 200 <= step.answer.code <= 299 && step.answer.envelope.Some?
    && Grants(step.answer.envelope.value, step.at) && token == step.answer.envelope.value.accessToken
  }

  ghost predicate FailsWith(step: Step, error: AuthError) {
    step.Arrive? && Means(step.answer, step.at, Failed(error))
  }

  /** What a caller gets was answered before: its token was granted by an envelope, its error was meant by an answer. */
  lemma CallersGetWhatWasAnswered(run: Run, i: nat, c: nat)
    requires IsRun(run) && i <= |run.steps| && c < |run.states[i].callers|
    ensures var state := run.states[i].callers[c];
      && (state.Got? ==> exists k :: 0 <= k < i && Brings(run.steps[k], state.token))
      && (state.GotError? ==> exists k :: 0 <= k < i && FailsWith(run.steps[k], state.error))
  {
    RunsAreConsistent(run, i);
    var s := run.states[i];
    var state := s.callers[c];
    assert CallerOk(s, state);
    match state
    case Got(token, Cached(at, snapshot)) =>
      var f :| 0 <= f < |s.flights| && s.flights[f].result == Some(Issued(snapshot));
      var k := FlightsEndAsAnswered(run, i, f, Issued(snapshot));
      assert Brings(run.steps[k], token);
    case Got(token, Joined(f)) =>
      var k := FlightsEndAsAnswered(run, i, f, s.flights[f].result.value);
      assert Brings(run.steps[k], token);
    case GotError(error, f) =>
      var k := FlightsEndAsAnswered(run, i, f, Failed(error));
      assert FailsWith(run.steps[k], error);
    case _ =>
  }

  // ---------------------------------------------------------------- which token is refreshed

  /** What the last of these flights to be issued anything was issued. */
  ghost function LatestIssued(flights: seq<Flight>): Option<Snapshot> {
    if flights == [] then None
    else
      var last := |flights| - 1;
      if flights[last].result.Some? && flights[last].result.value.Issued? then
        Some(flights[last].result.value.snapshot)
      else LatestIssued(flights[..last])
  }

  ghost predicate StartsRight(flights: seq<Flight>, f: nat)
    requires f < |flights| && flights[f].posts != []
  {
    match LatestIssued(flights[..f])
    case None => flights[f].posts[0].kind == Login
    case Some(snapshot) => flights[f].posts[0].kind == Refresh(snapshot.refreshToken)
  }

  ghost predicate Chained(s: State) {
    && s.snapshot == LatestIssued(s.flights)
    && (s.snapshot.Some? ==> s.snapshot.value.refreshToken != "")
    && forall f :: 0 <= f < |s.flights| ==> s.flights[f].posts != [] && StartsRight(s.flights, f)
  }

  lemma CallKeepsChained(s: State, c: nat, now: int, preAborted: bool, t: State)
    requires Consistent(s) && Chained(s) && c < |s.callers| && s.callers[c].NotStarted?
    requires t == Apply(s, Call(c, now, preAborted))
    ensures Chained(t)
  {
    CallsAreAnsweredExactly(s, c, now, preAborted);
    if t.flights != s.flights {
      assert t.flights[..|s.flights|] == s.flights;
      forall f | 0 <= f < |t.flights| ensures t.flights[f].posts != [] && StartsRight(t.flights, f) {
        assert t.flights[..f] == s.flights[..f];
      }
    }
  }

  lemma SameStarts(flights: seq<Flight>, more: seq<Flight>, f: nat)
    requires f < |flights| && f < |more| && flights[..f] == more[..f]
    requires flights[f].posts != [] && more[f].posts != [] && more[f].posts[0].kind == flights[f].posts[0].kind
    requires StartsRight(flights, f)
    ensures StartsRight(more, f)
  {
  }

  lemma LatestOfLonger(flights: seq<Flight>, last: nat, earlier: seq<Flight>)
    requires last + 1 == |flights| && earlier == flights[..last]
    ensures LatestIssued(flights) ==
      if flights[last].result.Some? && flights[last].result.value.Issued? then
        Some(flights[last].result.value.snapshot)
      else LatestIssued(earlier)
  {
  }

  /** An answer concerns the last flight only, and a token it brings can be refreshed. */
  lemma ArriveConcernsTheLast(s: State, answer: Answer, at: int, t: State, last: nat)
    requires Consistent(s) && s.inFlight.Some? && t == Apply(s, Arrive(answer, at)) && last + 1 == |s.flights|
    ensures |t.flights| == |s.flights| && t.flights[..last] == s.flights[..last]
    ensures t.flights[last].posts != [] && s.flights[last].posts != []
    ensures t.flights[last].posts[0].kind == s.flights[last].posts[0].kind && s.flights[last].result.None?
    ensures
      match t.flights[last].result
      case Some(Issued(snapshot)) => t.snapshot == Some(snapshot) && snapshot.refreshToken != ""
      case _ => t.snapshot == s.snapshot
  {
    AnswersAreTakenExactly(s, answer, at);
  }

  lemma ArriveKeepsChained(s: State, answer: Answer, at: int, t: State)
    requires Consistent(s) && Chained(s) && s.inFlight.Some? && t == Apply(s, Arrive(answer, at))
    ensures Chained(t)
  {
    var last := |s.flights| - 1;
    ArriveConcernsTheLast(s, answer, at, t, last);
    SameFlightsButTheLast(s, t, last);
  }

  lemma SameFlightsButTheLast(s: State, t: State, last: nat)
    requires Chained(s) && last + 1 == |s.flights| == |t.flights| && t.flights[..last] == s.flights[..last]
    requires t.flights[last].posts != [] && t.flights[last].posts[0].kind == s.flights[last].posts[0].kind
    requires s.flights[last].result.None?
    requires
      match t.flights[last].result
      case Some(Issued(snapshot)) => t.snapshot == Some(snapshot) && snapshot.refreshToken != ""
      case _ => t.snapshot == s.snapshot
    ensures Chained(t)
  {
    LatestOfLonger(s.flights, last, s.flights[..last]);
    LatestOfLonger(t.flights, last, s.flights[..last]);
    forall f | 0 <= f < |t.flights| ensures t.flights[f].posts != [] && StartsRight(t.flights, f) {
      assert t.flights[..f] == s.flights[..last][..f] == s.flights[..f];
      if f < last {
        assert t.flights[f] == t.flights[..last][f] == s.flights[f];
      }
      SameStarts(s.flights, t.flights, f);
    }
  }

  lemma StepKeepsChained(s: State, step: Step, t: State)
    requires Consistent(s) && Chained(s) && t == Apply(s, step)
    ensures Chained(t)
  {
    if step.Call? && step.c < |s.callers| && s.callers[step.c].NotStarted? {
      CallKeepsChained(s, step.c, step.now, step.preAborted, t);
    } else if step.Arrive? && s.inFlight.Some? {
      ArriveKeepsChained(s, step.answer, step.at, t);
    } else {
      assert t.flights == s.flights && t.snapshot == s.snapshot;
    }
  }

  /** The cache holds what was issued last, and a flight refreshes exactly that token, or logs in if there is none. */
  lemma {:induction false} FlightsRefreshTheLatestToken(run: Run, i: nat)
    requires IsRun(run) && i <= |run.steps|
    ensures Chained(run.states[i])
  {
    if i == 0 {
    } else {
      var last := i - 1;
      assert Stepped(run, last);
      FlightsRefreshTheLatestToken(run, last);
      RunsAreConsistent(run, last);
      StepKeepsChained(run.states[last], run.steps[last], run.states[i]);
    }
  }

  // ---------------------------------------------------------------- the object

  /** What an answer leaves behind, field by field. */
  lemma ArriveIs(s: State, answer: Answer, at: int, i: nat, r: FlightResult, answered: seq<Post>)
    requires Consistent(s) && s.inFlight == Some(i) && i < |s.flights| && r == PostAuth(answer, at)
    requires var posts := s.flights[i].posts;
      posts != [] && answered == posts[|posts| - 1 := posts[|posts| - 1].(outcome := Some(r))]
    ensures Consistent(DoArrive(s, answer, at))
    ensures DoArrive(s, answer, at) ==
      if answered[|answered| - 1].kind.Refresh? && r == Failed(AuthenticationFailed) then
        s.(flights := s.flights[i := s.flights[i].(posts := answered + [Post(Login, None)])])
      else
        s.(flights := s.flights[i := s.flights[i].(posts := answered, result := Some(r))],
           snapshot := if r.Issued? then Some(r.snapshot) else s.snapshot, inFlight := None)
  {
    ArriveKeepsConsistent(s, answer, at);
  }

  /** The authenticator; `flights` and `callers` stand for the promises it and its callers hold. */
  class Authenticator {
    var snapshot: Option<Snapshot>
    var inFlight: Option<nat>
    var flights: seq<Flight>
    var callers: seq<CallerState>

    ghost function Current(): State
      reads this
    {
      State(snapshot, inFlight, flights, callers)
    }

    constructor (n: nat)
      ensures Current() == Initial(n)
    {
      snapshot, inFlight, flights, callers := None, None, [], seq(n, _ => NotStarted);
    }

    method StartSharedAuth()
      modifies this`inFlight, this`flights
      ensures Current() == StartShared(old(Current())) && inFlight.Some?
    {
      if inFlight.None? {
        inFlight := Some(|flights|);
        flights := flights + [NewFlight(snapshot)];
      }
    }

    method GetAccessToken(c: nat, now: int, preAborted: bool)
      requires c < |callers| && callers[c].NotStarted?
      modifies this
      ensures Current() == Apply(old(Current()), Call(c, now, preAborted))
    {
      if preAborted {
        callers := callers[c := Aborted];
        return;
      }
      if snapshot.Some? && IsFresh(snapshot.value, now) {
        callers := callers[c := Got(snapshot.value.accessToken, Cached(now, snapshot.value))];
        return;
      }
      StartSharedAuth();
      callers := callers[c := Waiting(inFlight.value)];
    }

    /** The pending request of the shared flight was answered. */
    method AnswerArrives(answer: Answer, at: int)
      requires Consistent(Current()) && inFlight.Some?
      modifies this
      ensures Current() == Apply(old(Current()), Arrive(answer, at)) && Consistent(Current())
    {
      var i := inFlight.value;
      assert FlightOk(flights[i]);
      var posts := flights[i].posts;
      var last := |posts| - 1;
      var r := PostAuth(answer, at);
      var answered := posts[last := posts[last].(outcome := Some(r))];
      ArriveIs(Current(), answer, at, i, r, answered);
      if posts[last].kind.Refresh? && r == Failed(AuthenticationFailed) {
        flights := flights[i := flights[i].(posts := answered + [Post(Login, None)])];
        return;
      }
      flights := flights[i := flights[i].(posts := answered, result := Some(r))];
      if r.Issued? {
        snapshot := Some(r.snapshot);
      }
      inFlight := None;
    }
  }
}
