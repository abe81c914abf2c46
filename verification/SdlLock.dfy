/**
  The SDL resource lock: a key that is set if absent, with a random token as its value and a time
  to live.  Any number of clients take their steps in any order; a step is one backend command.
 */
module SdlLock {
  import opened Options
  import opened SdlStore

  /** A key on the backend that serves its namespace. */
  type Place = (nat, string)

  datatype Config = Config(hash: string -> nat, backends: nat)

  function PlaceOf(cfg: Config, ns: string, resource: string): Place
    requires cfg.backends > 0
  {
    (Home(cfg.hash, cfg.backends, ns), Prefix(ns) + resource)
  }

  /** What a backend holds at a place; without a deadline it never expires. */
  datatype Entry = Entry(token: nat, deadline: Option<nat>)

  /**
    One call of LockResource and what became of it.  `allowed` is the number of attempts the call may
    make; a call that holds has handed a lock object to its caller, who may keep it for ever.
   */
  datatype Call =
    | Trying(resource: string, at: Place, token: nat, life: nat, tried: nat, allowed: nat)
    | Holding(resource: string, at: Place, token: nat, tried: nat, allowed: nat)
    | Ended(token: nat, tried: nat, allowed: nat)

  datatype State = State(now: nat, store: map<Place, Entry>, calls: map<nat, Call>)

  const IDLE := State(0, map[], map[])

  /** getRetryCount() + 1. */
  function Attempts(retryCount: int): (n: nat)
    ensures n >= 1
  {
    if retryCount > 0 then retryCount + 1 else 1
  }

  datatype Step =
    /** LockResource is called: a token is drawn. */
    | Begin(call: nat, ns: string, resource: string, life: nat, retryCount: int, token: nat)
    /** One round of its loop. */
    | Attempt(call: nat)
    /** A round in which the client sees an error, whether or not the backend did as it was told. */
    | AttemptLost(call: nat, applied: bool)
    | Release(call: nat, ns: string)
    | ReleaseLost(call: nat, ns: string, applied: bool)
    /** A new time to live, in nanoseconds. */
    | Refresh(call: nat, ns: string, duration: int)
    /** Time passes. */
    | Tick(to: nat)

  const MILLISECOND := 1_000_000

  /** Go's division of a duration truncates towards zero. */
  function Milliseconds(duration: int): int {
    if duration >= 0 then duration / MILLISECOND else -(-duration / MILLISECOND)
  }

  ghost predicate Fresh(s: State, token: nat) {
    && (forall c :: c in s.calls ==> s.calls[c].token != token)
    && (forall p :: p in s.store ==> s.store[p].token != token)
  }

  ghost predicate Enabled(cfg: Config, s: State, step: Step) {
    match step
    case Begin(c, _, _, _, _, token) => c !in s.calls && Fresh(s, token)
    case Attempt(c) => c in s.calls && s.calls[c].Trying?
    case AttemptLost(c, _) => c in s.calls && s.calls[c].Trying?
    case Release(c, _) => c in s.calls && s.calls[c].Holding?
    case ReleaseLost(c, _, _) => c in s.calls && s.calls[c].Holding?
    case Refresh(c, _, _) => c in s.calls && s.calls[c].Holding?
    case Tick(to) => to >= s.now
  }

  function Deadline(now: nat, life: nat): Option<nat> {
    if life == 0 then None else Some(now + life)
  }

  /** Whether the backend holds this token at a place. */
  predicate Has(s: State, p: Place, token: nat) {
    p in s.store && s.store[p].token == token
  }

  /** SetNX with a time to live. */
  function SetIfAbsent(s: State, c: Call): map<Place, Entry>
    requires c.Trying?
  {
    if c.at in s.store then s.store else s.store[c.at := Entry(c.token, Deadline(s.now, c.life))]
  }

  /** DelIE. */
  function DeleteIfEqual(s: State, p: Place, token: nat): map<Place, Entry> {
    if Has(s, p, token) then s.store - {p} else s.store
  }

  /** The script behind PExpireIE: a time to live that is not positive deletes the key. */
  function ExpireIfEqual(s: State, p: Place, token: nat, ms: int): map<Place, Entry> {
    if !Has(s, p, token) then s.store
    else if ms <= 0 then s.store - {p}
    else s.store[p := Entry(token, Some(s.now + ms))]
  }

  /** A round of the loop that found the resource locked. */
  function Again(c: Call): Call
    requires c.Trying?
  {
    if c.tried + 1 < c.allowed then Trying(c.resource, c.at, c.token, c.life, c.tried + 1, c.allowed)
    else Ended(c.token, c.tried + 1, c.allowed)
  }

  function Next(cfg: Config, s: State, step: Step): State
    requires cfg.backends > 0 && Enabled(cfg, s, step)
  {
    match step
    case Begin(c, ns, resource, life, retryCount, token) =>
      s.(calls := s.calls[c := Trying(resource, PlaceOf(cfg, ns, resource), token, life, 0, Attempts(retryCount))])
    case Attempt(c) =>
      var call := s.calls[c];
      if call.at in s.store then s.(calls := s.calls[c := Again(call)])
      else s.(store := SetIfAbsent(s, call),
              calls := s.calls[c := Holding(call.resource, call.at, call.token, call.tried + 1, call.allowed)])
    case AttemptLost(c, applied) =>
      var call := s.calls[c];
      s.(store := if applied then SetIfAbsent(s, call) else s.store,
         calls := s.calls[c := Ended(call.token, call.tried + 1, call.allowed)])
    case Release(c, ns) =>
      var call := s.calls[c];
      s.(store := DeleteIfEqual(s, PlaceOf(cfg, ns, call.resource), call.token))
    case ReleaseLost(c, ns, applied) =>
      var call := s.calls[c];
      if applied then s.(store := DeleteIfEqual(s, PlaceOf(cfg, ns, call.resource), call.token)) else s
    case Refresh(c, ns, duration) =>
      var call := s.calls[c];
      s.(store := ExpireIfEqual(s, PlaceOf(cfg, ns, call.resource), call.token, Milliseconds(duration)))
    case Tick(to) =>
      State(to, map p | p in s.store && !Past(s.store[p], to) :: s.store[p], s.calls)
  }

  predicate Past(e: Entry, now: nat) {
    e.deadline.Some? && e.deadline.value <= now
  }

  /** Whether a release or refresh reports success: the others say the lock is not held. */
  predicate Succeeds(cfg: Config, s: State, step: Step)
    requires cfg.backends > 0 && (step.Release? || step.Refresh?)
  {
    && step.call in s.calls && s.calls[step.call].Holding?
    && Has(s, PlaceOf(cfg, step.ns, s.calls[step.call].resource), s.calls[step.call].token)
  }

  /** A lock object whose lock is still in place. */
  predicate Live(s: State, c: nat) {
    c in s.calls && s.calls[c].Holding? && Has(s, s.calls[c].at, s.calls[c].token)
  }

  // ---- What every step keeps ----

  ghost predicate Inv(s: State) {
    && (forall c, d :: c in s.calls && d in s.calls && c != d ==> s.calls[c].token != s.calls[d].token)
    && (forall c, p :: c in s.calls && p in s.store && s.store[p].token == s.calls[c].token ==>
          !s.calls[c].Trying? && (s.calls[c].Holding? ==> s.calls[c].at == p))
    && (forall c :: c in s.calls ==> s.calls[c].tried <= s.calls[c].allowed)
    && (forall c :: c in s.calls && s.calls[c].Trying? ==> s.calls[c].tried < s.calls[c].allowed)
    && (forall p :: p in s.store ==> !Past(s.store[p], s.now))
  }

  lemma {:induction false} IdleInv()
    ensures Inv(IDLE)
  {
  }

  /** Removing entries, or changing only their deadlines, keeps what the invariant says of tokens. */
  ghost predicate Fewer(old': map<Place, Entry>, new': map<Place, Entry>) {
    forall p :: p in new' ==> p in old' && new'[p].token == old'[p].token
  }

  lemma {:induction false} FewerKeeps(s: State, t: State)
    requires Inv(s) && Fewer(s.store, t.store) && t.calls == s.calls
    requires forall p :: p in t.store ==> !Past(t.store[p], t.now)
    ensures Inv(t)
  {
  }

  lemma {:induction false} BeginKeeps(cfg: Config, s: State, step: Step)
    requires cfg.backends > 0 && Inv(s) && Enabled(cfg, s, step) && step.Begin?
    ensures Inv(Next(cfg, s, step))
  {
    hide PlaceOf;
  }

  lemma {:induction false} AttemptKeeps(cfg: Config, s: State, step: Step)
    requires cfg.backends > 0 && Inv(s) && Enabled(cfg, s, step) && step.Attempt?
    ensures Inv(Next(cfg, s, step))
  {
    hide Past;
    assert !Past(Entry(s.calls[step.call].token, Deadline(s.now, s.calls[step.call].life)), s.now) by {
      NotYetPast(s.calls[step.call].token, s.now, s.calls[step.call].life);
    }
  }

  lemma {:induction false} LostKeeps(cfg: Config, s: State, step: Step)
    requires cfg.backends > 0 && Inv(s) && Enabled(cfg, s, step) && step.AttemptLost?
    ensures Inv(Next(cfg, s, step))
  {
    hide Past;
    assert !Past(Entry(s.calls[step.call].token, Deadline(s.now, s.calls[step.call].life)), s.now) by {
      NotYetPast(s.calls[step.call].token, s.now, s.calls[step.call].life);
    }
  }

  lemma {:induction false} NotYetPast(token: nat, now: nat, life: nat)
    ensures !Past(Entry(token, Deadline(now, life)), now)
  {
  }

  lemma {:induction false} StepKeeps(cfg: Config, s: State, step: Step)
    requires cfg.backends > 0 && Inv(s) && Enabled(cfg, s, step)
    ensures Inv(Next(cfg, s, step))
  {
    hide Inv, PlaceOf;
    var t := Next(cfg, s, step);
    match step
    case Begin(_, _, _, _, _, _) => BeginKeeps(cfg, s, step);
    case Attempt(_) => AttemptKeeps(cfg, s, step);
    case AttemptLost(_, _) => LostKeeps(cfg, s, step);
    case _ => OthersKeep(cfg, s, step);
  }

  lemma {:induction false} OthersKeep(cfg: Config, s: State, step: Step)
    requires cfg.backends > 0 && Inv(s) && Enabled(cfg, s, step)
    requires step.Release? || step.ReleaseLost? || step.Refresh? || step.Tick?
    ensures Inv(Next(cfg, s, step))
  {
    hide PlaceOf, Milliseconds;
    FewerKeeps(s, Next(cfg, s, step));
  }

  /** At most one live lock object for a place. */
  lemma {:induction false} AtMostOne(s: State, c: nat, d: nat)
    requires Inv(s) && Live(s, c) && Live(s, d) && s.calls[c].at == s.calls[d].at
    ensures c == d
  {
  }

  /** A lock object that is not live has no effect: its release and refresh fail and change nothing. */
  lemma {:induction false} StaleHarmless(cfg: Config, s: State, step: Step)
    requires cfg.backends > 0 && Inv(s) && Enabled(cfg, s, step)
    requires (step.Release? || step.ReleaseLost? || step.Refresh?) && !Live(s, step.call)
    ensures Next(cfg, s, step) == s
    ensures !step.ReleaseLost? ==> !Succeeds(cfg, s, step)
  {
    hide PlaceOf, Milliseconds;
  }

  /** Nor has a live one on any place but its own: a wrong namespace is reported and changes nothing. */
  lemma {:induction false} WrongNamespaceHarmless(cfg: Config, s: State, step: Step)
    requires cfg.backends > 0 && Inv(s) && Enabled(cfg, s, step)
    requires (step.Release? || step.ReleaseLost? || step.Refresh?)
    requires PlaceOf(cfg, step.ns, s.calls[step.call].resource) != s.calls[step.call].at
    ensures Next(cfg, s, step) == s
    ensures !step.ReleaseLost? ==> !Succeeds(cfg, s, step)
  {
    hide PlaceOf, Milliseconds;
  }

  /** A step by which a live lock object may lose its lock: its own, or the passing of its deadline. */
  predicate MayEnd(s: State, d: nat, step: Step)
    requires d in s.calls && s.calls[d].Holding? && s.calls[d].at in s.store
  {
    || (step.Release? && step.call == d)
    || (step.ReleaseLost? && step.call == d && step.applied)
    || (step.Refresh? && step.call == d && Milliseconds(step.duration) <= 0)
    || (step.Tick? && Past(s.store[s.calls[d].at], step.to))
  }

  /** No step of another client ends or alters a live lock. */
  lemma {:induction false} OnlyOwnerOrTime(cfg: Config, s: State, d: nat, step: Step)
    requires cfg.backends > 0 && Inv(s) && Enabled(cfg, s, step) && Live(s, d)
    ensures !MayEnd(s, d, step) ==> Live(Next(cfg, s, step), d)
    ensures !MayEnd(s, d, step) && !(step.Refresh? && step.call == d) ==>
              Next(cfg, s, step).store[s.calls[d].at] == s.store[s.calls[d].at]
  {
    hide PlaceOf, Milliseconds;
  }

  /** Once a lock object is not live it never is again: tokens are not reused. */
  lemma {:induction false} StaleStays(cfg: Config, s: State, c: nat, step: Step)
    requires cfg.backends > 0 && Inv(s) && Enabled(cfg, s, step)
    requires c in s.calls && s.calls[c].Holding? && !Live(s, c)
    ensures var t := Next(cfg, s, step); c in t.calls && t.calls[c] == s.calls[c] && !Live(t, c)
  {
    hide PlaceOf, Milliseconds;
  }

  /**
    A refresh of the right place succeeds exactly for a live lock object, and keeps it alive exactly
    from one millisecond up.
   */
  lemma {:induction false} RefreshLives(cfg: Config, s: State, step: Step)
    requires cfg.backends > 0 && Inv(s) && Enabled(cfg, s, step) && step.Refresh?
    requires PlaceOf(cfg, step.ns, s.calls[step.call].resource) == s.calls[step.call].at
    ensures Succeeds(cfg, s, step) <==> Live(s, step.call)
    ensures Live(Next(cfg, s, step), step.call) <==> Live(s, step.call) && step.duration >= 1_000_000
  {
    hide PlaceOf;
    assert Milliseconds(step.duration) <= 0 <==> step.duration < MILLISECOND;
  }

  /** A lock is taken, refreshed for a little less than a millisecond with success, and gone. */
  lemma {:induction false} RefreshExample(cfg: Config)
    requires cfg.backends > 0
    ensures var begin, attempt, refresh := Begin(0, "n", "r", 0, 0, 7), Attempt(0), Refresh(0, "n", 999_999);
            && Enabled(cfg, IDLE, begin)
            && var s1 := Next(cfg, IDLE, begin);
            && Enabled(cfg, s1, attempt)
            && var s2 := Next(cfg, s1, attempt);
            && Live(s2, 0) && Enabled(cfg, s2, refresh) && Succeeds(cfg, s2, refresh)
            && !Live(Next(cfg, s2, refresh), 0)
  {
    hide PlaceOf;
  }

  // ---- Runs ----

  ghost predicate CanRun(cfg: Config, s: State, steps: seq<Step>)
    requires cfg.backends > 0
    decreases |steps|
  {
    steps == [] || (Enabled(cfg, s, steps[0]) && CanRun(cfg, Next(cfg, s, steps[0]), steps[1..]))
  }

  ghost function After(cfg: Config, s: State, steps: seq<Step>): State
    requires cfg.backends > 0 && CanRun(cfg, s, steps)
    decreases |steps|
  {
    if steps == [] then s else After(cfg, Next(cfg, s, steps[0]), steps[1..])
  }

  lemma {:induction false} RunKeeps(cfg: Config, s: State, steps: seq<Step>)
    requires cfg.backends > 0 && Inv(s) && CanRun(cfg, s, steps)
    ensures Inv(After(cfg, s, steps))
    decreases |steps|
  {
    hide Inv, Next, Enabled;
    if steps != [] {
      StepKeeps(cfg, s, steps[0]);
      RunKeeps(cfg, Next(cfg, s, steps[0]), steps[1..]);
    }
  }

  /** Mutual exclusion: after every run, at most one live lock object for a place. */
  lemma {:induction false} Exclusive(cfg: Config, steps: seq<Step>, c: nat, d: nat)
    requires cfg.backends > 0 && CanRun(cfg, IDLE, steps)
    requires var s := After(cfg, IDLE, steps); Live(s, c) && Live(s, d) && s.calls[c].at == s.calls[d].at
    ensures c == d
  {
    hide Inv, Next, Enabled;
    IdleInv();
    RunKeeps(cfg, IDLE, steps);
    AtMostOne(After(cfg, IDLE, steps), c, d);
  }

  lemma {:induction false} AllowanceKept(cfg: Config, s: State, c: nat, steps: seq<Step>)
    requires cfg.backends > 0 && CanRun(cfg, s, steps) && c in s.calls
    ensures c in After(cfg, s, steps).calls && After(cfg, s, steps).calls[c].allowed == s.calls[c].allowed
    decreases |steps|
  {
    if steps != [] {
      AllowanceKept(cfg, Next(cfg, s, steps[0]), c, steps[1..]);
    }
  }

  /** A call makes at most one attempt more than the retries it was given, after every run. */
  lemma {:induction false} AttemptsBounded(cfg: Config, s: State, begin: Step, steps: seq<Step>)
    requires cfg.backends > 0 && Inv(s) && begin.Begin? && Enabled(cfg, s, begin)
    requires CanRun(cfg, Next(cfg, s, begin), steps)
    ensures var t := After(cfg, Next(cfg, s, begin), steps);
            && begin.call in t.calls
            && t.calls[begin.call].tried <= 1 + if begin.retryCount > 0 then begin.retryCount else 0
  {
    hide PlaceOf;
    var s' := Next(cfg, s, begin);
    StepKeeps(cfg, s, begin);
    RunKeeps(cfg, s', steps);
    AllowanceKept(cfg, s', begin.call, steps);
  }

  /** Over every run, a lock object that has lost its lock never has it again. */
  lemma {:induction false} StaleForEver(cfg: Config, s: State, c: nat, steps: seq<Step>)
    requires cfg.backends > 0 && Inv(s) && CanRun(cfg, s, steps)
    requires c in s.calls && s.calls[c].Holding? && !Live(s, c)
    ensures !Live(After(cfg, s, steps), c)
    decreases |steps|
  {
    hide Inv, Next, Enabled, Live;
    if steps != [] {
      StepKeeps(cfg, s, steps[0]);
      StaleStays(cfg, s, c, steps[0]);
      StaleForEver(cfg, Next(cfg, s, steps[0]), c, steps[1..]);
    }
  }

  /** Whether some step of a run may have ended the lock of `d`. */
  ghost predicate EndsIn(cfg: Config, s: State, d: nat, steps: seq<Step>)
    requires cfg.backends > 0 && CanRun(cfg, s, steps)
    decreases |steps|
  {
    steps != [] && ((Live(s, d) && MayEnd(s, d, steps[0])) || EndsIn(cfg, Next(cfg, s, steps[0]), d, steps[1..]))
  }

  /**
    A lock passes from one object to another only after the first was released or refreshed away by its own
    holder, or outlived its time.
   */
  lemma {:induction false} HandOver(cfg: Config, s: State, c: nat, d: nat, steps: seq<Step>)
    requires cfg.backends > 0 && Inv(s) && CanRun(cfg, s, steps) && Live(s, c) && c != d
    requires var t := After(cfg, s, steps); Live(t, d) && t.calls[d].at == s.calls[c].at
    ensures EndsIn(cfg, s, c, steps)
    decreases |steps|
  {
    hide Inv, Next, Enabled, Live, MayEnd;
    if steps == [] {
      AtMostOne(s, c, d);
    } else {
      StepKeeps(cfg, s, steps[0]);
      assert c in s.calls && s.calls[c].Holding? && s.calls[c].at in s.store by { LiveMeans(s, c); }
      if !MayEnd(s, c, steps[0]) {
        OnlyOwnerOrTime(cfg, s, c, steps[0]);
        SamePlace(cfg, s, c, steps[0]);
        HandOver(cfg, Next(cfg, s, steps[0]), c, d, steps[1..]);
      }
    }
  }

  /** Over every run a lock object stays live until a step that may end its lock. */
  lemma {:induction false} HolderKeeps(cfg: Config, s: State, d: nat, steps: seq<Step>)
    requires cfg.backends > 0 && Inv(s) && CanRun(cfg, s, steps) && Live(s, d) && !EndsIn(cfg, s, d, steps)
    ensures Live(After(cfg, s, steps), d)
    decreases |steps|
  {
    hide Inv, Next, Enabled, Live, MayEnd;
    if steps != [] {
      assert d in s.calls && s.calls[d].Holding? && s.calls[d].at in s.store by { LiveMeans(s, d); }
      StepKeeps(cfg, s, steps[0]);
      OnlyOwnerOrTime(cfg, s, d, steps[0]);
      HolderKeeps(cfg, Next(cfg, s, steps[0]), d, steps[1..]);
    }
  }

  /** A step that neither is the holder's own nor takes time to a deadline. */
  predicate Harmless(d: nat, deadline: Option<nat>, step: Step) {
    match step
    case Release(c, _) => c != d
    case ReleaseLost(c, _, _) => c != d
    case Refresh(c, _, _) => c != d
    case Tick(to) => deadline.None? || to < deadline.value
    case _ => true
  }

  /**
    Before its deadline, whatever any number of other clients do in whatever order, the lock is
    exactly as its holder left it.
   */
  lemma {:induction false} UntilDeadline(cfg: Config, s: State, d: nat, steps: seq<Step>)
    requires cfg.backends > 0 && Inv(s) && CanRun(cfg, s, steps) && Live(s, d)
    requires forall i :: 0 <= i < |steps| ==> Harmless(d, s.store[s.calls[d].at].deadline, steps[i])
    ensures var t := After(cfg, s, steps);
            Live(t, d) && t.calls[d] == s.calls[d] && t.store[t.calls[d].at] == s.store[s.calls[d].at]
    decreases |steps|
  {
    hide Inv, Next, Enabled, Harmless;
    if steps != [] {
      var t := Next(cfg, s, steps[0]);
      HarmlessStep(s, d, steps[0]);
      StepKeeps(cfg, s, steps[0]);
      OnlyOwnerOrTime(cfg, s, d, steps[0]);
      SamePlace(cfg, s, d, steps[0]);
      UntilDeadline(cfg, t, d, steps[1..]);
    }
  }

  lemma {:induction false} HarmlessStep(s: State, d: nat, step: Step)
    requires Live(s, d) && Harmless(d, s.store[s.calls[d].at].deadline, step)
    ensures !MayEnd(s, d, step) && !(step.Refresh? && step.call == d)
  {
  }

  lemma {:induction false} LiveMeans(s: State, c: nat)
    requires Live(s, c)
    ensures c in s.calls && s.calls[c].Holding? && s.calls[c].at in s.store
  {
  }

  lemma {:induction false} SamePlace(cfg: Config, s: State, c: nat, step: Step)
    requires cfg.backends > 0 && Enabled(cfg, s, step) && c in s.calls && s.calls[c].Holding?
    ensures c in Next(cfg, s, step).calls && Next(cfg, s, step).calls[c] == s.calls[c]
  {
    hide PlaceOf, Milliseconds;
  }

  // ---- How long a lock lasts ----

  /** A step of the holder itself. */
  predicate Own(d: nat, step: Step) {
    (step.Release? || step.ReleaseLost? || step.Refresh?) && step.call == d
  }

  /** Left alone by its holder, a lock lasts exactly until its deadline, whatever all the others do. */
  lemma {:induction false} LastsExactly(cfg: Config, s: State, d: nat, steps: seq<Step>)
    requires cfg.backends > 0 && Inv(s) && CanRun(cfg, s, steps) && Live(s, d)
    requires forall i :: 0 <= i < |steps| ==> !Own(d, steps[i])
    ensures var t, deadline := After(cfg, s, steps), s.store[s.calls[d].at].deadline;
            Live(t, d) <==> deadline.None? || t.now < deadline.value
    decreases |steps|
  {
    hide Inv, Next, Enabled, Own;
    if steps == [] {
      NotOver(s, d);
    } else {
      var t := Next(cfg, s, steps[0]);
      StepKeeps(cfg, s, steps[0]);
      OwnStep(s, d, steps[0]);
      SamePlace(cfg, s, d, steps[0]);
      TimePasses(cfg, s, steps[0]);
      if MayEnd(s, d, steps[0]) {
        GoneInTime(cfg, s, d, steps[0]);
        StaleForEver(cfg, t, d, steps[1..]);
        NeverBack(cfg, t, steps[1..]);
      } else {
        OnlyOwnerOrTime(cfg, s, d, steps[0]);
        LastsExactly(cfg, t, d, steps[1..]);
      }
    }
  }

  lemma {:induction false} NotOver(s: State, d: nat)
    requires Inv(s) && Live(s, d)
    ensures !Past(s.store[s.calls[d].at], s.now)
  {
  }

  lemma {:induction false} OwnStep(s: State, d: nat, step: Step)
    requires Live(s, d) && !Own(d, step)
    ensures MayEnd(s, d, step) ==> step.Tick? && Past(s.store[s.calls[d].at], step.to)
    ensures !(step.Refresh? && step.call == d)
  {
  }

  lemma {:induction false} GoneInTime(cfg: Config, s: State, d: nat, step: Step)
    requires cfg.backends > 0 && Enabled(cfg, s, step) && Live(s, d)
    requires step.Tick? && Past(s.store[s.calls[d].at], step.to)
    ensures var t := Next(cfg, s, step);
            t.now == step.to && d in t.calls && t.calls[d] == s.calls[d] && t.calls[d].at !in t.store
  {
  }

  lemma {:induction false} TimePasses(cfg: Config, s: State, step: Step)
    requires cfg.backends > 0 && Enabled(cfg, s, step)
    ensures s.now <= Next(cfg, s, step).now
  {
  }

  lemma {:induction false} NeverBack(cfg: Config, s: State, steps: seq<Step>)
    requires cfg.backends > 0 && CanRun(cfg, s, steps)
    ensures s.now <= After(cfg, s, steps).now
    decreases |steps|
  {
    hide Next, Enabled;
    if steps != [] {
      TimePasses(cfg, s, steps[0]);
      NeverBack(cfg, Next(cfg, s, steps[0]), steps[1..]);
    }
  }

  /** A call that still tries tries for what it was made for. */
  lemma {:induction false} TriesForTheSame(cfg: Config, s: State, c: nat, steps: seq<Step>)
    requires cfg.backends > 0 && CanRun(cfg, s, steps) && c in s.calls
    requires c in After(cfg, s, steps).calls && After(cfg, s, steps).calls[c].Trying?
    ensures s.calls[c].Trying?
    ensures var a, b := s.calls[c], After(cfg, s, steps).calls[c];
            a.resource == b.resource && a.at == b.at && a.token == b.token && a.life == b.life
    decreases |steps|
  {
    hide PlaceOf, Milliseconds;
    if steps != [] {
      TriesForTheSame(cfg, Next(cfg, s, steps[0]), c, steps[1..]);
    }
  }

  /**
    LockResource from its call to the end of its lock: an attempt on a free resource takes it under the token of
    the call, at the resource's key in the namespace, on the backend the namespace hashes to; and if the holder
    does nothing, the lock is there exactly until `life` has passed, or for ever when `life` is 0.
   */
  lemma {:induction false} TakenForItsLife(cfg: Config, s: State, begin: Step, waiting: seq<Step>, after: seq<Step>)
    requires cfg.backends > 0 && Inv(s) && begin.Begin? && Enabled(cfg, s, begin)
    requires CanRun(cfg, Next(cfg, s, begin), waiting)
    requires var t := After(cfg, Next(cfg, s, begin), waiting);
             && begin.call in t.calls && t.calls[begin.call].Trying?
             && (cfg.hash(begin.ns) % cfg.backends, "{" + begin.ns + "}," + begin.resource) !in t.store
             && CanRun(cfg, Next(cfg, t, Attempt(begin.call)), after)
    requires forall i :: 0 <= i < |after| ==> !Own(begin.call, after[i])
    ensures var t := After(cfg, Next(cfg, s, begin), waiting);
            var held := Next(cfg, t, Attempt(begin.call));
            var end := After(cfg, held, after);
            && Live(held, begin.call) && held.calls[begin.call].resource == begin.resource
            && held.store.Keys
               == t.store.Keys + {(cfg.hash(begin.ns) % cfg.backends, "{" + begin.ns + "}," + begin.resource)}
            && held.store[held.calls[begin.call].at].token == begin.token
            && (Live(end, begin.call) <==> begin.life == 0 || end.now < t.now + begin.life)
  {
    var s1 := Next(cfg, s, begin);
    var t := After(cfg, s1, waiting);
    StepKeeps(cfg, s, begin);
    RunKeeps(cfg, s1, waiting);
    TriesForTheSame(cfg, s1, begin.call, waiting);
    StepKeeps(cfg, t, Attempt(begin.call));
    LastsExactly(cfg, Next(cfg, t, Attempt(begin.call)), begin.call, after);
  }

  /** A lock that no lock object was handed out for. */
  ghost predicate Orphan(s: State, c: nat, p: Place) {
    c in s.calls && s.calls[c].Ended? && Has(s, p, s.calls[c].token)
  }

  lemma {:induction false} OrphanStep(cfg: Config, s: State, c: nat, p: Place, step: Step)
    requires cfg.backends > 0 && Inv(s) && Enabled(cfg, s, step) && Orphan(s, c, p)
    ensures var t := Next(cfg, s, step);
            if step.Tick? && Past(s.store[p], step.to) then t.now == step.to && Gone(t, c, p)
            else Orphan(t, c, p) && t.store[p] == s.store[p]
  {
    hide PlaceOf, Milliseconds;
  }

  /** The place is not locked under the token of this call, which has ended. */
  ghost predicate Gone(s: State, c: nat, p: Place) {
    c in s.calls && s.calls[c].Ended? && !Has(s, p, s.calls[c].token)
  }

  lemma {:induction false} GoneStays(cfg: Config, s: State, c: nat, p: Place, steps: seq<Step>)
    requires cfg.backends > 0 && Inv(s) && CanRun(cfg, s, steps) && Gone(s, c, p)
    ensures Gone(After(cfg, s, steps), c, p)
    decreases |steps|
  {
    hide Inv, Next, Enabled, Gone;
    if steps != [] {
      StepKeeps(cfg, s, steps[0]);
      GoneStep(cfg, s, c, p, steps[0]);
      GoneStays(cfg, Next(cfg, s, steps[0]), c, p, steps[1..]);
    }
  }

  lemma {:induction false} GoneStep(cfg: Config, s: State, c: nat, p: Place, step: Step)
    requires cfg.backends > 0 && Inv(s) && Enabled(cfg, s, step) && Gone(s, c, p)
    ensures Gone(Next(cfg, s, step), c, p)
  {
    hide PlaceOf, Milliseconds;
  }

  /** Such a lock stays until its deadline, whatever anybody does. */
  lemma {:induction false} OrphanLasts(cfg: Config, s: State, c: nat, p: Place, steps: seq<Step>)
    requires cfg.backends > 0 && Inv(s) && CanRun(cfg, s, steps) && Orphan(s, c, p)
    ensures var t, deadline := After(cfg, s, steps), s.store[p].deadline;
            Orphan(t, c, p) <==> deadline.None? || t.now < deadline.value
    decreases |steps|
  {
    hide Inv, Next, Enabled;
    if steps == [] {
      assert !Past(s.store[p], s.now) by { PresentNotPast(s, p); }
    } else {
      var t := Next(cfg, s, steps[0]);
      StepKeeps(cfg, s, steps[0]);
      OrphanStep(cfg, s, c, p, steps[0]);
      if steps[0].Tick? && Past(s.store[p], steps[0].to) {
        GoneStays(cfg, t, c, p, steps[1..]);
        NeverBack(cfg, t, steps[1..]);
      } else {
        OrphanLasts(cfg, t, c, p, steps[1..]);
      }
    }
  }

  lemma {:induction false} PresentNotPast(s: State, p: Place)
    requires Inv(s) && p in s.store
    ensures !Past(s.store[p], s.now)
  {
  }

  /**
    An attempt that the backend carried out but the client saw fail: the resource stays locked until the
    life of that lock has passed, for ever when it is 0, and there is no lock object to release it with.
   */
  lemma {:induction false} LostLockStays(cfg: Config, s: State, c: nat, steps: seq<Step>)
    requires cfg.backends > 0 && Inv(s) && Enabled(cfg, s, AttemptLost(c, true)) && s.calls[c].at !in s.store
    requires CanRun(cfg, Next(cfg, s, AttemptLost(c, true)), steps)
    ensures var end, call := After(cfg, Next(cfg, s, AttemptLost(c, true)), steps), s.calls[c];
            && Has(end, call.at, call.token) <==> call.life == 0 || end.now < s.now + call.life
  {
    var t := Next(cfg, s, AttemptLost(c, true));
    StepKeeps(cfg, s, AttemptLost(c, true));
    OrphanLasts(cfg, t, c, s.calls[c].at, steps);
    EndedKept(cfg, t, c, steps);
  }

  lemma {:induction false} EndedKept(cfg: Config, s: State, c: nat, steps: seq<Step>)
    requires cfg.backends > 0 && CanRun(cfg, s, steps) && c in s.calls && s.calls[c].Ended?
    ensures c in After(cfg, s, steps).calls && After(cfg, s, steps).calls[c] == s.calls[c]
    decreases |steps|
  {
    hide PlaceOf, Milliseconds;
    if steps != [] {
      EndedKept(cfg, Next(cfg, s, steps[0]), c, steps[1..]);
    }
  }

  /** An attempt on a resource that is locked takes nothing, and the call goes on as long as attempts are left. */
  lemma {:induction false} BusyAttempt(cfg: Config, s: State, c: nat)
    requires cfg.backends > 0 && Inv(s) && Enabled(cfg, s, Attempt(c)) && s.calls[c].at in s.store
    ensures var t := Next(cfg, s, Attempt(c));
            && t.store == s.store && t.now == s.now && c in t.calls && !t.calls[c].Holding?
            && t.calls[c].tried == s.calls[c].tried + 1
            && (t.calls[c].Trying? <==> t.calls[c].tried < s.calls[c].allowed)
            && forall d :: d in s.calls && d != c ==> d in t.calls && t.calls[d] == s.calls[d]
  {
  }

  /** A release by the holder frees the resource and nothing else. */
  lemma {:induction false} ReleaseFrees(cfg: Config, s: State, c: nat, ns: string)
    requires cfg.backends > 0 && Inv(s) && Live(s, c)
    requires s.calls[c].at == (cfg.hash(ns) % cfg.backends, "{" + ns + "}," + s.calls[c].resource)
    ensures Enabled(cfg, s, Release(c, ns)) && Succeeds(cfg, s, Release(c, ns))
    ensures var t := Next(cfg, s, Release(c, ns));
            && t.store.Keys == s.store.Keys - {s.calls[c].at} && t.now == s.now && t.calls == s.calls
            && forall p :: p in t.store ==> t.store[p] == s.store[p]
  {
  }

  /**
    A refresh by the holder, from one millisecond up: the lock then lasts exactly that many milliseconds from
    now, whatever it had left.
   */
  lemma {:induction false} RefreshedFor(cfg: Config, s: State, c: nat, ns: string, ms: nat, extra: nat,
                                        after: seq<Step>)
    requires cfg.backends > 0 && Inv(s) && Live(s, c) && ms > 0 && extra < 1_000_000
    requires s.calls[c].at == (cfg.hash(ns) % cfg.backends, "{" + ns + "}," + s.calls[c].resource)
    requires Enabled(cfg, s, Refresh(c, ns, 1_000_000 * ms + extra))
    requires CanRun(cfg, Next(cfg, s, Refresh(c, ns, 1_000_000 * ms + extra)), after)
    requires forall i :: 0 <= i < |after| ==> !Own(c, after[i])
    ensures var end := After(cfg, Next(cfg, s, Refresh(c, ns, 1_000_000 * ms + extra)), after);
            Live(end, c) <==> end.now < s.now + ms
  {
    var step := Refresh(c, ns, 1_000_000 * ms + extra);
    assert Milliseconds(step.duration) == ms;
    StepKeeps(cfg, s, step);
    LastsExactly(cfg, Next(cfg, s, step), c, after);
  }

  // ---- The loop of LockResource ----

  /** What the backend answers to one SetNX. */
  datatype Answer = Locked | Busy | Error

  datatype Outcome = Obtained | NotObtained | Broken

  /** The attempt that decides: the first whose answer is not "busy". */
  ghost predicate Decides(answers: seq<Answer>, i: nat, answer: Answer) {
    i < |answers| && answers[i] == answer && forall j :: 0 <= j < i ==> answers[j] == Busy
  }

  /**
    LockResource, given the answers it will get: with R retries it asks up to R + 1 times, and not again
    after an answer that decides.
   */
  method LockResource(answers: seq<Answer>, retryCount: int) returns (r: Outcome, asked: nat)
    requires |answers| > if retryCount > 0 then retryCount else 0
    ensures var retries := if retryCount > 0 then retryCount else 0;
            && (r == Obtained <==> exists i :: 0 <= i <= retries && Decides(answers, i, Locked))
            && (r == Broken <==> exists i :: 0 <= i <= retries && Decides(answers, i, Error))
            && (r == NotObtained <==> forall i :: 0 <= i <= retries ==> answers[i] == Busy)
            && (r == NotObtained ==> asked == retries + 1)
            && (r != NotObtained ==>
                  1 <= asked <= retries + 1 && Decides(answers, asked - 1, if r == Obtained then Locked else Error))
  {
    ghost var retries := if retryCount > 0 then retryCount else 0;
    asked := 0;
    var attempts := Attempts(retryCount);
    while asked < attempts
      invariant asked <= attempts == retries + 1
      invariant forall j :: 0 <= j < asked ==> answers[j] == Busy
    {
      var answer := answers[asked];
      asked := asked + 1;
      if answer == Error {
        assert Decides(answers, asked - 1, Error);
        return Broken, asked;
      } else if answer == Locked {
        assert Decides(answers, asked - 1, Locked);
        return Obtained, asked;
      }
    }
    r := NotObtained;
  }
}
