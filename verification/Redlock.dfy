/** Token locks (packages/cache/src/redlock.ts). A token is drawn once per acquisition and is
    never attempted again after it was granted. */
module Redlock {
  import opened Text

  datatype Lease = Lease(token: nat, until: int)

  datatype State = State(lease: Option<Lease>, now: nat)

  const INITIAL := State(None, 0)

  datatype Op =
    | Attempt(token: nat, ttl: int)
    | Release(token: nat)
    | Extend(token: nat, additionalTtl: int)
    | Tick(elapsed: nat)

  predicate Held(s: State) {
    s.lease.Some? && s.now < s.lease.value.until
  }

  predicate HeldBy(s: State, token: nat) {
    Held(s) && s.lease.value.token == token
  }

  /** One script run. The flag is the script's `1`; a non-positive `PX` is an error and no grant. */
  function Step(s: State, op: Op): (State, bool) {
    match op
    case Attempt(token, ttl) =>
      if ttl > 0 && !Held(s) then (s.(lease := Some(Lease(token, s.now + ttl))), true) else (s, false)
    case Release(token) =>
      if HeldBy(s, token) then (s.(lease := None), true) else (s, false)
    case Extend(token, additionalTtl) =>
      if HeldBy(s, token) then (s.(lease := Some(Lease(token, s.now + Max(1, additionalTtl)))), true)
      else (s, false)
    case Tick(elapsed) => (s.(now := s.now + elapsed), false)
  }

  function Steps(s: State, ops: seq<Op>): State {
    if ops == [] then s else Step(Steps(s, ops[..|ops| - 1]), ops[|ops| - 1]).0
  }

  function StateAt(ops: seq<Op>, i: nat): State
    requires i <= |ops|
  {
    Steps(INITIAL, ops[..i])
  }

  predicate Succeeds(ops: seq<Op>, i: nat)
    requires i < |ops|
  {
    Step(StateAt(ops, i), ops[i]).1
  }

  lemma StateNext(ops: seq<Op>, i: nat)
    requires i < |ops|
    ensures StateAt(ops, i + 1) == Step(StateAt(ops, i), ops[i]).0
  {
    assert ops[..i + 1][..i] == ops[..i];
  }

  /** Tokens are fresh: a granted token is not attempted again. */
  ghost predicate FreshTokens(ops: seq<Op>) {
    forall i, j :: 0 <= i < j < |ops| && ops[i].Attempt? && Succeeds(ops, i) && ops[j].Attempt?
      ==> ops[i].token != ops[j].token
  }

  predicate ToldHolds(ops: seq<Op>, i: nat)
    requires i < |ops|
  {
    (ops[i].Attempt? || ops[i].Extend?) && Succeeds(ops, i)
  }

  predicate OwnChange(op: Op, token: nat) {
    (op.Release? || op.Extend?) && op.token == token
  }

  // ---- A lapsed token has lost the lock for good ----

  /** Only granted tokens ever hold the lock. */
  lemma {:induction false} HolderWasGranted(ops: seq<Op>, j: nat) returns (i: nat)
    requires j <= |ops| && StateAt(ops, j).lease.Some?
    ensures i < j && ops[i].Attempt? && Succeeds(ops, i)
    ensures ops[i].token == StateAt(ops, j).lease.value.token
  {
    StateNext(ops, j - 1);
    if ops[j - 1].Attempt? && Succeeds(ops, j - 1) {
      i := j - 1;
    } else {
      i := HolderWasGranted(ops, j - 1);
    }
  }

  lemma {:induction false} LapsedStaysLapsed(ops: seq<Op>, i: nat, m: nat, j: nat)
    requires FreshTokens(ops) && i < m <= j <= |ops|
    requires ops[i].Attempt? && Succeeds(ops, i) && !HeldBy(StateAt(ops, m), ops[i].token)
    ensures !HeldBy(StateAt(ops, j), ops[i].token)
    decreases j - m
  {
    if m < j {
      StateNext(ops, m);
      LapsedStaysLapsed(ops, i, m + 1, j);
    }
  }

  /** A token that was granted and then lapsed can neither delete nor extend any later lock. */
  lemma LapsedTokenIsPowerless(ops: seq<Op>, i: nat, m: nat, j: nat)
    requires FreshTokens(ops) && i < m <= j < |ops|
    requires ops[i].Attempt? && Succeeds(ops, i) && !HeldBy(StateAt(ops, m), ops[i].token)
    requires OwnChange(ops[j], ops[i].token)
    ensures !Succeeds(ops, j) && StateAt(ops, j + 1) == StateAt(ops, j)
  {
    StateNext(ops, j);
    LapsedStaysLapsed(ops, i, m, j);
  }

  // ---- Mutual exclusion ----

  lemma NowGrows(ops: seq<Op>, i: nat, j: nat)
    requires i <= j <= |ops|
    ensures StateAt(ops, i).now <= StateAt(ops, j).now
    decreases j - i
  {
    if i < j {
      StateNext(ops, i);
      NowGrows(ops, i + 1, j);
    }
  }

  /** The instant the stored lease ends. */
  function LeaseEnd(s: State): int {
    if s.lease.Some? then s.lease.value.until else 0
  }

  lemma {:induction false} LeaseSurvives(ops: seq<Op>, i: nat, j: nat)
    requires i <= j <= |ops| && Held(StateAt(ops, i))
    requires StateAt(ops, j).now < StateAt(ops, i).lease.value.until
    requires forall k :: i <= k < j ==> !OwnChange(ops[k], StateAt(ops, i).lease.value.token)
    ensures StateAt(ops, j).lease == StateAt(ops, i).lease
    decreases j - i
  {
    if i < j {
      StateNext(ops, i);
      NowGrows(ops, i + 1, j);
      LeaseSurvives(ops, i + 1, j);
    }
  }

  /** Two different tokens are told they hold the lock within one lease only if the first one
      released or re-timed it itself. */
  lemma MutualExclusion(ops: seq<Op>, i: nat, j: nat)
    requires i < j < |ops| && ToldHolds(ops, i) && ToldHolds(ops, j) && ops[i].token != ops[j].token
    requires StateAt(ops, j).now < LeaseEnd(StateAt(ops, i + 1))
    ensures exists k :: i < k < j && OwnChange(ops[k], ops[i].token)
  {
    StateNext(ops, i);
    if forall k :: i < k < j ==> !OwnChange(ops[k], ops[i].token) {
      LeaseSurvives(ops, i + 1, j);
    }
  }

  /** A token takes a free lock for exactly its time to live; the holder can delete its lock, and
      extending re-times it from now, whatever was left of it. */
  lemma HolderControls(s: State, token: nat, ttl: int, additionalTtl: int)
    requires ttl > 0
    ensures !Held(s) ==>
      var (s', ok) := Step(s, Attempt(token, ttl));
      ok && HeldBy(s', token) && LeaseEnd(s') == s.now + ttl
    ensures HeldBy(s, token) ==>
      var (s', ok) := Step(s, Release(token)); ok && !Held(s')
    ensures HeldBy(s, token) ==>
      var (s', ok) := Step(s, Extend(token, additionalTtl));
      ok && HeldBy(s', token) && LeaseEnd(s') == s.now + Max(1, additionalTtl)
    ensures !HeldBy(s, token) ==> !Step(s, Release(token)).1 && !Step(s, Extend(token, additionalTtl)).1
  {
  }

  /** Extending sets the time left, so it takes time away from its holder exactly when it asks for less
      than is left; a non-positive time leaves one millisecond. */
  lemma ExtendShortensExactly(s: State, token: nat, additionalTtl: int)
    requires HeldBy(s, token)
    ensures var end := LeaseEnd(Step(s, Extend(token, additionalTtl)).0);
      && (end < LeaseEnd(s) <==> Max(1, additionalTtl) < LeaseEnd(s) - s.now)
      && end < LeaseEnd(s) + Max(1, additionalTtl)
  {
  }

  // ---- Acquisition with retries, and the guarded section ----

  /** The steps of others between the attempts, one list per retry delay. */
  type Interference = seq<seq<Op>>

  /** The state the `k`-th attempt finds when all before it failed. */
  function Found(s: State, others: Interference, k: nat): State
    requires k <= |others|
  {
    if k == 0 then s else Steps(Found(s, others, k - 1), others[k - 1])
  }

  datatype Acquisition = Granted | GivenUp | RedisError

  /** `Ran` carries the state in which the section started; `AlreadyLocked` is the 409 error. */
  datatype Checkout = Ran(entered: State) | AlreadyLocked | Refused

  class LockClient {
    var lease: Option<Lease>
    var now: nat

    function Contents(): State
      reads this
    {
      State(lease, now)
    }

    constructor ()
      ensures Contents() == INITIAL
    {
      lease, now := None, 0;
    }

    method Perform(op: Op) returns (success: bool)
      modifies this
      ensures (Contents(), success) == Step(old(Contents()), op)
    {
      var (s, ok) := Step(Contents(), op);
      lease, now, success := s.lease, s.now, ok;
    }

    method PerformAll(ops: seq<Op>)
      modifies this
      ensures Contents() == Steps(old(Contents()), ops)
    {
      var i := 0;
      while i < |ops|
        invariant 0 <= i <= |ops|
        invariant Contents() == Steps(old(Contents()), ops[..i])
      {
        assert ops[..i + 1][..i] == ops[..i];
        var _ := Perform(ops[i]);
        i := i + 1;
      }
      assert ops[..i] == ops;
    }

    /** `acquireRedlock`: at most `max(0, retryCount) + 1` attempts. It succeeds at the first
        attempt that finds the lock free, and gives up only when every attempt found it held. Redis
        refuses a non-positive time to live at the first attempt. */
    method AcquireRedlock(token: nat, ttl: int, retryCount: int, others: Interference)
      returns (r: Acquisition, ghost attempts: nat)
      requires |others| == Max(0, retryCount)
      modifies this
      ensures r.RedisError? <==> ttl <= 0
      ensures 1 <= attempts <= |others| + 1
      ensures forall k :: 0 <= k < attempts - 1 ==> Held(Found(old(Contents()), others, k))
      ensures r.Granted? <==> ttl > 0 && !Held(Found(old(Contents()), others, attempts - 1))
      ensures r.GivenUp? ==> attempts == |others| + 1
      ensures Contents() == Step(Found(old(Contents()), others, attempts - 1), Attempt(token, ttl)).0
      ensures r.Granted? ==> HeldBy(Contents(), token) && lease.value.until == now + ttl
    {
      attempts := 1;
      if ttl <= 0 { return RedisError, 1; }
      var attempt := 0;
      while true
        invariant 0 <= attempt <= |others|
        invariant Contents() == Found(old(Contents()), others, attempt)
        invariant forall k :: 0 <= k < attempt ==> Held(Found(old(Contents()), others, k))
        decreases |others| - attempt
      {
        var acquired := Perform(Attempt(token, ttl));
        attempts := attempt + 1;
        if acquired { return Granted, attempts; }
        if attempt == Max(0, retryCount) { return GivenUp, attempts; }
        PerformAll(others[attempt]);
        attempt := attempt + 1;
      }
    }

    /** `withCartCheckoutLock`: the section runs only under the lock, and the closing release
        removes the own lease or nothing. */
    method WithCartCheckoutLock(token: nat, ttl: int, retryCount: int, others: Interference, section: seq<Op>)
      returns (r: Checkout)
      requires |others| == Max(0, retryCount)
      modifies this
      ensures r.Refused? <==> ttl <= 0
      ensures r.AlreadyLocked? ==> Held(Contents()) && Contents() == Found(old(Contents()), others, |others|)
      ensures r.Ran? ==> !HeldBy(Contents(), token)
      ensures r.Ran? ==>
        var end := Steps(r.entered, section);
        && HeldBy(r.entered, token)
        && Contents() == (if HeldBy(end, token) then end.(lease := None) else end)
    {
      var acquisition, attempts := AcquireRedlock(token, ttl, retryCount, others);
      match acquisition
      case RedisError => return Refused;
      case GivenUp => return AlreadyLocked;
      case Granted =>
        r := Ran(Contents());
        PerformAll(section);
        var _ := Perform(Release(token));
    }
  }
}
