/** The fences that callers of the owner locks are told (packages/cache/src/lock.ts). Acquire reports the
    stored payload, and renew stores the fence its caller passes, so told fences are in order only if
    renewals are careful. */
module LockFences {
  import opened Text
  import opened LockPayload
  import opened FencedLock

  /** The caller of the `i`-th operation is told by an acquire that it holds the lock. */
  predicate ToldAcquired(ops: seq<Op>, i: nat)
    requires i < |ops|
  {
    ReplyAt(ops, i).Acquired? && ReplyAt(ops, i).acquired
  }

  function ToldFence(ops: seq<Op>, i: nat): int
    requires i < |ops| && ToldAcquired(ops, i)
  {
    ReplyAt(ops, i).payload.fence
  }

  predicate OrderedAt(ops: seq<Op>, i: nat, j: nat)
    requires i < j < |ops| && ToldAcquired(ops, i) && ToldAcquired(ops, j)
  {
    && ToldFence(ops, i) <= ToldFence(ops, j)
    && (FreshGrant(ops, j) ==> ToldFence(ops, i) < ToldFence(ops, j))
  }

  /** The fences told never drop, and grow at each fresh grant. */
  predicate FencesOrdered(ops: seq<Op>) {
    forall i, j :: 0 <= i < j < |ops| && ToldAcquired(ops, i) && ToldAcquired(ops, j) ==> OrderedAt(ops, i, j)
  }

  // ---- Careful renewals ----

  /** The `k`-th operation is a renewal that takes effect. */
  predicate Renews(ops: seq<Op>, k: nat)
    requires k < |ops|
  {
    ops[k].Renew? && ReplyAt(ops, k) == Renewed
  }

  predicate NoneToldAbove(ops: seq<Op>, k: nat, fence: int)
    requires k <= |ops|
  {
    forall i :: 0 <= i < k && ToldAcquired(ops, i) ==> ToldFence(ops, i) <= fence
  }

  /** The fence is at least every fence told so far and at most the next one to be granted. It does not
      matter for an owner whose acquires fail to format: that owner is never told a fence. */
  predicate CarefulAt(ops: seq<Op>, k: nat)
    requires k < |ops| && ops[k].Renew?
  {
    Formats(ops[k].owner) ==> NoneToldAbove(ops, k, ops[k].fence) && ops[k].fence <= After(ops[..k]).fence + 1
  }

  predicate CarefulRenewals(ops: seq<Op>) {
    forall k :: 0 <= k < |ops| && Renews(ops, k) ==> CarefulAt(ops, k)
  }

  /** A live lease whose owner can be told its fence. */
  predicate Tellable(s: State) {
    Held(s) && Formats(s.lease.value.payload.owner)
  }

  /** The stored fence is at most the next one to be granted. */
  predicate Bounded(s: State) {
    Tellable(s) ==> s.lease.value.payload.fence <= s.fence + 1
  }

  /** A fence that was told is behind the counter and behind the stored one. */
  predicate Passed(s: State, told: int) {
    told <= s.fence && (Tellable(s) ==> told <= s.lease.value.payload.fence)
  }

  lemma StepKeepsBounded(s: State, op: Op)
    requires Bounded(s)
    requires op.Renew? && Step(s, op).1 == Renewed && Formats(op.owner) ==> op.fence <= s.fence + 1
    ensures Bounded(Step(s, op).0)
  {
    hide PrefixMatches, Serialize, Formats;
  }

  lemma StepKeepsPassed(s: State, op: Op, told: int)
    requires Passed(s, told)
    requires op.Renew? && Step(s, op).1 == Renewed && Formats(op.owner) ==> told <= op.fence
    ensures Passed(Step(s, op).0, told)
  {
    hide PrefixMatches, Serialize, Formats;
  }

  lemma {:induction false} RunBounded(ops: seq<Op>, k: nat)
    requires k <= |ops| && CarefulRenewals(ops)
    ensures Bounded(After(ops[..k]))
  {
    hide Step, Formats;
    if k > 0 {
      RunBounded(ops, k - 1);
      AfterNext(ops, k - 1);
      assert Renews(ops, k - 1) ==> CarefulAt(ops, k - 1);
      StepKeepsBounded(After(ops[..k - 1]), ops[k - 1]);
    }
  }

  lemma {:induction false} RunKeepsPassed(ops: seq<Op>, i: nat, j: nat)
    requires i < j <= |ops| && CarefulRenewals(ops) && ToldAcquired(ops, i)
    requires Passed(After(ops[..i + 1]), ToldFence(ops, i))
    ensures Passed(After(ops[..j]), ToldFence(ops, i))
    decreases j
  {
    hide Step, Formats, ToldAcquired, ToldFence;
    if i + 1 < j {
      RunKeepsPassed(ops, i, j - 1);
      AfterNext(ops, j - 1);
      assert Renews(ops, j - 1) ==> CarefulAt(ops, j - 1);
      StepKeepsPassed(After(ops[..j - 1]), ops[j - 1], ToldFence(ops, i));
    }
  }

  /** What an acquire tells is stored, behind the counter, and ahead of everything told before. */
  lemma ToldIsStored(s: State, op: Op)
    requires Bounded(s) && Step(s, op).1.Acquired? && Step(s, op).1.acquired
    ensures Passed(Step(s, op).0, Step(s, op).1.payload.fence)
    ensures forall told :: Passed(s, told) ==> told <= Step(s, op).1.payload.fence
    ensures !Held(s) ==> forall told :: Passed(s, told) ==> told < Step(s, op).1.payload.fence
  {
    hide PrefixMatches, Serialize, Formats;
  }

  /** Careful renewals keep all told fences in order, in every run of any owners. */
  lemma CarefulRenewalsKeepOrder(ops: seq<Op>)
    requires CarefulRenewals(ops)
    ensures FencesOrdered(ops)
  {
    hide After, CarefulRenewals, Step, Passed, Bounded;
    forall i, j | 0 <= i < j < |ops| && ToldAcquired(ops, i) && ToldAcquired(ops, j)
      ensures OrderedAt(ops, i, j)
    {
      RunBounded(ops, i);
      AfterNext(ops, i);
      ToldIsStored(After(ops[..i]), ops[i]);
      RunKeepsPassed(ops, i, j);
      RunBounded(ops, j);
      ToldIsStored(After(ops[..j]), ops[j]);
    }
  }

  // ---- Any other renewal goes wrong ----

  predicate NoRenewals(ops: seq<Op>) {
    forall i :: 0 <= i < |ops| ==> !ops[i].Renew?
  }

  const NO_INFO := Info("", "", "")

  /** A longer run starts like the shorter one. */
  lemma Continued(ops: seq<Op>, more: seq<Op>, i: nat)
    requires i < |ops|
    ensures (ops + more)[..i] == ops[..i] && (ops + more)[..|ops|] == ops
    ensures ReplyAt(ops + more, i) == ReplyAt(ops, i)
    ensures ToldAcquired(ops + more, i) == ToldAcquired(ops, i)
  {
  }

  /** One operation more. */
  lemma OneMore(ops: seq<Op>, op: Op)
    ensures After(ops + [op]) == Step(After(ops), op).0
    ensures ReplyAt(ops + [op], |ops|) == Step(After(ops), op).1
    ensures (ops + [op])[..|ops|] == ops
  {
    assert (ops + [op])[..|ops|] == ops;
  }

  /** The owner of a live lease that acquires again is told the stored fence. */
  lemma AgainIsTold(s: State, owner: string)
    requires HeldBy(s, owner) && Formats(owner)
    ensures Step(s, Acquire(owner, 1, NO_INFO))
         == (s.(fence := s.fence + 1), Acquired(true, s.lease.value.payload))
  {
    hide PrefixMatches, Serialize, Format;
    PlainFormat("", None);
  }

  lemma FreeIsGranted(s: State)
    requires !Held(s)
    ensures Step(s, Acquire("b", 1, NO_INFO)).1 == Acquired(true, PayloadOf("b", NO_INFO, s.fence + 1))
  {
    hide PrefixMatches, Serialize, Format;
    PlainFormat("", None);
    PlainFormat("b", None);
  }

  lemma RenewStores(s: State, op: Op)
    requires op.Renew? && Step(s, op).1 == Renewed
    ensures op.ttl > 0 && HeldBy(Step(s, op).0, op.owner)
    ensures Step(s, op).0 == s.(lease := Some(Lease(PayloadOf(op.owner, op.info, op.fence), s.now + op.ttl)))
  {
    hide PrefixMatches, Serialize;
  }

  /** A fence below one that was told: the renewing owner acquires again and is told it. */
  lemma SmallFenceDrops(ops: seq<Op>, renew: Op, i: nat)
    requires renew.Renew? && Step(After(ops), renew).1 == Renewed && Formats(renew.owner)
    requires i < |ops| && ToldAcquired(ops, i) && renew.fence < ToldFence(ops, i)
    ensures !FencesOrdered(ops + [renew] + [Acquire(renew.owner, 1, NO_INFO)])
  {
    hide Step, After, Formats;
    var again, renewed := Acquire(renew.owner, 1, NO_INFO), ops + [renew];
    var all := renewed + [again];
    OneMore(ops, renew);
    OneMore(renewed, again);
    RenewStores(After(ops), renew);
    AgainIsTold(After(renewed), renew.owner);
    Continued(ops, [renew], i);
    Continued(renewed, [again], i);
    assert ToldAcquired(all, i) && ToldAcquired(all, |renewed|);
    assert !OrderedAt(all, i, |renewed|);
  }

  /** A fence beyond the next one: it is told, and after the lease has run out the next grant is no
      larger. */
  lemma LargeFenceIsCaughtUp(ops: seq<Op>, renew: Op)
    requires renew.Renew? && Step(After(ops), renew).1 == Renewed && Formats(renew.owner)
    requires renew.fence > After(ops).fence + 1
    ensures !FencesOrdered(ops + [renew] + [Acquire(renew.owner, 1, NO_INFO)] + [Tick(Max(0, renew.ttl))]
                           + [Acquire("b", 1, NO_INFO)])
  {
    hide Step, After, Formats;
    var again, tick, grant := Acquire(renew.owner, 1, NO_INFO), Tick(Max(0, renew.ttl)), Acquire("b", 1, NO_INFO);
    var renewed := ops + [renew];
    var told := renewed + [again];
    var lapsed := told + [tick];
    var all := lapsed + [grant];
    OneMore(ops, renew);
    OneMore(renewed, again);
    OneMore(told, tick);
    OneMore(lapsed, grant);
    RenewStores(After(ops), renew);
    AgainIsTold(After(renewed), renew.owner);
    TickPasses(After(told), tick.elapsed);
    FreeIsGranted(After(lapsed));
    Continued(told, [tick], |renewed|);
    Continued(lapsed, [grant], |renewed|);
    assert ToldAcquired(all, |renewed|) && ToldAcquired(all, |lapsed|) && FreshGrant(all, |lapsed|);
    assert !OrderedAt(all, |renewed|, |lapsed|);
  }

  lemma TickPasses(s: State, elapsed: nat)
    ensures Step(s, Tick(elapsed)).0 == s.(now := s.now + elapsed)
  {
    hide PrefixMatches, Serialize;
  }

  /** After any run, a renewal that takes effect and is not careful has a continuation, without further
      renewals, that puts the told fences out of order. */
  lemma CarelessRenewalBreaksOrder(ops: seq<Op>, renew: Op) returns (more: seq<Op>)
    requires renew.Renew? && Step(After(ops), renew).1 == Renewed && !CarefulAt(ops + [renew], |ops|)
    ensures NoRenewals(more) && !FencesOrdered(ops + [renew] + more)
  {
    hide Step, After, FencesOrdered, Formats;
    OneMore(ops, renew);
    var again := Acquire(renew.owner, 1, NO_INFO);
    if renew.fence > After(ops).fence + 1 {
      LargeFenceIsCaughtUp(ops, renew);
      more := [again, Tick(Max(0, renew.ttl)), Acquire("b", 1, NO_INFO)];
      assert ops + [renew] + more
          == ops + [renew] + [again] + [Tick(Max(0, renew.ttl))] + [Acquire("b", 1, NO_INFO)];
    } else {
      var i :| 0 <= i < |ops| && ToldAcquired(ops + [renew], i) && ToldFence(ops + [renew], i) > renew.fence;
      Continued(ops, [renew], i);
      SmallFenceDrops(ops, renew, i);
      more := [again];
    }
  }

  // ---- The exact condition ----

  lemma ContinuedCareful(ops: seq<Op>, more: seq<Op>, k: nat)
    requires k < |ops| && ops[k].Renew?
    ensures Renews(ops + more, k) == Renews(ops, k) && CarefulAt(ops + more, k) == CarefulAt(ops, k)
  {
    hide Step, After, Formats;
    Continued(ops, more, k);
    forall i | 0 <= i < k
      ensures ToldAcquired(ops + more, i) == ToldAcquired(ops, i)
      ensures ReplyAt(ops + more, i) == ReplyAt(ops, i)
    {
      Continued(ops, more, i);
    }
  }

  lemma CarefulPrefix(ops: seq<Op>, more: seq<Op>)
    requires CarefulRenewals(ops) && NoRenewals(more)
    ensures CarefulRenewals(ops + more)
  {
    hide After, CarefulAt, ReplyAt;
    forall k | 0 <= k < |ops + more| && Renews(ops + more, k) ensures CarefulAt(ops + more, k) {
      ContinuedCareful(ops, more, k);
    }
  }

  /** After any run of careful renewals, the next renewal is careful exactly when no continuation without
      further renewals puts the told fences out of order. */
  lemma RenewalExact(ops: seq<Op>, renew: Op)
    requires CarefulRenewals(ops) && renew.Renew? && Step(After(ops), renew).1 == Renewed
    ensures CarefulAt(ops + [renew], |ops|)
      <==> forall more :: NoRenewals(more) ==> FencesOrdered(ops + [renew] + more)
  {
    hide Step, After, FencesOrdered, CarefulAt;
    if CarefulAt(ops + [renew], |ops|) {
      OneRenewalMore(ops, renew);
      forall more | NoRenewals(more) ensures FencesOrdered(ops + [renew] + more) {
        CarefulPrefix(ops + [renew], more);
        CarefulRenewalsKeepOrder(ops + [renew] + more);
      }
    } else {
      var more := CarelessRenewalBreaksOrder(ops, renew);
    }
  }

  lemma OneRenewalMore(ops: seq<Op>, renew: Op)
    requires CarefulRenewals(ops) && renew.Renew? && CarefulAt(ops + [renew], |ops|)
    ensures CarefulRenewals(ops + [renew])
  {
    hide After, CarefulAt, ReplyAt;
    forall k | 0 <= k < |ops + [renew]| && Renews(ops + [renew], k) ensures CarefulAt(ops + [renew], k) {
      if k < |ops| {
        ContinuedCareful(ops, [renew], k);
      }
    }
  }

  // ---- Renewing with the fence one holds ----

  predicate KeepsFence(s: State, op: Op)
    requires op.Renew?
  {
    s.lease.Some? && op.fence == s.lease.value.payload.fence
  }

  /** Every renewal that takes effect stores the fence that is already there. */
  predicate KeepsFences(ops: seq<Op>) {
    forall k :: 0 <= k < |ops| && Renews(ops, k) ==> KeepsFence(After(ops[..k]), ops[k])
  }

  /** All stored fences, and the told one, are behind the counter, and the told one behind the stored. */
  predicate Behind(s: State, told: int) {
    told <= s.fence && (Held(s) ==> told <= s.lease.value.payload.fence <= s.fence)
  }

  lemma StepKeepsBehind(s: State, op: Op, told: int)
    requires Behind(s, told)
    requires op.Renew? && Step(s, op).1 == Renewed ==> KeepsFence(s, op)
    ensures Behind(Step(s, op).0, told)
  {
    hide PrefixMatches, Serialize, Format;
  }

  lemma {:induction false} RunKeepsBehind(ops: seq<Op>, i: nat, j: nat, told: int)
    requires i <= j <= |ops| && KeepsFences(ops) && Behind(After(ops[..i]), told)
    ensures Behind(After(ops[..j]), told)
    decreases j
  {
    hide Step;
    if i < j {
      RunKeepsBehind(ops, i, j - 1, told);
      AfterNext(ops, j - 1);
      assert Renews(ops, j - 1) ==> KeepsFence(After(ops[..j - 1]), ops[j - 1]);
      StepKeepsBehind(After(ops[..j - 1]), ops[j - 1], told);
    }
  }

  lemma ToldIsBehind(s: State, op: Op)
    requires Behind(s, 0) && Step(s, op).1.Acquired?
    ensures Behind(Step(s, op).0, Step(s, op).1.payload.fence)
  {
    hide PrefixMatches, Serialize, Format;
  }

  lemma NothingTold()
    ensures Behind(INITIAL, 0)
  {
  }

  lemma RenewedWasHeld(s: State, op: Op)
    requires op.Renew? && Step(s, op).1 == Renewed
    ensures Held(s)
  {
    hide PrefixMatches, Serialize;
  }

  /** Renewing with the fence one holds is careful, so clients that do so see their fences in order. */
  lemma KeepingFenceIsCareful(ops: seq<Op>)
    requires KeepsFences(ops)
    ensures CarefulRenewals(ops) && FencesOrdered(ops)
  {
    hide Step, After, KeepsFences, FencesOrdered;
    forall k | 0 <= k < |ops| && Renews(ops, k) ensures CarefulAt(ops, k) {
      KeptIsCareful(ops, k);
    }
    CarefulRenewalsKeepOrder(ops);
  }

  lemma KeptIsCareful(ops: seq<Op>, k: nat)
    requires k < |ops| && KeepsFences(ops) && Renews(ops, k)
    ensures CarefulAt(ops, k)
  {
    hide Step, Formats;
    NothingTold();
    assert ops[..0] == [];
    RunKeepsBehind(ops, 0, k, 0);
    RenewedWasHeld(After(ops[..k]), ops[k]);
    forall i | 0 <= i < k && ToldAcquired(ops, i) ensures ToldFence(ops, i) <= ops[k].fence {
      RunKeepsBehind(ops, 0, i, 0);
      AfterNext(ops, i);
      ToldIsBehind(After(ops[..i]), ops[i]);
      RunKeepsBehind(ops, i + 1, k, ToldFence(ops, i));
    }
  }

  /** A careless renewal: the first grant, fence 1, is renewed with fence 0 and reported again. */
  lemma RenewedFenceMayDrop()
    ensures var ops := [Acquire("b", 1, NO_INFO), Renew("b", 1, NO_INFO, 0), Acquire("b", 1, NO_INFO)];
      && ToldAcquired(ops, 0) && ToldFence(ops, 0) == 1
      && ToldAcquired(ops, 2) && ToldFence(ops, 2) == 0
  {
    hide Step, After, Format;
    var take, renew := Acquire("b", 1, NO_INFO), Renew("b", 1, NO_INFO, 0);
    var ops := [take, renew, take];
    AfterNext(ops, 0);
    AfterNext(ops, 1);
    assert After(ops[..0]) == INITIAL by { assert ops[..0] == []; StartsInitial(); }
    PlainFormat("b", None);
    PlainFormat("", None);
    OwnerControls(INITIAL, "b", 1, NO_INFO, 0);
    OwnerControls(After(ops[..1]), "b", 1, NO_INFO, 0);
    AgainIsTold(After(ops[..2]), "b");
  }

  lemma StartsInitial()
    ensures After([]) == INITIAL
  {
  }
}
