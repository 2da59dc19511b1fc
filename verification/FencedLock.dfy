/** Owner locks with a fencing counter (packages/cache/src/lock.ts).
    Each Lua script is one atomic step on the lock key and the fence key; time passes in steps of
    its own, and a lease is gone once the clock reaches its end. */
module FencedLock {
  import opened Text
  import opened LockPayload

  /** The stored payload and the instant its key expires. */
  datatype Lease = Lease(payload: Payload, until: int)

  datatype State = State(lease: Option<Lease>, fence: nat, now: nat)

  const INITIAL := State(None, 0, 0)

  /** The client-side fields of a payload. */
  datatype Info = Info(acquiredAt: string, expiresAt: string, metadata: string)

  datatype Op =
    | Acquire(owner: string, ttl: int, info: Info)
    | Release(owner: string)
    | Renew(owner: string, ttl: int, info: Info, fence: int)
    | Tick(elapsed: nat)

  /** `Failed` is the Redis error for a non-positive `PX` or a template that does not format. */
  datatype Reply =
    | Acquired(acquired: bool, payload: Payload)
    | Released(deleted: bool)
    | Renewed | Stolen | Missing
    | Failed
    | Ticked

  predicate Held(s: State) {
    s.lease.Some? && s.now < s.lease.value.until
  }

  predicate HeldBy(s: State, owner: string) {
    Held(s) && s.lease.value.payload.owner == owner
  }

  /** The instant the stored lease ends. */
  function LeaseEnd(s: State): int {
    if s.lease.Some? then s.lease.value.until else 0
  }

  function PayloadOf(owner: string, info: Info, fence: int): Payload {
    Payload(owner, info.acquiredAt, info.expiresAt, fence, info.metadata)
  }

  /** The payload an acquire asks for. */
  function Asked(s: State, op: Op): Payload
    requires op.Acquire?
  {
    PayloadOf(op.owner, op.info, s.fence + 1)
  }

  /** One step, given what an acquire would store, if it can, and the outcome of the owner test on the
      stored lease. */
  function StepIf(s: State, op: Op, made: Option<Payload>, own: bool): (State, Reply) {
    match op
    case Acquire(owner, ttl, _) =>
      var counted := s.(fence := s.fence + 1);
      if made.None? || ttl <= 0 then (counted, Failed)
      else if Held(s) then
        var stored := s.lease.value.payload;
        (counted, Acquired(stored.owner == owner, stored))
      else
        (counted.(lease := Some(Lease(made.value, s.now + ttl))), Acquired(made.value.owner == owner, made.value))
    case Release(owner) =>
      if Held(s) && own then (s.(lease := None), Released(true)) else (s, Released(false))
    case Renew(owner, ttl, info, fence) =>
      if !Held(s) then (s, Missing)
      else if !own then (s, Stolen)
      else if ttl <= 0 then (s, Failed)
      else (s.(lease := Some(Lease(PayloadOf(owner, info, fence), s.now + ttl))), Renewed)
    case Tick(elapsed) => (s.(now := s.now + elapsed), Ticked)
  }

  /** The scripts: acquire stores its formatted template, and ownership is a prefix test on the stored
      text. */
  function Step(s: State, op: Op): (State, Reply) {
    StepIf(s, op,
      if op.Acquire? && Formattable(Asked(s, op)) then Some(Spelled(Asked(s, op))) else None,
      Held(s) && !op.Tick? && PrefixMatches(Serialize(s.lease.value.payload), op.owner))
  }

  /** The lock as meant: acquire stores what was asked for, and ownership is owner equality. */
  function MeantStep(s: State, op: Op): (State, Reply) {
    StepIf(s, op, if op.Acquire? then Some(Asked(s, op)) else None, !op.Tick? && HeldBy(s, op.owner))
  }

  /** The lock and fence keys of one lock, changed by the scripts command by command. */
  class LockKeys {
    var lease: Option<Lease>
    var fence: nat
    var now: nat

    function Contents(): State
      reads this
    {
      State(lease, fence, now)
    }

    constructor ()
      ensures Contents() == INITIAL
    {
      lease, fence, now := None, 0, 0;
    }

    /** `GET`: an expired key is absent. */
    function Get(): Option<Payload>
      reads this
    {
      if lease.Some? && now < lease.value.until then Some(lease.value.payload) else None
    }

    method RunAcquire(owner: string, ttl: int, info: Info) returns (reply: Reply)
      modifies this
      ensures (Contents(), reply) == Step(old(Contents()), Acquire(owner, ttl, info))
    {
      hide Format, Template, Serialize, PrefixMatches;
      fence := fence + 1;
      var asked := PayloadOf(owner, info, fence);
      var text := Format(Template(asked), Some(fence));
      FormatTemplate(asked);
      if text.None? { return Failed; }
      if ttl <= 0 { return Failed; }
      var current := Get();
      if current.None? {
        current := Some(Spelled(asked));
        assert text.value == Serialize(current.value);
        lease := Some(Lease(current.value, now + ttl));
      }
      return Acquired(current.value.owner == owner, current.value);
    }

    method RunRelease(owner: string) returns (reply: Reply)
      modifies this`lease
      ensures (Contents(), reply) == Step(old(Contents()), Release(owner))
    {
      var current := Get();
      if current.None? { return Released(false); }
      if PrefixMatches(Serialize(current.value), owner) {
        lease := None;
        return Released(true);
      }
      return Released(false);
    }

    method RunRenew(owner: string, ttl: int, info: Info, fence: int) returns (reply: Reply)
      modifies this`lease
      ensures (Contents(), reply) == Step(old(Contents()), Renew(owner, ttl, info, fence))
    {
      var current := Get();
      if current.None? { return Missing; }
      if !PrefixMatches(Serialize(current.value), owner) { return Stolen; }
      if ttl <= 0 { return Failed; }
      lease := Some(Lease(PayloadOf(owner, info, fence), now + ttl));
      return Renewed;
    }
  }

  // ---- Runs ----

  function After(ops: seq<Op>): State {
    if ops == [] then INITIAL else Step(After(ops[..|ops| - 1]), ops[|ops| - 1]).0
  }

  function ReplyAt(ops: seq<Op>, i: nat): Reply
    requires i < |ops|
  {
    Step(After(ops[..i]), ops[i]).1
  }

  lemma AfterNext(ops: seq<Op>, i: nat)
    requires i < |ops|
    ensures After(ops[..i + 1]) == Step(After(ops[..i]), ops[i]).0
  {
    assert ops[..i + 1][..i] == ops[..i];
  }

  // ---- Owners ----

  /** An owner whose payload text is the owner itself: nothing to escape and nothing to format. */
  predicate Plain(owner: string) {
    Clean(owner) && '%' !in owner
  }

  predicate InfoFormats(info: Info) {
    Formats(info.acquiredAt) && Formats(info.expiresAt) && Formats(info.metadata)
  }

  /** Taking a free lock, owner by owner: the script fails after counting the fence exactly when some
      percent sign is not doubled, the caller is told it holds the lock exactly when its owner has none at
      all, and it can give the lock back exactly when, besides, the owner needs no escape. */
  lemma OwnLockExact(s: State, owner: string, ttl: int, info: Info)
    requires !Held(s) && ttl > 0
    ensures var (s', reply) := Step(s, Acquire(owner, ttl, info));
      && s'.fence == s.fence + 1
      && (reply.Failed? <==> !(Formats(owner) && InfoFormats(info)))
      && (reply.Failed? ==> s'.lease == s.lease)
      && (!reply.Failed? ==> reply.Acquired? && Held(s') && LeaseEnd(s') == s.now + ttl)
      && (reply.Acquired? && reply.acquired <==> '%' !in owner && InfoFormats(info))
      && (reply.Acquired? && reply.acquired && Step(s', Release(owner)).1 == Released(true)
          <==> Plain(owner) && InfoFormats(info))
  {
    hide Format, PrefixMatches, Serialize;
    var asked := Asked(s, Acquire(owner, ttl, info));
    if '%' !in owner {
      PlainFormat(owner, None);
    }
    if Formattable(asked) {
      HalvedKeeps(owner);
      OwnMatchExact(Spelled(asked));
    }
  }

  /** A doubled percent sign is enough: `a%%` takes the lock under the name `a%`, is told that it does not
      hold it, and can neither give it back nor renew it. With a single one the script fails. */
  lemma PercentOwners(info: Info)
    requires InfoFormats(info)
    ensures var (s, reply) := Step(INITIAL, Acquire("a%%", 10, info));
      && HeldBy(s, "a%") && reply == Acquired(false, s.lease.value.payload)
      && Step(s, Release("a%%")) == (s, Released(false))
      && Step(s, Renew("a%%", 10, info, 1)) == (s, Stolen)
    ensures Step(INITIAL, Acquire("a%1", 10, info)) == (INITIAL.(fence := 1), Failed)
  {
    hide PrefixMatches, Serialize;
    var owner, stored := "a%%", "a%";
    var pair := owner[1..];
    assert pair == "%%" && pair[2..] == "" && "%" + "" == "%";
    assert Format(pair, None) == Some("%");
    assert "a" + "%" == stored;
    assert Format(owner, None) == Some(stored);
    assert "a%1"[1..] == "%1" && Format("a%1", None) == None;
    var s := Step(INITIAL, Acquire(owner, 10, info)).0;
    PrefixIsOwner(s.lease.value.payload, owner);
  }

  /** What an owner can always do: a plain one takes a free lock for exactly its time to live and with a
      new fence; one that needs no escape gives its own lock back and re-times it. */
  lemma OwnerControls(s: State, owner: string, ttl: int, info: Info, fence: int)
    requires Clean(owner) && ttl > 0
    ensures !Held(s) && Plain(owner) && InfoFormats(info) ==>
      var (s', reply) := Step(s, Acquire(owner, ttl, info));
      && HeldBy(s', owner) && LeaseEnd(s') == s.now + ttl
      && reply == Acquired(true, s'.lease.value.payload) && reply.payload.fence == s'.fence == s.fence + 1
      && ('%' !in info.acquiredAt + info.expiresAt + info.metadata ==>
            reply.payload == Payload(owner, info.acquiredAt, info.expiresAt, s.fence + 1, info.metadata))
    ensures HeldBy(s, owner) ==>
      var (s', reply) := Step(s, Release(owner));
      !Held(s') && reply == Released(true) && s'.fence == s.fence
    ensures HeldBy(s, owner) ==>
      var (s', reply) := Step(s, Renew(owner, ttl, info, fence));
      && reply == Renewed && HeldBy(s', owner) && LeaseEnd(s') == s.now + ttl
      && s'.lease.value.payload == Payload(owner, info.acquiredAt, info.expiresAt, fence, info.metadata)
  {
    hide Format, PrefixMatches, Serialize;
    if Held(s) {
      PrefixIsOwner(s.lease.value.payload, owner);
    }
    if Plain(owner) {
      PlainFormat(owner, None);
    }
    if '%' !in info.acquiredAt + info.expiresAt + info.metadata {
      PlainFormat(info.acquiredAt, None);
      PlainFormat(info.expiresAt, None);
      PlainFormat(info.metadata, None);
    }
  }

  /** The replies of release and renew: whether there is a live lease, whether its text passes the owner
      test, and whether the time to live is positive decide them, and each reply but the positive ones
      leaves the lock alone. */
  lemma RepliesExact(s: State, owner: string, ttl: int, info: Info, fence: int)
    ensures var own := Held(s) && PrefixMatches(Serialize(s.lease.value.payload), owner);
      var released, renewed := Step(s, Release(owner)), Step(s, Renew(owner, ttl, info, fence));
      && released.1 == Released(own) && (own ==> !Held(released.0)) && (!own ==> released.0 == s)
      && (renewed.1 == Missing <==> !Held(s))
      && (renewed.1 == Stolen <==> Held(s) && !own)
      && (renewed.1 == Failed <==> own && ttl <= 0)
      && (renewed.1 == Renewed <==> own && ttl > 0)
      && (renewed.1 != Renewed ==> renewed.0 == s)
  {
    hide PrefixMatches, Serialize;
  }

  /** A release or a renewal. */
  predicate Change(op: Op) {
    op.Release? || op.Renew?
  }

  /** The lock is left alone, and the caller is told so. */
  function Refusal(s: State, op: Op): (State, Reply)
    requires Change(op)
  {
    (s, if op.Release? then Released(false) else Stolen)
  }

  /** What an owner asks for is refused on every lock of another owner. */
  ghost predicate Harmless(owner: string) {
    forall s, op :: Change(op) && op.owner == owner && Held(s) && !HeldBy(s, owner) ==> Step(s, op) == Refusal(s, op)
  }

  lemma StrangerIsRefused(s: State, op: Op)
    requires Held(s) && Change(op) && !HeldBy(s, op.owner) && !Impostor(op.owner)
    ensures Step(s, op) == Refusal(s, op)
  {
    hide PrefixMatches, Serialize;
    var p := s.lease.value.payload;
    assert !PrefixMatches(Serialize(p), op.owner);
  }

  /** Release and renew by anyone but the stored owner change nothing exactly for the owners that are no
      impostors; in particular for every owner that needs no escape. */
  lemma HarmlessExact(owner: string)
    ensures Harmless(owner) <==> !Impostor(owner)
    ensures Clean(owner) ==> Harmless(owner)
  {
    hide PrefixMatches, Serialize;
    if Clean(owner) {
      CleanIsNoImpostor(owner);
    }
    if Impostor(owner) {
      var p: Payload :| p.owner != owner && PrefixMatches(Serialize(p), owner);
      var s := State(Some(Lease(p, 1)), 0, 0);
      assert Held(s) && !HeldBy(s, owner) && Step(s, Release(owner)).1 == Released(true);
    } else {
      forall s, op | Change(op) && op.owner == owner && Held(s) && !HeldBy(s, owner)
        ensures Step(s, op) == Refusal(s, op)
      {
        StrangerIsRefused(s, op);
      }
    }
  }

  /** No lock is safe from all owners: whatever is stored, this one deletes it and renews it for itself. */
  lemma EveryLockHasAThief(s: State, ttl: int, info: Info, fence: int)
    requires Held(s) && ttl > 0
    ensures var thief := Thief(s.lease.value.payload.owner);
      && !HeldBy(s, thief) && !Clean(thief)
      && Step(s, Release(thief)) == (s.(lease := None), Released(true))
      && Step(s, Renew(thief, ttl, info, fence)).1 == Renewed
      && HeldBy(Step(s, Renew(thief, ttl, info, fence)).0, thief)
  {
    hide PrefixMatches, Serialize, Thief;
    ThiefMatches(s.lease.value.payload);
  }

  // ---- The lock as meant ----

  /** What an operation means for the lock: an acquire that does not format only counts the fence, and
      doubled percent signs in the other fields are halved. */
  function Meant(op: Op): Op {
    match op
    case Acquire(owner, ttl, info) =>
      if !InfoFormats(info) then Acquire(owner, 0, info)
      else Acquire(owner, ttl, Info(Halved(info.acquiredAt), Halved(info.expiresAt), Halved(info.metadata)))
    case _ => op
  }

  function AllMeant(ops: seq<Op>): (r: seq<Op>)
    ensures |r| == |ops|
    ensures forall i :: 0 <= i < |ops| ==> r[i] == Meant(ops[i])
  {
    seq(|ops|, i requires 0 <= i < |ops| => Meant(ops[i]))
  }

  function MeantAfter(ops: seq<Op>): State {
    if ops == [] then INITIAL else MeantStep(MeantAfter(ops[..|ops| - 1]), ops[|ops| - 1]).0
  }

  /** A change by an owner that needs no escape, or an acquire that fails anyway or whose owner has no
      percent sign. */
  predicate PlainOp(op: Op) {
    match op
    case Acquire(owner, ttl, info) => '%' !in owner || ttl <= 0 || !InfoFormats(info)
    case Release(owner) => Clean(owner)
    case Renew(owner, _, _, _) => Clean(owner)
    case Tick(_) => true
  }

  lemma PlainStep(s: State, op: Op)
    requires PlainOp(op)
    ensures Step(s, op) == MeantStep(s, Meant(op))
  {
    hide Format, PrefixMatches, Serialize;
    if Change(op) && Held(s) {
      PrefixIsOwner(s.lease.value.payload, op.owner);
    }
    if op.Acquire? && '%' !in op.owner {
      PlainFormat(op.owner, None);
    }
  }

  /** A state in which the scripts do something else than was meant. */
  lemma OtherStepDiffers(op: Op) returns (s: State)
    requires !PlainOp(op)
    ensures Step(s, op) != MeantStep(s, Meant(op))
  {
    hide Format, PrefixMatches, Serialize;
    if op.Acquire? {
      s := INITIAL;
      if Formats(op.owner) {
        HalvedKeeps(op.owner);
      }
    } else {
      var p := Payload(op.owner, "", "", 0, "{}");
      s := State(Some(Lease(p, 1)), 0, 0);
      OwnMatchExact(p);
    }
  }

  /** The scripts take the meant step from every state exactly for these operations. */
  lemma RefinesExact(op: Op)
    ensures PlainOp(op) <==> forall s :: Step(s, op) == MeantStep(s, Meant(op))
  {
    hide Step, MeantStep, Meant, PlainOp;
    if PlainOp(op) {
      forall s ensures Step(s, op) == MeantStep(s, Meant(op)) {
        PlainStep(s, op);
      }
    } else {
      var s := OtherStepDiffers(op);
    }
  }

  /** Every run of such operations goes through the states and replies of the lock as meant. */
  lemma {:induction false} RunsRefine(ops: seq<Op>, i: nat)
    requires (forall k :: 0 <= k < |ops| ==> PlainOp(ops[k])) && i < |ops|
    ensures After(ops[..i]) == MeantAfter(AllMeant(ops)[..i])
    ensures ReplyAt(ops, i) == MeantStep(MeantAfter(AllMeant(ops)[..i]), AllMeant(ops)[i]).1
    decreases i
  {
    hide Step, MeantStep, Meant, PlainOp;
    var meant := AllMeant(ops);
    if i > 0 {
      RunsRefine(ops, i - 1);
      PlainStep(After(ops[..i - 1]), ops[i - 1]);
      assert ops[..i][..i - 1] == ops[..i - 1] && meant[..i][..i - 1] == meant[..i - 1];
    }
    PlainStep(After(ops[..i]), ops[i]);
  }

  // ---- Mutual exclusion ----

  /** The caller of the `i`-th operation is told that it holds the lock. */
  predicate ToldHolds(ops: seq<Op>, i: nat)
    requires i < |ops|
  {
    match ReplyAt(ops, i)
    case Acquired(acquired, _) => acquired
    case Renewed => true
    case _ => false
  }

  /** The operation is the owner's own release or renewal. */
  predicate OwnChange(op: Op, owner: string) {
    Change(op) && op.owner == owner
  }

  /** No impostor releases or renews. */
  ghost predicate Honest(op: Op) {
    Change(op) ==> !Impostor(op.owner)
  }

  /** Whoever is told it holds the lock then does, and, unless it is an impostor, nobody else did just
      before. */
  lemma ToldMeansHeld(ops: seq<Op>, i: nat)
    requires i < |ops| && ToldHolds(ops, i)
    ensures ops[i].Acquire? || ops[i].Renew?
    ensures HeldBy(After(ops[..i + 1]), ops[i].owner)
    ensures Honest(ops[i]) && Held(After(ops[..i])) ==> HeldBy(After(ops[..i]), ops[i].owner)
  {
    hide PrefixMatches, Serialize, Format, After;
    AfterNext(ops, i);
    if ops[i].Renew? && !HeldBy(After(ops[..i]), ops[i].owner) && Honest(ops[i]) {
      StrangerIsRefused(After(ops[..i]), ops[i]);
    }
  }

  /** A live lease survives everything but its owner's own changes and those of impostors. */
  lemma LeaseSurvivesStep(s: State, op: Op)
    requires Held(s) && Honest(op) && !OwnChange(op, s.lease.value.payload.owner)
    ensures Step(s, op).0.lease == s.lease
  {
    hide PrefixMatches, Serialize, Format;
    if Change(op) {
      StrangerIsRefused(s, op);
    }
  }

  lemma StepGrows(s: State, op: Op)
    ensures s.now <= Step(s, op).0.now && s.fence <= Step(s, op).0.fence
  {
    hide PrefixMatches, Serialize, Formattable, Spelled;
  }

  lemma {:induction false} NowGrows(ops: seq<Op>, i: nat, j: nat)
    requires i <= j <= |ops|
    ensures After(ops[..i]).now <= After(ops[..j]).now
    ensures After(ops[..i]).fence <= After(ops[..j]).fence
    decreases j - i
  {
    hide Step;
    if i < j {
      AfterNext(ops, i);
      StepGrows(After(ops[..i]), ops[i]);
      NowGrows(ops, i + 1, j);
    }
  }

  lemma {:induction false} LeaseSurvives(ops: seq<Op>, i: nat, j: nat)
    requires i <= j <= |ops| && Held(After(ops[..i]))
    requires var lease := After(ops[..i]).lease.value;
      && After(ops[..j]).now < lease.until
      && forall k :: i <= k < j ==> Honest(ops[k]) && !OwnChange(ops[k], lease.payload.owner)
    ensures After(ops[..j]).lease == After(ops[..i]).lease
    decreases j - i
  {
    hide Step, After, Honest;
    if i < j {
      AfterNext(ops, i);
      LeaseSurvivesStep(After(ops[..i]), ops[i]);
      NowGrows(ops, i + 1, j);
      LeaseSurvives(ops, i + 1, j);
    }
  }

  /** Mutual exclusion over whole runs of the scripts: once a caller was told it holds the lock until some
      instant, another owner can be told so before that instant only if the first owner itself released
      or renewed in between, or an impostor did. */
  lemma MutualExclusion(ops: seq<Op>, i: nat, j: nat)
    requires i < j < |ops| && ToldHolds(ops, i) && ToldHolds(ops, j)
    requires !ops[i].Tick? && !ops[j].Tick? && ops[i].owner != ops[j].owner
    requires After(ops[..j]).now < LeaseEnd(After(ops[..i + 1]))
    requires forall k :: i < k <= j ==> Honest(ops[k])
    ensures exists k :: i < k < j && OwnChange(ops[k], ops[i].owner)
  {
    hide Step, After, Honest, ToldHolds;
    ToldMeansHeld(ops, i);
    ToldMeansHeld(ops, j);
    if forall k :: i < k < j ==> !OwnChange(ops[k], ops[i].owner) {
      LeaseSurvives(ops, i + 1, j);
    }
  }

  /** In particular when every release and renewal names an owner that needs no escape. */
  lemma CleanMutualExclusion(ops: seq<Op>, i: nat, j: nat)
    requires i < j < |ops| && ToldHolds(ops, i) && ToldHolds(ops, j)
    requires !ops[i].Tick? && !ops[j].Tick? && ops[i].owner != ops[j].owner
    requires After(ops[..j]).now < LeaseEnd(After(ops[..i + 1]))
    requires forall k :: 0 <= k < |ops| && Change(ops[k]) ==> Clean(ops[k].owner)
    ensures exists k :: i < k < j && OwnChange(ops[k], ops[i].owner)
  {
    hide ToldHolds, After, Impostor;
    forall k | i < k <= j ensures Honest(ops[k]) {
      if Change(ops[k]) {
        CleanIsNoImpostor(ops[k].owner);
      }
    }
    MutualExclusion(ops, i, j);
  }

  /** Otherwise it fails, against every plain holder: a thief gives the lock back, and another plain owner
      is granted it at once, within the lease and without any change by the holder. */
  lemma TheftBreaksExclusion(holder: string, other: string, ttl: nat, info: Info)
    requires Plain(holder) && Plain(other) && holder != other && ttl > 0 && InfoFormats(info)
    ensures var ops := [Acquire(holder, ttl, info), Release(Thief(holder)), Acquire(other, ttl, info)];
      && ToldHolds(ops, 0) && ToldHolds(ops, 2)
      && After(ops[..2]).now < LeaseEnd(After(ops[..1]))
      && !OwnChange(ops[1], holder)
  {
    hide PrefixMatches, Serialize, Format, Thief, Step;
    var ops := [Acquire(holder, ttl, info), Release(Thief(holder)), Acquire(other, ttl, info)];
    AfterNext(ops, 0);
    AfterNext(ops, 1);
    assert After(ops[..0]) == INITIAL;
    OwnerControls(INITIAL, holder, ttl, info, 0);
    var s := After(ops[..1]);
    EveryLockHasAThief(s, ttl, info, 0);
    OwnerControls(After(ops[..2]), other, ttl, info, 0);
  }

  // ---- Fences ----

  /** A fresh grant: the acquire found no live lease and created one. */
  predicate FreshGrant(ops: seq<Op>, i: nat)
    requires i < |ops|
  {
    ReplyAt(ops, i).Acquired? && !Held(After(ops[..i]))
  }

  lemma GrantCarriesCounter(s: State, op: Op)
    requires Step(s, op).1.Acquired? && !Held(s)
    ensures Step(s, op).1.payload.fence == Step(s, op).0.fence == s.fence + 1
  {
    hide PrefixMatches, Serialize, Format;
  }

  /** Fences grow strictly from fresh grant to fresh grant, through any interleaving of any owners. */
  lemma FencesIncrease(ops: seq<Op>, i: nat, j: nat)
    requires i < j < |ops| && FreshGrant(ops, i) && FreshGrant(ops, j)
    ensures ReplyAt(ops, i).payload.fence < ReplyAt(ops, j).payload.fence
  {
    hide Step, After;
    AfterNext(ops, i);
    GrantCarriesCounter(After(ops[..i]), ops[i]);
    GrantCarriesCounter(After(ops[..j]), ops[j]);
    NowGrows(ops, i + 1, j);
  }
}
