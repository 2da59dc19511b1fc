/** Request batching with a per-key promise cache (packages/utils/src/batchLoader.ts).
    Promises are numbered in creation order. The batch function is the environment: it may answer
    any dispatched batch, in any order, with any result list or by throwing. */
module BatchLoading {
  import opened Digits
  import opened Text

  datatype Item<V> = Value(value: V) | Failure(error: string)

  /** What one call of the batch function came to. */
  datatype Answer<V> = Results(items: seq<Item<V>>) | Threw(error: string)

  datatype Outcome<V> = Resolved(value: V) | Rejected(error: string)

  datatype Settlement<V> = Settlement(promise: nat, outcome: Outcome<V>)

  datatype Batch<K, V> = Batch(keys: seq<K>, resolvers: seq<nat>, answer: Option<Answer<V>>)

  /** The loader's fields, then what the outside saw: the key each promise was made for, the batches
      dispatched so far, and every call of a resolve or reject function. */
  datatype State<K, V> = State(
    cache: map<K, nat>,
    pendingKeys: seq<K>,
    pendingResolvers: seq<nat>,
    dispatchScheduled: bool,
    keyOf: seq<K>,
    batches: seq<Batch<K, V>>,
    settlements: seq<Settlement<V>>)

  function Initial<K, V>(): State<K, V> {
    State(map[], [], [], false, [], [], [])
  }

  datatype Op<K, V> = Load(key: K) | Clear(key: K) | ClearAll | Dispatch | Complete(batch: nat, answer: Answer<V>)

  function MismatchError(expected: nat, got: nat): string {
    "BatchLoader batch function must return exactly one result per key: expected "
    + Show(expected) + ", got " + Show(got)
  }

  /** What position `i` of a batch of `n` keys settles with. */
  function OutcomeFor<V>(answer: Answer<V>, n: nat, i: nat): Outcome<V>
    requires i < n
  {
    match answer
    case Threw(error) => Rejected(error)
    case Results(items) =>
      if |items| != n then Rejected(MismatchError(n, |items|))
      else match items[i]
        case Value(v) => Resolved(v)
        case Failure(error) => Rejected(error)
  }

  function Settles<K, V>(b: Batch<K, V>, answer: Answer<V>): seq<Settlement<V>> {
    var n := |b.resolvers|;
    seq(n, i requires 0 <= i < n => Settlement(b.resolvers[i], OutcomeFor(answer, n, i)))
  }

  predicate CanComplete<K, V>(s: State<K, V>, j: nat) {
    j < |s.batches| && s.batches[j].answer.None?
  }

  /** One step; the number is the promise a load returns. */
  function Step<K, V>(s: State<K, V>, op: Op<K, V>): (State<K, V>, nat) {
    match op
    case Load(key) =>
      if key in s.cache then (s, s.cache[key])
      else
        var p := |s.keyOf|;
        (s.(cache := s.cache[key := p],
            pendingKeys := s.pendingKeys + [key],
            pendingResolvers := s.pendingResolvers + [p],
            dispatchScheduled := true,
            keyOf := s.keyOf + [key]), p)
    case Clear(key) => (s.(cache := s.cache - {key}), 0)
    case ClearAll => (s.(cache := map[]), 0)
    case Dispatch =>
      if !s.dispatchScheduled then (s, 0)
      else
        var emptied := s.(pendingKeys := [], pendingResolvers := [], dispatchScheduled := false);
        if s.pendingKeys == [] then (emptied, 0)
        else (emptied.(batches := s.batches + [Batch(s.pendingKeys, s.pendingResolvers, None)]), 0)
    case Complete(j, answer) =>
      if !CanComplete(s, j) then (s, 0)
      else
        var b := s.batches[j];
        (s.(batches := s.batches[j := b.(answer := Some(answer))],
            settlements := s.settlements + Settles(b, answer)), 0)
  }

  // ---- The loader object ----

  class BatchLoader<K(==), V> {
    var cache: map<K, nat>
    var pendingKeys: seq<K>
    var pendingResolvers: seq<nat>
    var dispatchScheduled: bool
    var keyOf: seq<K>
    var batches: seq<Batch<K, V>>
    var settlements: seq<Settlement<V>>

    function Contents(): State<K, V>
      reads this
    {
      State(cache, pendingKeys, pendingResolvers, dispatchScheduled, keyOf, batches, settlements)
    }

    constructor ()
      ensures Contents() == Initial()
    {
      cache, pendingKeys, pendingResolvers, dispatchScheduled := map[], [], [], false;
      keyOf, batches, settlements := [], [], [];
    }

    method Load(key: K) returns (promise: nat)
      modifies this
      ensures (Contents(), promise) == Step(old(Contents()), Op.Load(key))
    {
      if key in cache { return cache[key]; }
      promise := |keyOf|;
      keyOf := keyOf + [key];
      pendingKeys := pendingKeys + [key];
      pendingResolvers := pendingResolvers + [promise];
      cache := cache[key := promise];
      if !dispatchScheduled {
        dispatchScheduled := true;
      }
    }

    method Clear(key: K)
      modifies this`cache
      ensures Contents() == Step(old(Contents()), Op.Clear(key)).0
    {
      cache := cache - {key};
    }

    method RunDispatch()
      modifies this
      ensures Contents() == Step(old(Contents()), Op.Dispatch).0
    {
      if !dispatchScheduled { return; }
      var keys, resolvers := pendingKeys, pendingResolvers;
      pendingKeys, pendingResolvers, dispatchScheduled := [], [], false;
      if |keys| == 0 { return; }
      batches := batches + [Batch(keys, resolvers, None)];
    }

    /** The continuation of `dispatch` once the batch function has answered. */
    method Settle(j: nat, answer: Answer<V>)
      requires CanComplete(Contents(), j)
      modifies this`batches, this`settlements
      ensures Contents() == Step(old(Contents()), Complete(j, answer)).0
    {
      var b := batches[j];
      batches := batches[j := b.(answer := Some(answer))];
      ghost var all := Settles(b, answer);
      var n := |b.resolvers|;
      var i := 0;
      while i < n
        invariant 0 <= i <= n
        invariant settlements == old(settlements) + all[..i]
        invariant batches == old(batches)[j := b.(answer := Some(answer))]
      {
        var outcome := OutcomeAt(answer, n, i);
        assert all[..i + 1] == all[..i] + [Settlement(b.resolvers[i], outcome)];
        settlements := settlements + [Settlement(b.resolvers[i], outcome)];
        i := i + 1;
      }
      assert all[..i] == all;
    }
  }

  /** Resolve or reject at one position, or reject everywhere when the answer is unusable. */
  method OutcomeAt<V>(answer: Answer<V>, n: nat, i: nat) returns (outcome: Outcome<V>)
    requires i < n
    ensures outcome == OutcomeFor(answer, n, i)
  {
    match answer {
      case Threw(error) => return Rejected(error);
      case Results(items) =>
        if |items| != n { return Rejected(MismatchError(n, |items|)); }
        match items[i] {
          case Value(v) => return Resolved(v);
          case Failure(error) => return Rejected(error);
        }
    }
  }

  // ---- Invariant ----

  /** Number of promises in the batches. */
  function Total<K, V>(batches: seq<Batch<K, V>>): nat {
    if batches == [] then 0 else Total(batches[..|batches| - 1]) + |batches[|batches| - 1].keys|
  }

  /** Number of promises dispatched before batch `j`. */
  function Offset<K, V>(batches: seq<Batch<K, V>>, j: nat): nat
    requires j <= |batches|
  {
    Total(batches[..j])
  }

  /** Keys and resolvers are those of the consecutive promises from `first` on. */
  predicate Aligned<K(==)>(keys: seq<K>, resolvers: seq<nat>, keyOf: seq<K>, first: nat) {
    && |keys| == |resolvers| && first + |keys| <= |keyOf|
    && (forall i :: 0 <= i < |keys| ==> resolvers[i] == first + i && keys[i] == keyOf[first + i])
  }

  ghost predicate BatchesAligned<K, V>(batches: seq<Batch<K, V>>, keyOf: seq<K>) {
    forall j :: 0 <= j < |batches| ==> Aligned(batches[j].keys, batches[j].resolvers, keyOf, Offset(batches, j))
  }

  /** Every promise is in exactly one batch, or pending. */
  ghost predicate Placed<K, V>(s: State<K, V>) {
    && BatchesAligned(s.batches, s.keyOf)
    && Aligned(s.pendingKeys, s.pendingResolvers, s.keyOf, Offset(s.batches, |s.batches|))
    && Offset(s.batches, |s.batches|) + |s.pendingKeys| == |s.keyOf|
  }

  ghost predicate Inv<K, V>(s: State<K, V>) {
    && Placed(s)
    // a dispatch is scheduled exactly when keys are pending
    && (s.dispatchScheduled <==> s.pendingKeys != [])
    // the cache maps a key to a promise made for it
    && (forall k :: k in s.cache ==> s.cache[k] < |s.keyOf| && s.keyOf[s.cache[k]] == k)
    && Justified(s.batches, s.settlements)
    && SettledOnce(s.settlements)
  }

  /** The settlement is the batch function's answer at the position of the promise. */
  ghost predicate JustifiedAt<K, V>(batches: seq<Batch<K, V>>, x: Settlement<V>, j: nat, i: nat) {
    && j < |batches| && i < |batches[j].resolvers|
    && batches[j].answer.Some?
    && batches[j].resolvers[i] == x.promise
    && x.outcome == OutcomeFor(batches[j].answer.value, |batches[j].resolvers|, i)
  }

  ghost predicate HasReason<K, V>(batches: seq<Batch<K, V>>, x: Settlement<V>) {
    exists j: nat, i: nat :: JustifiedAt(batches, x, j, i)
  }

  ghost predicate Justified<K, V>(batches: seq<Batch<K, V>>, settlements: seq<Settlement<V>>) {
    forall n :: 0 <= n < |settlements| ==> HasReason(batches, settlements[n])
  }

  predicate SettledOnce<V>(settlements: seq<Settlement<V>>) {
    forall m, n :: 0 <= m < n < |settlements| ==> settlements[m].promise != settlements[n].promise
  }

  lemma {:induction false} OffsetGrows<K, V>(batches: seq<Batch<K, V>>, j: nat, k: nat)
    requires j <= k <= |batches|
    ensures Offset(batches, j) <= Offset(batches, k)
    ensures j < k ==> Offset(batches, j) + |batches[j].keys| <= Offset(batches, k)
  {
    if j < k {
      OffsetGrows(batches, j, k - 1);
      assert batches[..k][..k - 1] == batches[..k - 1];
    }
  }

  /** Batches take disjoint stretches of promises. */
  lemma SameBatch<K, V>(s: State<K, V>, j: nat, i: nat, j': nat, i': nat)
    requires Placed(s)
    requires j < |s.batches| && i < |s.batches[j].resolvers|
    requires j' < |s.batches| && i' < |s.batches[j'].resolvers|
    requires s.batches[j].resolvers[i] == s.batches[j'].resolvers[i']
    ensures j == j' && i == i'
  {
    OffsetGrows(s.batches, Min(j, j'), Max(j, j'));
  }

  lemma {:induction false} OffsetDepends<K, V>(a: seq<Batch<K, V>>, b: seq<Batch<K, V>>, j: nat)
    requires j <= |a| && j <= |b| && forall i :: 0 <= i < j ==> a[i].keys == b[i].keys
    ensures Offset(a, j) == Offset(b, j)
  {
    if j > 0 {
      OffsetDepends(a, b, j - 1);
      assert a[..j][..j - 1] == a[..j - 1] && b[..j][..j - 1] == b[..j - 1];
    }
  }

  lemma LoadKeepsInv<K, V>(s: State<K, V>, key: K)
    requires Inv(s)
    ensures Inv(Step(s, Load(key)).0)
  {
  }

  lemma AppendBatch<K, V>(batches: seq<Batch<K, V>>, b: Batch<K, V>, keyOf: seq<K>)
    requires BatchesAligned(batches, keyOf)
    requires Aligned(b.keys, b.resolvers, keyOf, Offset(batches, |batches|))
    ensures BatchesAligned(batches + [b], keyOf)
    ensures Offset(batches + [b], |batches| + 1) == Offset(batches, |batches|) + |b.keys|
  {
    var n, batches' := |batches|, batches + [b];
    forall j | 0 <= j < |batches'|
      ensures Aligned(batches'[j].keys, batches'[j].resolvers, keyOf, Offset(batches', j))
    {
      assert batches'[..j] == batches[..j];
      assert batches'[j] == if j < n then batches[j] else b;
    }
    assert batches'[..n + 1][..n] == batches[..n];
  }

  lemma DispatchKeepsPlaced<K, V>(s: State<K, V>)
    requires Placed(s)
    ensures Placed(Step(s, Dispatch).0)
  {
    if s.dispatchScheduled && s.pendingKeys != [] {
      var b := Batch(s.pendingKeys, s.pendingResolvers, None);
      AppendBatch(s.batches, b, s.keyOf);
      assert Step(s, Dispatch).0.batches == s.batches + [b];
    }
  }

  /** Settlements keep their reason while batches are added or answered. */
  lemma StillJustified<K, V>(batches: seq<Batch<K, V>>, batches': seq<Batch<K, V>>, settlements: seq<Settlement<V>>)
    requires Justified(batches, settlements) && |batches| <= |batches'|
    requires forall j :: 0 <= j < |batches| && batches[j].answer.Some? ==> batches'[j] == batches[j]
    ensures Justified(batches', settlements)
  {
    forall n | 0 <= n < |settlements| ensures HasReason(batches', settlements[n]) {
      assert HasReason(batches, settlements[n]);
      var j: nat, i: nat :| JustifiedAt(batches, settlements[n], j, i);
      assert JustifiedAt(batches', settlements[n], j, i);
    }
  }

  lemma DispatchKeepsInv<K, V>(s: State<K, V>)
    requires Inv(s)
    ensures Inv(Step(s, Dispatch).0)
  {
    DispatchKeepsPlaced(s);
    StillJustified(s.batches, Step(s, Dispatch).0.batches, s.settlements);
  }

  lemma CompleteKeepsPlaced<K, V>(s: State<K, V>, j: nat, answer: Answer<V>)
    requires Placed(s) && CanComplete(s, j)
    ensures Placed(Step(s, Complete(j, answer)).0)
  {
    var s' := Step(s, Complete(j, answer)).0;
    forall k | 0 <= k < |s'.batches|
      ensures Aligned(s'.batches[k].keys, s'.batches[k].resolvers, s'.keyOf, Offset(s'.batches, k))
    {
      OffsetDepends(s'.batches, s.batches, k);
    }
    OffsetDepends(s'.batches, s.batches, |s.batches|);
  }

  /** No promise of an unanswered batch has settled. */
  lemma UnansweredNotSettled<K, V>(s: State<K, V>, j: nat, n: nat)
    requires Inv(s) && CanComplete(s, j) && n < |s.settlements|
    ensures s.settlements[n].promise !in s.batches[j].resolvers
  {
    assert HasReason(s.batches, s.settlements[n]);
    var j': nat, i: nat :| JustifiedAt(s.batches, s.settlements[n], j', i);
    var resolvers := s.batches[j].resolvers;
    if s.settlements[n].promise in resolvers {
      var m :| 0 <= m < |resolvers| && resolvers[m] == s.settlements[n].promise;
      SameBatch(s, j, m, j', i);
    }
  }

  lemma CompleteSettlesOnce<K, V>(s: State<K, V>, j: nat, answer: Answer<V>)
    requires Inv(s) && CanComplete(s, j)
    ensures SettledOnce(s.settlements + Settles(s.batches[j], answer))
  {
    var more := Settles(s.batches[j], answer);
    assert Aligned(s.batches[j].keys, s.batches[j].resolvers, s.keyOf, Offset(s.batches, j));
    forall m, n | 0 <= m < |s.settlements| && 0 <= n < |more|
      ensures s.settlements[m].promise != more[n].promise
    {
      UnansweredNotSettled(s, j, m);
      assert more[n].promise in s.batches[j].resolvers;
    }
  }

  lemma CompleteJustified<K, V>(s: State<K, V>, j: nat, answer: Answer<V>)
    requires Inv(s) && CanComplete(s, j)
    ensures var s' := Step(s, Complete(j, answer)).0; Justified(s'.batches, s'.settlements)
  {
    var s' := Step(s, Complete(j, answer)).0;
    var more := Settles(s.batches[j], answer);
    StillJustified(s.batches, s'.batches, s.settlements);
    forall n | 0 <= n < |s'.settlements|
      ensures HasReason(s'.batches, s'.settlements[n])
    {
      if n < |s.settlements| {
        assert s'.settlements[n] == s.settlements[n];
      } else {
        var i := n - |s.settlements|;
        assert s'.settlements[n] == more[i];
        assert JustifiedAt(s'.batches, s'.settlements[n], j, i);
      }
    }
  }

  lemma CompleteKeepsInv<K, V>(s: State<K, V>, j: nat, answer: Answer<V>)
    requires Inv(s) && CanComplete(s, j)
    ensures Inv(Step(s, Complete(j, answer)).0)
  {
    CompleteKeepsPlaced(s, j, answer);
    CompleteJustified(s, j, answer);
    CompleteSettlesOnce(s, j, answer);
  }

  // ---- Runs ----

  function Run<K, V>(ops: seq<Op<K, V>>): State<K, V> {
    if ops == [] then Initial() else Step(Run(ops[..|ops| - 1]), ops[|ops| - 1]).0
  }

  /** The invariant holds after every interleaving of loads, clears, dispatches and completions. */
  lemma {:induction false} RunInv<K, V>(ops: seq<Op<K, V>>)
    ensures Inv(Run(ops))
    decreases |ops|
  {
    if ops != [] {
      var s, op := Run(ops[..|ops| - 1]), ops[|ops| - 1];
      RunInv(ops[..|ops| - 1]);
      match op
      case Load(key) => LoadKeepsInv(s, key);
      case Clear(_) =>
      case ClearAll =>
      case Dispatch => DispatchKeepsInv(s);
      case Complete(j, answer) => if CanComplete(s, j) { CompleteKeepsInv(s, j, answer); }
    }
  }

  /** A load always returns a promise made for its own key. */
  lemma {:induction false} LoadReturnsOwnKey<K, V>(ops: seq<Op<K, V>>, key: K)
    ensures var (s, p) := Step(Run<K, V>(ops), Load(key));
      p < |s.keyOf| && s.keyOf[p] == key
  {
    RunInv(ops);
  }

  /** Batch `j` was answered by the environment: some completion in the run brought this answer. */
  ghost predicate AnswerGiven<K, V>(ops: seq<Op<K, V>>, j: nat, answer: Answer<V>) {
    exists k :: 0 <= k < |ops| && ops[k] == Complete(j, answer)
  }

  lemma {:induction false} AnswersAreGiven<K, V>(ops: seq<Op<K, V>>, j: nat)
    requires j < |Run(ops).batches| && Run(ops).batches[j].answer.Some?
    ensures AnswerGiven(ops, j, Run(ops).batches[j].answer.value)
    decreases |ops|
  {
    var front, op, last := ops[..|ops| - 1], ops[|ops| - 1], |ops| - 1;
    var answer := Run(ops).batches[j].answer.value;
    if op.Complete? && op.batch == j && CanComplete(Run(front), j) {
      assert ops[last] == Complete(j, answer);
    } else {
      AnswersAreGiven(front, j);
      var k :| 0 <= k < |front| && front[k] == Complete(j, answer);
      assert ops[k] == Complete(j, answer);
    }
  }

  lemma PlaceOfSettlement<K, V>(s: State<K, V>, n: nat) returns (j: nat, i: nat)
    requires Inv(s) && n < |s.settlements|
    ensures JustifiedAt(s.batches, s.settlements[n], j, i)
    ensures |s.batches[j].keys| == |s.batches[j].resolvers|
    ensures s.settlements[n].promise < |s.keyOf| && s.batches[j].keys[i] == s.keyOf[s.settlements[n].promise]
  {
    assert HasReason(s.batches, s.settlements[n]);
    j, i :| JustifiedAt(s.batches, s.settlements[n], j, i);
    assert Aligned(s.batches[j].keys, s.batches[j].resolvers, s.keyOf, Offset(s.batches, j));
  }

  /** In every interleaving each promise settles at most once. The settlement comes from the place `i` of
      its own key in a batch `j` that the environment answered: it resolves with the item at that place or
      rejects with its error, rejects with the error that was thrown, or, when the number of results is not
      that of the keys, rejects with a message that says so. */
  lemma SettledWithOwnAnswer<K, V>(ops: seq<Op<K, V>>, n: nat) returns (j: nat, i: nat)
    requires n < |Run(ops).settlements|
    ensures var s := Run(ops);
      var x := s.settlements[n];
      && (forall m :: 0 <= m < |s.settlements| && m != n ==> s.settlements[m].promise != x.promise)
      && j < |s.batches| && i < |s.batches[j].keys|
      && x.promise < |s.keyOf| && s.batches[j].keys[i] == s.keyOf[x.promise]
    ensures var s, keys := Run(ops), Run(ops).batches[j].keys;
      var x, answer := s.settlements[n].outcome, s.batches[j].answer;
      && answer.Some? && AnswerGiven(ops, j, answer.value)
      && (answer.value.Threw? ==> x == Rejected(answer.value.error))
      && (answer.value.Results? && |answer.value.items| == |keys| ==>
            && (x.Resolved? <==> answer.value.items[i].Value?)
            && (x.Resolved? ==> x.value == answer.value.items[i].value)
            && (x.Rejected? ==> x.error == answer.value.items[i].error))
      && (answer.value.Results? && |answer.value.items| != |keys| ==>
            x == Rejected("BatchLoader batch function must return exactly one result per key: expected "
                          + Show(|keys|) + ", got " + Show(|answer.value.items|)))
  {
    RunInv(ops);
    j, i := PlaceOfSettlement(Run(ops), n);
    AnswersAreGiven(ops, j);
  }

  /** Every promise of an answered batch has been settled. */
  ghost predicate AnsweredSettled<K, V>(s: State<K, V>) {
    forall j, i :: 0 <= j < |s.batches| && s.batches[j].answer.Some? && 0 <= i < |s.batches[j].resolvers| ==>
      HasSettled(s.settlements, s.batches[j].resolvers[i])
  }

  ghost predicate HasSettled<V>(settlements: seq<Settlement<V>>, p: nat) {
    exists n :: 0 <= n < |settlements| && settlements[n].promise == p
  }

  lemma HasSettledMore<V>(a: seq<Settlement<V>>, b: seq<Settlement<V>>, p: nat)
    requires HasSettled(a, p)
    ensures HasSettled(a + b, p)
  {
    var n :| 0 <= n < |a| && a[n].promise == p;
    assert (a + b)[n].promise == p;
  }

  lemma {:induction false} AnsweredPromisesSettle<K, V>(ops: seq<Op<K, V>>)
    ensures AnsweredSettled(Run(ops))
    decreases |ops|
  {
    if ops != [] {
      var s, op := Run(ops[..|ops| - 1]), ops[|ops| - 1];
      var s' := Run(ops);
      AnsweredPromisesSettle(ops[..|ops| - 1]);
      if op.Complete? && CanComplete(s, op.batch) {
        var more := Settles(s.batches[op.batch], op.answer);
        forall j, i | 0 <= j < |s'.batches| && s'.batches[j].answer.Some? && 0 <= i < |s'.batches[j].resolvers|
          ensures HasSettled(s'.settlements, s'.batches[j].resolvers[i])
        {
          if j == op.batch {
            assert s'.settlements[|s.settlements| + i] == more[i];
          } else {
            HasSettledMore(s.settlements, more, s.batches[j].resolvers[i]);
          }
        }
      }
    }
  }

  // ---- Without clears ----

  predicate NoClears<K, V>(ops: seq<Op<K, V>>) {
    forall i :: 0 <= i < |ops| ==> !ops[i].Clear? && !ops[i].ClearAll?
  }

  ghost predicate CachesAll<K, V>(s: State<K, V>) {
    forall p :: 0 <= p < |s.keyOf| ==> s.keyOf[p] in s.cache && s.cache[s.keyOf[p]] == p
  }

  lemma {:induction false} OnePromisePerKey<K, V>(ops: seq<Op<K, V>>)
    requires NoClears(ops)
    ensures CachesAll(Run(ops))
    decreases |ops|
  {
    if ops != [] {
      var front, op := ops[..|ops| - 1], ops[|ops| - 1];
      assert NoClears(front) && !op.Clear? && !op.ClearAll?;
      OnePromisePerKey(front);
      assert CachesAll(Step(Run(front), op).0);
    }
  }

  /** Without clears no key is handed to the batch function twice. */
  lemma FetchedAtMostOnce<K, V>(ops: seq<Op<K, V>>, j: nat, i: nat, j': nat, i': nat)
    requires NoClears(ops)
    requires j < |Run(ops).batches| && i < |Run(ops).batches[j].keys|
    requires j' < |Run(ops).batches| && i' < |Run(ops).batches[j'].keys|
    requires Run(ops).batches[j].keys[i] == Run(ops).batches[j'].keys[i']
    ensures j == j' && i == i'
  {
    var s := Run(ops);
    RunInv(ops);
    OnePromisePerKey(ops);
    assert Aligned(s.batches[j].keys, s.batches[j].resolvers, s.keyOf, Offset(s.batches, j));
    assert Aligned(s.batches[j'].keys, s.batches[j'].resolvers, s.keyOf, Offset(s.batches, j'));
    SameBatch(s, j, i, j', i');
  }

  // ---- Progress ----

  lemma OneMore<K, V>(ops: seq<Op<K, V>>, op: Op<K, V>)
    ensures Run(ops + [op]) == Step(Run(ops), op).0
  {
    assert (ops + [op])[..|ops|] == ops;
  }

  /** A dispatch leaves nothing pending and hands all pending keys over in one batch, in the order in
      which they were loaded. */
  lemma DispatchTakesAll<K, V>(ops: seq<Op<K, V>>)
    ensures var s, s' := Run(ops), Run(ops + [Dispatch]);
      && s'.pendingKeys == [] && s'.cache == s.cache && s'.settlements == s.settlements
      && |s'.batches| == |s.batches| + (if s.pendingKeys == [] then 0 else 1)
      && s.batches <= s'.batches
      && (s.pendingKeys != [] ==>
            s'.batches[|s.batches|].keys == s.pendingKeys && s'.batches[|s.batches|].answer.None?)
  {
    RunInv(ops);
    OneMore(ops, Dispatch);
  }

  /** An answer to a dispatched batch that had none is taken, and all promises of the batch settle. */
  lemma AnswerIsTaken<K, V>(ops: seq<Op<K, V>>, j: nat, answer: Answer<V>)
    requires CanComplete(Run(ops), j)
    ensures var s, s' := Run(ops), Run(ops + [Complete(j, answer)]);
      && |s'.batches| == |s.batches| && s'.batches[j].answer == Some(answer)
      && s'.batches[j].resolvers == s.batches[j].resolvers
      && forall i :: 0 <= i < |s.batches[j].resolvers| ==> HasSettled(s'.settlements, s.batches[j].resolvers[i])
  {
    OneMore(ops, Complete(j, answer));
    AnsweredPromisesSettle(ops + [Complete(j, answer)]);
  }

  /** A load of a key that is not cached queues it behind the pending ones; a cached one changes nothing. */
  lemma LoadQueues<K, V>(ops: seq<Op<K, V>>, key: K)
    ensures var s := Run(ops);
      var (s', p) := Step(s, Load(key));
      && (key in s.cache ==> s' == s && p == s.cache[key])
      && (key !in s.cache ==>
            && p == |s.keyOf| && s'.keyOf == s.keyOf + [key]
            && s'.pendingKeys == s.pendingKeys + [key] && s'.pendingResolvers == s.pendingResolvers + [p]
            && s'.dispatchScheduled && key in s'.cache && s'.cache[key] == p)
  {
  }

  /** A cleared key is fetched afresh, other keys stay cached; clearing everything clears every key. */
  lemma ClearedKeyIsRefetched<K, V>(ops: seq<Op<K, V>>, key: K, other: K)
    ensures var s := Run(ops);
      var cleared := Step(s, Clear(key)).0;
      && key !in cleared.cache && key !in Step(s, ClearAll).0.cache
      && (other != key && other in s.cache ==> other in cleared.cache && cleared.cache[other] == s.cache[other])
      && cleared.pendingKeys == s.pendingKeys && cleared.batches == s.batches
      && Step(cleared, Load(key)).1 == |s.keyOf|
  {
  }
}
