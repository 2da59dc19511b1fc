/** Read/write routing over a Redis cluster (packages/cache/src/clusterFailover.ts).
    Whether a node is connected and healthy may change between two selections of the same read, so it
    is a function of the selection's number; whether a command succeeds likewise. One read runs at a
    time. */
module ClusterRouting {
  import opened Digits
  import opened Text

  datatype Role = Master | Replica

  datatype Node = Node(id: string, role: Role)

  /** Connection status and health as the selections of one operation see them. */
  type Usable = (nat, Node) -> bool

  datatype Outcome = FromReplica(node: Node) | FromMaster(node: Node) | NoReplica | NoMaster

  function Filter(nodes: seq<Node>, usable: Usable, at: nat): seq<Node> {
    if nodes == [] then []
    else
      var front, last := Filter(nodes[..|nodes| - 1], usable, at), nodes[|nodes| - 1];
      if usable(at, last) then front + [last] else front
  }

  lemma {:induction false} FilterMember(nodes: seq<Node>, usable: Usable, at: nat, n: Node)
    ensures n in Filter(nodes, usable, at) <==> n in nodes && usable(at, n)
    decreases |nodes|
  {
    if nodes != [] {
      FilterMember(nodes[..|nodes| - 1], usable, at, n);
      assert nodes == nodes[..|nodes| - 1] + [nodes[|nodes| - 1]];
    }
  }

  /** Filtering keeps the order of the nodes. */
  lemma {:induction false} FilterConcat(a: seq<Node>, b: seq<Node>, usable: Usable, at: nat)
    ensures Filter(a + b, usable, at) == Filter(a, usable, at) + Filter(b, usable, at)
    decreases |b|
  {
    if b == [] {
      assert a + b == a;
    } else {
      FilterConcat(a, b[..|b| - 1], usable, at);
      assert (a + b)[..|a + b| - 1] == a + b[..|b| - 1];
    }
  }

  lemma FilterOne(n: Node, usable: Usable, at: nat)
    ensures Filter([n], usable, at) == if usable(at, n) then [n] else []
  {
    assert [n][..0] == [];
  }

  function OfRole(nodes: seq<Node>, role: Role): (r: seq<Node>)
    ensures forall i :: 0 <= i < |r| ==> r[i].role == role
    ensures forall n :: n in r <==> n in nodes && n.role == role
  {
    if nodes == [] then []
    else
      var front, last := OfRole(nodes[..|nodes| - 1], role), nodes[|nodes| - 1];
      assert nodes == nodes[..|nodes| - 1] + [last];
      if last.role == role then front + [last] else front
  }

  lemma {:induction false} OfRoleConcat(a: seq<Node>, b: seq<Node>, role: Role)
    ensures OfRole(a + b, role) == OfRole(a, role) + OfRole(b, role)
    decreases |b|
  {
    if b == [] {
      assert a + b == a;
    } else {
      OfRoleConcat(a, b[..|b| - 1], role);
      assert (a + b)[..|a + b| - 1] == a + b[..|b| - 1];
    }
  }

  /** The candidate `offset` places after `from`, wrapping around. */
  function Around(candidates: seq<Node>, from: nat, offset: nat): Node
    requires candidates != []
  {
    candidates[(from + offset) % |candidates|]
  }

  function Ids(nodes: seq<Node>): set<string> {
    set i | 0 <= i < |nodes| :: nodes[i].id
  }

  /** The tried replicas: distinct ids, each usable at its turn. */
  predicate Tried(tried: seq<Node>, replicas: seq<Node>, usable: Usable) {
    && DistinctIds(tried)
    && forall i :: 0 <= i < |tried| ==> tried[i] in replicas && usable(i, tried[i])
  }

  predicate Failed(tried: seq<Node>, succeeds: Usable) {
    forall i :: 0 <= i < |tried| ==> !succeeds(i, tried[i])
  }

  /** The node is the first one, in turn from `from` on, whose id was not attempted. */
  ghost predicate FirstUntried(node: Node, candidates: seq<Node>, from: nat, attempted: set<string>) {
    && node.id !in attempted
    && exists o :: 0 <= o < |candidates| && node == Around(candidates, from, o)
         && forall p :: 0 <= p < o ==> Around(candidates, from, p).id in attempted
  }

  ghost predicate InRotation(tried: seq<Node>, replicas: seq<Node>, usable: Usable, from: nat) {
    forall i :: 0 <= i < |tried| ==>
      FirstUntried(tried[i], Filter(replicas, usable, i), from, Ids(tried[..i]))
  }

  lemma RotationExtends(tried: seq<Node>, n: Node, replicas: seq<Node>, usable: Usable, from: nat)
    requires InRotation(tried, replicas, usable, from)
    requires FirstUntried(n, Filter(replicas, usable, |tried|), from, Ids(tried))
    ensures InRotation(tried + [n], replicas, usable, from)
  {
    hide FirstUntried, Ids;
    var more := tried + [n];
    forall i | 0 <= i < |more| ensures FirstUntried(more[i], Filter(replicas, usable, i), from, Ids(more[..i])) {
      assert more[..i] == if i < |tried| then tried[..i] else tried;
    }
  }

  predicate StartsAt(node: Node, candidates: seq<Node>, cursor: nat) {
    candidates != [] && node == Around(candidates, cursor, 0)
  }

  lemma NoneTried(replicas: seq<Node>, usable: Usable, from: nat)
    ensures Tried([], replicas, usable) && InRotation([], replicas, usable, from)
  {
  }

  lemma TriedExtends(tried: seq<Node>, n: Node, replicas: seq<Node>, usable: Usable)
    requires Tried(tried, replicas, usable) && n in Filter(replicas, usable, |tried|) && n.id !in Ids(tried)
    ensures Tried(tried + [n], replicas, usable) && Ids(tried + [n]) == Ids(tried) + {n.id}
  {
    IdsExtend(tried, n);
    FilterMember(replicas, usable, |tried|, n);
  }

  predicate DistinctIds(nodes: seq<Node>) {
    forall i, j :: 0 <= i < j < |nodes| ==> nodes[i].id != nodes[j].id
  }

  // ---- Rounds of reads ----

  datatype Request = ReadRequest(usable: Usable, succeeds: Usable) | WriteRequest(usable: Usable)

  function Reads(requests: seq<Request>): nat {
    if requests == [] then 0
    else Reads(requests[..|requests| - 1]) + if requests[|requests| - 1].ReadRequest? then 1 else 0
  }

  predicate FirstTry(outcome: Outcome, tried: seq<Node>) {
    outcome.FromReplica? && |tried| == 1
  }

  predicate AllFirstTry(outcomes: seq<Outcome>, tries: seq<seq<Node>>) {
    |outcomes| == |tries| && forall i :: 0 <= i < |outcomes| ==> FirstTry(outcomes[i], tries[i])
  }

  /** The replicas that served, in order. */
  function Served(outcomes: seq<Outcome>, tries: seq<seq<Node>>): seq<Node>
    requires AllFirstTry(outcomes, tries)
  {
    seq(|outcomes|, i requires 0 <= i < |outcomes| => outcomes[i].node)
  }

  predicate InTurn(served: seq<Node>, pool: seq<Node>, from: nat) {
    forall i :: 0 <= i < |served| ==> pool != [] && served[i] == Around(pool, from, i)
  }

  lemma AllButLastTry(outcomes: seq<Outcome>, tries: seq<seq<Node>>, outcome: Outcome, tried: seq<Node>)
    requires |outcomes| == |tries| && AllFirstTry(outcomes + [outcome], tries + [tried])
    ensures AllFirstTry(outcomes, tries) && FirstTry(outcome, tried)
    ensures Served(outcomes + [outcome], tries + [tried]) == Served(outcomes, tries) + [outcome.node]
  {
    var all, allTries := outcomes + [outcome], tries + [tried];
    assert FirstTry(all[|outcomes|], allTries[|outcomes|]);
    forall i | 0 <= i < |outcomes| ensures FirstTry(outcomes[i], tries[i]) {
      assert FirstTry(all[i], allTries[i]);
    }
  }

  class FailoverClient {
    const enableReadOnlyReplicas: bool
    const fallbackToMaster: bool
    var masters: seq<Node>
    var replicas: seq<Node>
    var readCursor: nat
    var writeCursor: nat
    var attempted: set<string>
    var replicaReads: nat
    var masterReads: nat
    var masterWrites: nat
    var replicaWrites: nat

    constructor (masters: seq<Node>, replicas: seq<Node>, enableReadOnlyReplicas: bool, fallbackToMaster: bool)
      ensures this.masters == masters && this.replicas == replicas
      ensures this.enableReadOnlyReplicas == enableReadOnlyReplicas && this.fallbackToMaster == fallbackToMaster
      ensures readCursor == writeCursor == 0
      ensures replicaReads == masterReads == masterWrites == replicaWrites == 0
    {
      this.masters, this.replicas := masters, replicas;
      this.enableReadOnlyReplicas, this.fallbackToMaster := enableReadOnlyReplicas, fallbackToMaster;
      readCursor, writeCursor, attempted := 0, 0, {};
      replicaReads, masterReads, masterWrites, replicaWrites := 0, 0, 0, 0;
    }

    method Refresh(nodes: seq<Node>)
      modifies this`masters, this`replicas, this`readCursor, this`writeCursor
      ensures masters == OfRole(nodes, Master) && replicas == OfRole(nodes, Replica)
      ensures readCursor == writeCursor == 0
    {
      masters, replicas := OfRole(nodes, Master), OfRole(nodes, Replica);
      readCursor, writeCursor := 0, 0;
    }

    function Candidates(usable: Usable, at: nat): seq<Node>
      reads this`replicas
    {
      if enableReadOnlyReplicas then Filter(replicas, usable, at) else []
    }

    /** The first untried candidate from `from` on; none exactly when all candidates were tried. */
    method NextReplica(from: nat, usable: Usable, at: nat) returns (r: Option<Node>)
      ensures r.None? <==> ExhaustedAt(usable, at)
      ensures !enableReadOnlyReplicas ==> r.None?
      ensures r.Some? ==> r.value in Candidates(usable, at) && r.value.id !in attempted
      ensures r.Some? ==> FirstUntried(r.value, Candidates(usable, at), from, attempted)
      ensures r.Some? && attempted == {} ==>
        StartsAt(r.value, Candidates(usable, at), from)
    {
      var candidates := Candidates(usable, at);
      if |candidates| == 0 { return None; }
      var offset := 0;
      while offset < |candidates|
        invariant 0 <= offset <= |candidates|
        invariant forall o :: 0 <= o < offset ==> Around(candidates, from, o).id in attempted
      {
        var candidate := Around(candidates, from, offset);
        if candidate.id !in attempted { return Some(candidate); }
        offset := offset + 1;
      }
      forall i | 0 <= i < |candidates| ensures candidates[i].id in attempted {
        var o := OffsetReaching(from, |candidates|, i);
        assert Around(candidates, from, o).id in attempted;
      }
      return None;
    }

    method NextMaster(from: nat, usable: Usable, at: nat) returns (r: Option<Node>)
      ensures r.None? <==> Filter(masters, usable, at) == []
      ensures r.Some? ==> r.value == Around(Filter(masters, usable, at), from, 0)
      ensures r.Some? ==> r.value in masters && usable(at, r.value)
    {
      var candidates := Filter(masters, usable, at);
      if |candidates| == 0 { return None; }
      FilterMember(masters, usable, at, candidates[from % |candidates|]);
      return Some(candidates[from % |candidates|]);
    }

    /** The replica phase of a read. */
    method TryReplicas(usable: Usable, succeeds: Usable) returns (served: Option<Node>, tried: seq<Node>)
      requires enableReadOnlyReplicas
      modifies this`attempted, this`readCursor, this`replicaReads
      ensures Tried(tried, replicas, usable) && Ids(tried) == attempted
      ensures Failed(if served.Some? && tried != [] then tried[..|tried| - 1] else tried, succeeds)
      ensures served.Some? ==> tried != [] && served.value == tried[|tried| - 1] && succeeds(|tried| - 1, served.value)
      ensures served.None? ==> ExhaustedAt(usable, |tried|)
      ensures InRotation(tried, replicas, usable, old(readCursor))
      ensures tried != [] ==> StartsAt(tried[0], Candidates(usable, 0), old(readCursor))
      ensures replicaReads == old(replicaReads) + (if served.Some? then 1 else 0)
      ensures readCursor == old(readCursor) + (if served.Some? then 1 else 0)
    {
      hide Tried, Ids, StartsAt, Filter, ExhaustedAt, FirstUntried, InRotation;
      attempted := {};
      tried := [];
      IdsOfNone();
      NoneTried(replicas, usable, readCursor);
      var replica := NextReplica(readCursor, usable, 0);
      while replica.Some?
        invariant attempted == Ids(tried) && Tried(tried, replicas, usable) && Failed(tried, succeeds)
        invariant readCursor == old(readCursor) && replicaReads == old(replicaReads)
        invariant InRotation(tried, replicas, usable, readCursor)
        invariant replica.Some? ==>
          FirstUntried(replica.value, Filter(replicas, usable, |tried|), readCursor, attempted)
        invariant replica.Some? ==> replica.value in Candidates(usable, |tried|) && replica.value.id !in attempted
        invariant replica.None? ==> ExhaustedAt(usable, |tried|)
        invariant tried == [] && replica.Some? ==> StartsAt(replica.value, Candidates(usable, 0), readCursor)
        invariant tried != [] ==> StartsAt(tried[0], Candidates(usable, 0), readCursor)
        decreases Ids(replicas) - attempted
      {
        FilterMember(replicas, usable, |tried|, replica.value);
        IdOfMember(replicas, replica.value);
        TriedExtends(tried, replica.value, replicas, usable);
        RotationExtends(tried, replica.value, replicas, usable, readCursor);
        var turn := |tried|;
        attempted := attempted + {replica.value.id};
        tried := tried + [replica.value];
        if succeeds(turn, replica.value) {
          assert tried[..|tried| - 1] == tried[..turn];
          readCursor := readCursor + 1;
          replicaReads := replicaReads + 1;
          return replica, tried;
        }
        replica := NextReplica(readCursor, usable, |tried|);
      }
      served := None;
    }

    /** Every candidate of the moment has been tried. */
    predicate ExhaustedAt(usable: Usable, at: nat)
      reads this`replicas, this`attempted
    {
      forall i :: 0 <= i < |Candidates(usable, at)| ==> Candidates(usable, at)[i].id in attempted
    }

    /** Each replica id is tried at most once, every tried replica was usable at its turn, and all but
        the serving one failed. A master is reached only when replica reads are off or every replica
        usable at that moment had been tried, and never with the fallback disabled. Exactly the
        counter and the cursor of the pool that served move. */
    method Read(usable: Usable, succeeds: Usable) returns (outcome: Outcome, tried: seq<Node>)
      modifies this`attempted, this`readCursor, this`replicaReads, this`writeCursor, this`masterReads
      ensures Tried(tried, replicas, usable)
      ensures outcome.FromReplica? ==>
        && tried != [] && outcome.node == tried[|tried| - 1] && succeeds(|tried| - 1, outcome.node)
        && Failed(tried[..|tried| - 1], succeeds)
      ensures !outcome.FromReplica? ==> Failed(tried, succeeds)
      ensures !outcome.FromReplica? && enableReadOnlyReplicas ==>
        forall i :: 0 <= i < |replicas| && usable(|tried|, replicas[i]) ==> replicas[i].id in Ids(tried)
      ensures !enableReadOnlyReplicas ==> tried == []
      ensures outcome.FromMaster? ==> fallbackToMaster && outcome.node in masters && usable(|tried|, outcome.node)
      ensures outcome.NoReplica? <==> !outcome.FromReplica? && !fallbackToMaster
      ensures outcome.NoMaster? <==>
        !outcome.FromReplica? && fallbackToMaster && forall m :: m in masters ==> !usable(|tried|, m)
      ensures outcome.FromMaster? ==> StartsAt(outcome.node, Filter(masters, usable, |tried|), old(writeCursor))
      ensures InRotation(tried, replicas, usable, old(readCursor))
      ensures tried != [] ==> StartsAt(tried[0], Candidates(usable, 0), old(readCursor))
      ensures replicaReads == old(replicaReads) + (if outcome.FromReplica? then 1 else 0)
      ensures masterReads == old(masterReads) + (if outcome.FromMaster? then 1 else 0)
      ensures readCursor == old(readCursor) + (if outcome.FromReplica? then 1 else 0)
      ensures writeCursor == old(writeCursor) + (if outcome.FromMaster? then 1 else 0)
    {
      hide Tried, Ids, Filter, InRotation;
      attempted := {};
      tried := [];
      IdsOfNone();
      NoneTried(replicas, usable, readCursor);
      if enableReadOnlyReplicas {
        var served;
        served, tried := TryReplicas(usable, succeeds);
        if served.Some? {
          return FromReplica(served.value), tried;
        }
        AllTried(replicas, Candidates(usable, |tried|), usable, |tried|, attempted);
      }
      if !fallbackToMaster { return NoReplica, tried; }
      var master := NextMaster(writeCursor, usable, |tried|);
      NoneUsable(masters, usable, |tried|);
      if master.None? { return NoMaster, tried; }
      writeCursor := writeCursor + 1;
      masterReads := masterReads + 1;
      return FromMaster(master.value), tried;
    }

    /** A write goes to a usable master or nowhere; no replica is ever consulted. */
    method Write(usable: Usable) returns (node: Option<Node>)
      modifies this`writeCursor, this`masterWrites
      ensures node.None? <==> Filter(masters, usable, 0) == []
      ensures node.Some? ==> node.value in masters && usable(0, node.value)
      ensures node.Some? ==> node.value == Around(Filter(masters, usable, 0), old(writeCursor), 0)
      ensures masterWrites == old(masterWrites) + (if node.Some? then 1 else 0)
      ensures writeCursor == old(writeCursor) + (if node.Some? then 1 else 0)
    {
      node := NextMaster(writeCursor, usable, 0);
      if node.Some? {
        writeCursor := writeCursor + 1;
        masterWrites := masterWrites + 1;
      }
    }

    /** Reads, each with its own view of the nodes and its own successes, and writes in between, as long
        as every read finds the same pool of eligible replicas. If each read succeeds at its first try,
        as many reads as there are replicas use every replica exactly once. */
    method ServeRound(requests: seq<Request>, pool: seq<Node>) returns (outcomes: seq<Outcome>, tries: seq<seq<Node>>)
      requires enableReadOnlyReplicas
      requires forall i :: 0 <= i < |requests| && requests[i].ReadRequest? ==>
        Filter(replicas, requests[i].usable, 0) == pool
      modifies this
      ensures |outcomes| == |tries| == Reads(requests)
      ensures AllFirstTry(outcomes, tries) && Reads(requests) == |pool| ==>
        multiset(Served(outcomes, tries)) == multiset(pool)
      ensures AllFirstTry(outcomes, tries) ==>
        replicaReads == old(replicaReads) + Reads(requests) && masterReads == old(masterReads)
      ensures masters == old(masters) && replicas == old(replicas)
    {
      ghost var from := readCursor;
      outcomes, tries := [], [];
      var i := 0;
      while i < |requests|
        invariant 0 <= i <= |requests| && |outcomes| == |tries| == Reads(requests[..i])
        invariant masters == old(masters) && replicas == old(replicas)
        invariant AllFirstTry(outcomes, tries) ==>
          && readCursor == from + |outcomes|
          && replicaReads == old(replicaReads) + |outcomes| && masterReads == old(masterReads)
          && InTurn(Served(outcomes, tries), pool, from)
      {
        assert requests[..i + 1][..i] == requests[..i];
        match requests[i] {
          case ReadRequest(usable, succeeds) =>
            ghost var before, tried' := outcomes, tries;
            var outcome, tried := Read(usable, succeeds);
            outcomes, tries := outcomes + [outcome], tries + [tried];
            if AllFirstTry(outcomes, tries) {
              AllButLastTry(before, tried', outcome, tried);
            }
          case WriteRequest(usable) =>
            var _ := Write(usable);
        }
        i := i + 1;
      }
      assert requests[..i] == requests;
      if AllFirstTry(outcomes, tries) && |outcomes| == |pool| {
        RoundIsPermutation(pool, from, Served(outcomes, tries));
      }
    }
  }

  // ---- Supporting facts ----

  lemma IdOfMember(nodes: seq<Node>, n: Node)
    requires n in nodes
    ensures n.id in Ids(nodes)
  {
    var i :| 0 <= i < |nodes| && nodes[i] == n;
    assert nodes[i].id == n.id;
  }

  lemma IdsExtend(nodes: seq<Node>, n: Node)
    ensures Ids(nodes + [n]) == Ids(nodes) + {n.id}
    ensures forall i :: 0 <= i < |nodes| ==> nodes[i].id in Ids(nodes)
  {
    var more := nodes + [n];
    forall x | x in Ids(nodes) + {n.id} ensures x in Ids(more) {
      if x == n.id {
        assert more[|nodes|].id == x;
      } else {
        var i :| 0 <= i < |nodes| && nodes[i].id == x;
        assert more[i].id == x;
      }
    }
    forall x | x in Ids(more) ensures x in Ids(nodes) + {n.id} {
      var i :| 0 <= i < |more| && more[i].id == x;
      assert i < |nodes| ==> nodes[i].id == x;
    }
  }

  lemma IdsOfNone()
    ensures Ids([]) == {}
  {
  }

  lemma NoneUsable(nodes: seq<Node>, usable: Usable, at: nat)
    ensures Filter(nodes, usable, at) == [] <==> forall n :: n in nodes ==> !usable(at, n)
  {
    forall n | n in nodes ensures usable(at, n) <==> n in Filter(nodes, usable, at) {
      FilterMember(nodes, usable, at, n);
    }
    if Filter(nodes, usable, at) != [] {
      FilterMember(nodes, usable, at, Filter(nodes, usable, at)[0]);
    }
  }

  lemma AllTried(replicas: seq<Node>, candidates: seq<Node>, usable: Usable, at: nat, attempted: set<string>)
    requires candidates == Filter(replicas, usable, at)
    requires forall i :: 0 <= i < |candidates| ==> candidates[i].id in attempted
    ensures forall i :: 0 <= i < |replicas| && usable(at, replicas[i]) ==> replicas[i].id in attempted
  {
    forall i | 0 <= i < |replicas| && usable(at, replicas[i]) ensures replicas[i].id in attempted {
      FilterMember(replicas, usable, at, replicas[i]);
      var k :| 0 <= k < |candidates| && candidates[k] == replicas[i];
    }
  }

  // ---- Round-robin arithmetic ----

  lemma {:induction false} ModOffset(from: nat, n: nat, o: nat)
    requires n > 0 && o < n
    ensures (from + o) % n == if from % n + o < n then from % n + o else from % n + o - n
  {
    if o > 0 {
      ModOffset(from, n, o - 1);
      ModNext(from + o - 1, n);
    }
  }

  lemma ModNext(a: nat, n: nat)
    requires n > 0
    ensures (a + 1) % n == if a % n + 1 == n then 0 else a % n + 1
  {
    var q, r := a / n, a % n;
    assert a == q * n + r;
    if r + 1 == n {
      assert a + 1 == (q + 1) * n;
      Remainder(q + 1, 0, n);
    } else {
      Remainder(q, r + 1, n);
    }
  }

  /** Going around: `offset` places on, and back at the start behind the end. */
  lemma AroundWraps(candidates: seq<Node>, from: nat, offset: nat)
    requires from < |candidates| && offset < |candidates|
    ensures Around(candidates, from, offset) ==
      if from + offset < |candidates| then candidates[from + offset] else candidates[from + offset - |candidates|]
    ensures Around(candidates, from + |candidates|, 0) == candidates[from]
  {
    ModOffset(from, |candidates|, offset);
    Remainder(0, from, |candidates|);
    Remainder(1, from, |candidates|);
  }

  /** Some offset below `n` reaches each position. */
  lemma OffsetReaching(from: nat, n: nat, i: nat) returns (o: nat)
    requires i < n
    ensures o < n && (from + o) % n == i
  {
    var r := from % n;
    o := if i >= r then i - r else i + n - r;
    ModOffset(from, n, o);
  }

  /** `n` consecutive positions are a rotation of the pool. */
  lemma RoundIsPermutation(pool: seq<Node>, from: nat, served: seq<Node>)
    requires |served| == |pool| && InTurn(served, pool, from)
    ensures multiset(served) == multiset(pool)
  {
    if pool == [] { return; }
    var n, r := |pool|, from % |pool|;
    forall i | 0 <= i < n ensures served[i] == (pool[r..] + pool[..r])[i] {
      ModOffset(from, n, i);
    }
    assert served == pool[r..] + pool[..r];
    assert pool == pool[..r] + pool[r..];
  }
}
