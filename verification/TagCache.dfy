/** Tag-indexed cache-aside entries (packages/cache/src/cacheAside.ts).
    Redis is one keyspace that holds entries and tag-index sets side by side; a key whose time is up
    counts as absent. Values are serialized texts. */
module TagCache {
  import opened Text

  const TAG_KEY_PREFIX := "cache:tag:"

  datatype Cell =
    | Entry(value: string, tags: seq<string>, until: nat)
    | Index(members: set<string>, until: nat)

  datatype State = State(keys: map<string, Cell>, now: nat)

  const EMPTY := State(map[], 0)

  /** Keys outside the index namespace. */
  predicate DataKey(k: string) {
    !(TAG_KEY_PREFIX <= k)
  }

  /** The tag an index key belongs to. */
  function TagOf(k: string): string
    requires !DataKey(k)
  {
    k[|TAG_KEY_PREFIX|..]
  }

  function TagKey(tag: string): (k: string)
    ensures !DataKey(k) && TagOf(k) == tag
  {
    TAG_KEY_PREFIX + tag
  }

  predicate Live(s: State, k: string) {
    k in s.keys && s.now < s.keys[k].until
  }

  predicate LiveEntry(s: State, k: string) {
    Live(s, k) && s.keys[k].Entry?
  }

  /** `SMEMBERS` of the tag's index. */
  function Members(s: State, tag: string): set<string> {
    var k := TagKey(tag);
    if Live(s, k) && s.keys[k].Index? then s.keys[k].members else {}
  }

  // ---- Specification of the operations ----

  /** `SADD` and `EXPIRE` on one tag index. */
  function AddToIndex(s: State, tag: string, key: string, ttl: nat): State {
    s.(keys := s.keys[TagKey(tag) := Index(Members(s, tag) + {key}, s.now + ttl)])
  }

  function AddToIndexes(s: State, tags: seq<string>, key: string, ttl: nat): State {
    if tags == [] then s
    else AddToIndex(AddToIndexes(s, tags[..|tags| - 1], key, ttl), tags[|tags| - 1], key, ttl)
  }

  function WriteEntry(s: State, key: string, value: string, ttl: nat, tags: seq<string>): State {
    s.(keys := s.keys[key := Entry(value, tags, s.now + ttl)])
  }

  function Put(s: State, key: string, value: string, ttl: nat, tags: seq<string>): State {
    AddToIndexes(WriteEntry(s, key, value, ttl, tags), tags, key, ttl)
  }

  /** `DEL` */
  function Delete(s: State, doomed: set<string>): State {
    s.(keys := s.keys - doomed)
  }

  /** `KEYS <pattern>*` for a pattern without wildcards. */
  function Matching(s: State, pattern: string): set<string> {
    set k | k in s.keys && pattern <= k && Live(s, k)
  }

  function DropTag(s: State, tag: string): State {
    Delete(Delete(s, Members(s, tag)), {TagKey(tag)})
  }

  function DropTags(s: State, tags: seq<string>): State {
    if tags == [] then s else DropTag(DropTags(s, tags[..|tags| - 1]), tags[|tags| - 1])
  }

  datatype Request = Exact(pattern: string, keys: seq<string>) | Prefix(pattern: string) | Tags(tags: seq<string>)

  // ---- Namespaces ----

  /** Entries live at data keys, indexes at tag keys, and indexes list data keys. */
  ghost predicate Kinds(s: State) {
    && (forall k :: k in s.keys ==> (s.keys[k].Entry? <==> DataKey(k)))
    && (forall k, m :: k in s.keys && s.keys[k].Index? && m in s.keys[k].members ==> DataKey(m))
  }

  /** A prefix that neither contains nor is contained in the index namespace. */
  predicate ClearPrefix(p: string) {
    !(p <= TAG_KEY_PREFIX) && !(TAG_KEY_PREFIX <= p)
  }

  predicate ClearRequest(r: Request) {
    match r
    case Exact(pattern, keys) =>
      if pattern != "" then DataKey(pattern) else forall i :: 0 <= i < |keys| ==> DataKey(keys[i])
    case Prefix(pattern) => pattern == "" || ClearPrefix(pattern)
    case Tags(_) => true
  }

  // ---- The cache object ----

  function Elements(s: seq<string>): set<string> {
    set x | x in s
  }

  function Invalidated(s: State, r: Request): State {
    match r
    case Exact(pattern, keys) => Delete(s, if pattern != "" then {pattern} else Elements(keys))
    case Prefix(pattern) => if pattern == "" then s else Delete(s, Matching(s, pattern))
    case Tags(tags) => DropTags(s, tags)
  }

  /** The live entries: what an invalidation counts. */
  function Entries(s: State): set<string> {
    set k | k in s.keys && LiveEntry(s, k)
  }

  /** `INCR`: a missing counter starts at zero. */
  function Counted(counters: map<string, nat>, key: string): map<string, nat> {
    counters[key := 1 + if key in counters then counters[key] else 0]
  }

  function CountLive(s: State, doomed: set<string>): nat {
    |set k | k in doomed && Live(s, k)|
  }

  class TaggedCache {
    var keys: map<string, Cell>
    var now: nat
    var hits: nat
    var misses: nat
    /** The `cache:hits:` counters in Redis. */
    var keyHits: map<string, nat>

    function Contents(): State
      reads this
    {
      State(keys, now)
    }

    constructor ()
      ensures Contents() == EMPTY && hits == 0 && misses == 0 && keyHits == map[]
    {
      keys, now, hits, misses, keyHits := map[], 0, 0, 0, map[];
    }

    method SetCacheEntry(key: string, value: string, ttl: nat, tags: seq<string>)
      modifies this`keys
      ensures Contents() == Put(old(Contents()), key, value, ttl, tags)
    {
      keys := keys[key := Entry(value, tags, now + ttl)];
      var i := 0;
      while i < |tags|
        invariant 0 <= i <= |tags|
        invariant Contents()
               == AddToIndexes(WriteEntry(old(Contents()), key, value, ttl, tags), tags[..i], key, ttl)
      {
        assert tags[..i + 1][..i] == tags[..i];
        keys := keys[TagKey(tags[i]) := Index(Members(Contents(), tags[i]) + {key}, now + ttl)];
        i := i + 1;
      }
      assert tags[..i] == tags;
    }

    /** `loaded` is what the loader gives on a miss. */
    method GetOrSet(key: string, ttl: nat, tags: seq<string>, loaded: string) returns (value: string)
      modifies this
      ensures LiveEntry(old(Contents()), key) ==>
        && value == old(keys)[key].value && Contents() == old(Contents())
        && hits == old(hits) + 1 && misses == old(misses)
        && keyHits == old(keyHits)[key := 1 + if key in old(keyHits) then old(keyHits)[key] else 0]
      ensures !LiveEntry(old(Contents()), key) ==>
        && value == loaded && Contents() == Put(old(Contents()), key, loaded, ttl, tags)
        && hits == old(hits) && misses == old(misses) + 1
        && keyHits == old(keyHits)
    {
      if LiveEntry(Contents(), key) {
        hits := hits + 1;
        keyHits := Counted(keyHits, key);
        return keys[key].value;
      }
      misses := misses + 1;
      SetCacheEntry(key, loaded, ttl, tags);
      return loaded;
    }

    method Del(doomed: set<string>) returns (deleted: nat)
      modifies this`keys
      ensures Contents() == Delete(old(Contents()), doomed)
      ensures deleted == CountLive(old(Contents()), doomed)
    {
      deleted := CountLive(Contents(), doomed);
      keys := keys - doomed;
    }

    /** The number returned is the number of live entries that are gone, as long as the request keeps
        clear of the index keys. */
    method Invalidate(r: Request) returns (deleted: nat)
      modifies this`keys
      ensures Contents() == Invalidated(old(Contents()), r)
      ensures Kinds(old(Contents())) && ClearRequest(r) ==>
        deleted == |Entries(old(Contents()))| - |Entries(Contents())|
    {
      ghost var start := Contents();
      ghost var clear := Kinds(start) && ClearRequest(r);
      match r
      case Exact(pattern, keys) =>
        var doomed := if pattern != "" then {pattern} else Elements(keys);
        if clear { DeleteCounts(start, doomed); }
        deleted := Del(doomed);
      case Prefix(pattern) =>
        if pattern == "" { return 0; }
        var doomed := Matching(Contents(), pattern);
        if clear {
          ClearPrefixIsData(start, pattern);
          DeleteCounts(start, doomed);
        }
        deleted := Del(doomed);
      case Tags(tags) =>
        deleted := 0;
        var i := 0;
        while i < |tags|
          invariant 0 <= i <= |tags|
          invariant Contents() == DropTags(start, tags[..i])
          invariant clear ==> Kinds(Contents())
          invariant clear ==> deleted == |Entries(start)| - |Entries(Contents())|
        {
          assert tags[..i + 1][..i] == tags[..i];
          var n := DeleteTag(tags[i]);
          deleted := deleted + n;
          i := i + 1;
        }
        assert tags[..i] == tags;
    }

    /** The members of one tag, then its index. */
    method DeleteTag(tag: string) returns (deleted: nat)
      modifies this`keys
      ensures Contents() == DropTag(old(Contents()), tag)
      ensures Kinds(old(Contents())) ==> Kinds(Contents())
      ensures Kinds(old(Contents())) ==> deleted == |Entries(old(Contents()))| - |Entries(Contents())|
    {
      ghost var before := Contents();
      var doomed := Members(Contents(), tag);
      if Kinds(before) {
        MembersAreData(before, tag);
        DeleteCounts(before, doomed);
      }
      deleted := Del(doomed);
      if Kinds(before) {
        IndexIsNoEntry(Contents(), tag);
      }
      var _ := Del({TagKey(tag)});
    }
  }

  // ---- What an invalidation removes ----

  lemma TagKeyText()
    ensures TagKey("t") == "cache:tag:t"
  {
    assert TAG_KEY_PREFIX + "t" == "cache:tag:t";
  }

  /** An exact request removes the pattern if there is one, otherwise the listed keys; a prefix request
      removes the live keys that start with it, and nothing when it is empty. All other keys stay. */
  lemma InvalidatedExact(s: State, pattern: string, keys: seq<string>, k: string)
    ensures var s' := Invalidated(s, Exact(pattern, keys));
      && s'.now == s.now
      && if (if pattern != "" then k == pattern else k in keys) then k !in s'.keys else SameAt(s, s', k)
    ensures var s' := Invalidated(s, Prefix(pattern));
      && s'.now == s.now
      && if pattern != "" && pattern <= k && Live(s, k) then k !in s'.keys else SameAt(s, s', k)
  {
  }

  /** A tag request removes the members of each live index, and the indexes. */
  lemma {:induction false} TagsRemoveMembers(s: State, tags: seq<string>, k: string)
    ensures var s' := Invalidated(s, Tags(tags));
      && s'.now == s.now
      && (k in s'.keys ==> k in s.keys && s'.keys[k] == s.keys[k])
      && (IndexKeyOf(tags, k) ==> k !in s'.keys)
    decreases |tags|
  {
    if tags != [] {
      var front, last := tags[..|tags| - 1], tags[|tags| - 1];
      TagsRemoveMembers(s, front, k);
      assert tags == front + [last];
      if IndexKeyOf(tags, k) && !IndexKeyOf(front, k) {
        assert k == TagKey(last);
      }
    }
  }

  // ---- Deleting by name ----

  lemma PrefixesCompare(p: string, q: string, k: string)
    requires p <= k && q <= k
    ensures p <= q || q <= p
  {
    assert |p| <= |q| ==> p == k[..|p|] == q[..|p|];
    assert |q| <= |p| ==> q == k[..|q|] == p[..|q|];
  }

  lemma ClearPrefixIsData(s: State, p: string)
    requires ClearPrefix(p)
    ensures forall k :: k in Matching(s, p) ==> DataKey(k)
  {
    forall k | k in Matching(s, p) ensures DataKey(k) {
      if TAG_KEY_PREFIX <= k {
        PrefixesCompare(p, TAG_KEY_PREFIX, k);
        assert false;
      }
    }
  }

  lemma MembersAreData(s: State, tag: string)
    requires Kinds(s)
    ensures forall k :: k in Members(s, tag) ==> DataKey(k)
  {
  }

  lemma DeleteCounts(s: State, doomed: set<string>)
    requires Kinds(s) && forall k :: k in doomed ==> DataKey(k)
    ensures CountLive(s, doomed) == |Entries(s)| - |Entries(Delete(s, doomed))|
  {
    var gone := set k | k in doomed && Live(s, k);
    assert Entries(Delete(s, doomed)) == Entries(s) - gone;
    assert gone <= Entries(s);
  }

  lemma IndexIsNoEntry(s: State, tag: string)
    requires Kinds(s)
    ensures Entries(Delete(s, {TagKey(tag)})) == Entries(s)
  {
  }

  // ---- Coverage ----

  /** The entry's tag finds it for as long as the entry lives. */
  predicate CoveredBy(s: State, k: string, tag: string)
    requires LiveEntry(s, k)
  {
    var i := TagKey(tag);
    i in s.keys && s.keys[i].Index? && k in s.keys[i].members && s.keys[k].until <= s.keys[i].until
  }

  ghost predicate Covered(s: State) {
    forall k, tag :: LiveEntry(s, k) && tag in s.keys[k].tags ==> CoveredBy(s, k, tag)
  }

  predicate Holds(s: State, k: string, cell: Cell) {
    k in s.keys && s.keys[k] == cell
  }

  predicate SameAt(s: State, s': State, k: string) {
    if k in s.keys then Holds(s', k, s.keys[k]) else k !in s'.keys
  }

  /** The key is the index key of one of the tags. */
  predicate IndexKeyOf(tags: seq<string>, k: string) {
    !DataKey(k) && TagOf(k) in tags
  }

  lemma {:induction false} AddToIndexesPointwise(s: State, tags: seq<string>, key: string, ttl: nat)
    requires ttl > 0
    ensures var s' := AddToIndexes(s, tags, key, ttl);
      && s'.now == s.now
      && (forall t :: t in tags ==> Holds(s', TagKey(t), Index(Members(s, t) + {key}, s.now + ttl)))
      && (forall k :: !IndexKeyOf(tags, k) ==> SameAt(s, s', k))
    decreases |tags|
  {
    if tags != [] {
      var front, last := tags[..|tags| - 1], tags[|tags| - 1];
      AddToIndexesPointwise(s, front, key, ttl);
      var mid, s' := AddToIndexes(s, front, key, ttl), AddToIndexes(s, tags, key, ttl);
      assert tags == front + [last];
      if last in front {
        assert Holds(mid, TagKey(last), Index(Members(s, last) + {key}, s.now + ttl));
        assert Members(mid, last) + {key} == Members(s, last) + {key};
      } else {
        assert SameAt(s, mid, TagKey(last));
      }
      forall t | t in tags ensures Holds(s', TagKey(t), Index(Members(s, t) + {key}, s.now + ttl)) {
        if t != last {
          assert t in front && Holds(mid, TagKey(t), Index(Members(s, t) + {key}, s.now + ttl));
        }
      }
      forall k | !IndexKeyOf(tags, k) ensures SameAt(s, s', k) {
        assert SameAt(s, mid, k) && k != TagKey(last);
      }
    }
  }

  /** No other live entry of these tags outlives the new one. */
  ghost predicate OutlivesOthers(s: State, key: string, ttl: nat, tags: seq<string>) {
    forall k, tag :: k != key && LiveEntry(s, k) && tag in s.keys[k].tags && tag in tags
      ==> s.keys[k].until <= s.now + ttl
  }

  /** The keyspace after a write, spelled out. */
  lemma PutPointwise(s: State, key: string, value: string, ttl: nat, tags: seq<string>)
    requires DataKey(key) && ttl > 0
    ensures var s' := Put(s, key, value, ttl, tags);
      && s'.now == s.now
      && Holds(s', key, Entry(value, tags, s.now + ttl))
      && (forall t :: t in tags ==> Holds(s', TagKey(t), Index(Members(s, t) + {key}, s.now + ttl)))
      && (forall t :: t !in tags ==> SameAt(s, s', TagKey(t)))
      && (forall k :: DataKey(k) && k != key ==> SameAt(s, s', k))
  {
    var w, s' := WriteEntry(s, key, value, ttl, tags), Put(s, key, value, ttl, tags);
    AddToIndexesPointwise(w, tags, key, ttl);
    assert SameAt(w, s', key);
    forall t ensures Members(w, t) == Members(s, t) && (t !in tags ==> SameAt(s, s', TagKey(t))) {
      assert t !in tags ==> SameAt(w, s', TagKey(t));
    }
    forall k | DataKey(k) && k != key ensures SameAt(s, s', k) {
      assert SameAt(w, s', k);
    }
  }

  lemma PutKinds(s: State, key: string, value: string, ttl: nat, tags: seq<string>)
    requires Kinds(s) && DataKey(key) && ttl > 0
    ensures Kinds(Put(s, key, value, ttl, tags))
  {
    PutPointwise(s, key, value, ttl, tags);
    var s' := Put(s, key, value, ttl, tags);
    forall k | k in s'.keys
      ensures s'.keys[k].Entry? <==> DataKey(k)
      ensures s'.keys[k].Index? ==> forall m :: m in s'.keys[k].members ==> DataKey(m)
    {
      if !DataKey(k) {
        assert k == TagKey(TagOf(k));
      }
    }
  }

  /** A write keeps every tag index covering its entries exactly when it outlives the other live
      entries of its tags. */
  lemma PutKeepsCoverageExactly(s: State, key: string, value: string, ttl: nat, tags: seq<string>)
    requires Kinds(s) && Covered(s) && DataKey(key) && ttl > 0
    ensures Covered(Put(s, key, value, ttl, tags)) <==> OutlivesOthers(s, key, ttl, tags)
  {
    var s' := Put(s, key, value, ttl, tags);
    PutPointwise(s, key, value, ttl, tags);
    PutKinds(s, key, value, ttl, tags);
    if OutlivesOthers(s, key, ttl, tags) {
      forall k, tag | LiveEntry(s', k) && tag in s'.keys[k].tags ensures CoveredBy(s', k, tag) {
        if k != key {
          assert LiveEntry(s, k) && CoveredBy(s, k, tag);
          assert tag in tags ==> k in Members(s, tag);
        }
      }
    }
    if Covered(s') {
      forall k, tag | k != key && LiveEntry(s, k) && tag in s.keys[k].tags && tag in tags
        ensures s.keys[k].until <= s.now + ttl
      {
        assert LiveEntry(s', k) && CoveredBy(s', k, tag);
      }
    }
  }

  // ---- Runs ----

  datatype Op =
    | Set(key: string, value: string, ttl: nat, tags: seq<string>)
    | Remove(request: Request)
    | Tick(elapsed: nat)

  function Step(s: State, op: Op): State {
    match op
    case Set(key, value, ttl, tags) => Put(s, key, value, ttl, tags)
    case Remove(request) => Invalidated(s, request)
    case Tick(elapsed) => s.(now := s.now + elapsed)
  }

  function Run(ops: seq<Op>): State {
    if ops == [] then EMPTY else Step(Run(ops[..|ops| - 1]), ops[|ops| - 1])
  }

  /** Writes use data keys and each tag's one lifetime; deletes keep clear of the index keys. */
  ghost predicate Disciplined(op: Op, ttlOf: string -> nat) {
    match op
    case Set(key, _, ttl, tags) => DataKey(key) && ttl > 0 && forall t :: t in tags ==> ttlOf(t) == ttl
    case Remove(request) => ClearRequest(request)
    case Tick(_) => true
  }

  /** No live entry lives longer than a write of any of its tags would from now on. */
  ghost predicate Bounded(s: State, ttlOf: string -> nat) {
    forall k, t :: LiveEntry(s, k) && t in s.keys[k].tags ==> s.keys[k].until <= s.now + ttlOf(t)
  }

  ghost predicate Inv(s: State, ttlOf: string -> nat) {
    Kinds(s) && Covered(s) && Bounded(s, ttlOf)
  }

  lemma DeleteKeepsInv(s: State, doomed: set<string>, ttlOf: string -> nat)
    requires Inv(s, ttlOf) && forall k :: k in doomed ==> DataKey(k)
    ensures Inv(Delete(s, doomed), ttlOf)
  {
    var s' := Delete(s, doomed);
    forall k, tag | LiveEntry(s', k) && tag in s'.keys[k].tags ensures CoveredBy(s', k, tag) {
      assert LiveEntry(s, k) && CoveredBy(s, k, tag);
    }
  }

  /** Dropping a tag removes every live entry that carries it. */
  lemma DropTagEmpties(s: State, tag: string)
    requires Kinds(s) && Covered(s)
    ensures forall k :: LiveEntry(DropTag(s, tag), k) ==> tag !in DropTag(s, tag).keys[k].tags
  {
    var s' := DropTag(s, tag);
    forall k | LiveEntry(s', k) ensures tag !in s'.keys[k].tags {
      assert LiveEntry(s, k) && k !in Members(s, tag);
      assert tag in s.keys[k].tags ==> CoveredBy(s, k, tag);
    }
  }

  lemma DropTagKeepsInv(s: State, tag: string, ttlOf: string -> nat)
    requires Inv(s, ttlOf)
    ensures Inv(DropTag(s, tag), ttlOf)
  {
    MembersAreData(s, tag);
    var mid, s' := Delete(s, Members(s, tag)), DropTag(s, tag);
    DeleteKeepsInv(s, Members(s, tag), ttlOf);
    DropTagEmpties(s, tag);
    forall k, t | LiveEntry(s', k) && t in s'.keys[k].tags ensures CoveredBy(s', k, t) {
      assert LiveEntry(mid, k) && CoveredBy(mid, k, t);
    }
  }

  lemma {:induction false} DropTagsKeepsInv(s: State, tags: seq<string>, ttlOf: string -> nat)
    requires Inv(s, ttlOf)
    ensures Inv(DropTags(s, tags), ttlOf)
    decreases |tags|
  {
    if tags != [] {
      DropTagsKeepsInv(s, tags[..|tags| - 1], ttlOf);
      DropTagKeepsInv(DropTags(s, tags[..|tags| - 1]), tags[|tags| - 1], ttlOf);
    }
  }

  lemma StepKeepsInv(s: State, op: Op, ttlOf: string -> nat)
    requires Inv(s, ttlOf) && Disciplined(op, ttlOf)
    ensures Inv(Step(s, op), ttlOf)
  {
    match op
    case Set(key, value, ttl, tags) =>
      PutKinds(s, key, value, ttl, tags);
      PutPointwise(s, key, value, ttl, tags);
      PutKeepsCoverageExactly(s, key, value, ttl, tags);
      var s' := Put(s, key, value, ttl, tags);
      forall k, t | LiveEntry(s', k) && t in s'.keys[k].tags ensures s'.keys[k].until <= s'.now + ttlOf(t) {
        assert k != key ==> LiveEntry(s, k);
      }
    case Remove(Exact(pattern, keys)) =>
      DeleteKeepsInv(s, if pattern != "" then {pattern} else Elements(keys), ttlOf);
    case Remove(Prefix(pattern)) =>
      if pattern != "" {
        ClearPrefixIsData(s, pattern);
        DeleteKeepsInv(s, Matching(s, pattern), ttlOf);
      }
    case Remove(Tags(tags)) => DropTagsKeepsInv(s, tags, ttlOf);
    case Tick(elapsed) =>
      var s' := Step(s, op);
      forall k, t | LiveEntry(s', k) && t in s'.keys[k].tags ensures CoveredBy(s', k, t) {
        assert LiveEntry(s, k) && CoveredBy(s, k, t);
      }
  }

  /** After any disciplined run every live entry is in the live index of each of its tags. */
  lemma {:induction false} RunCovered(ops: seq<Op>, ttlOf: string -> nat)
    requires forall i :: 0 <= i < |ops| ==> Disciplined(ops[i], ttlOf)
    ensures Inv(Run(ops), ttlOf)
    ensures forall k, t :: LiveEntry(Run(ops), k) && t in Run(ops).keys[k].tags ==> k in Members(Run(ops), t)
    decreases |ops|
  {
    if ops != [] {
      RunCovered(ops[..|ops| - 1], ttlOf);
      StepKeepsInv(Run(ops[..|ops| - 1]), ops[|ops| - 1], ttlOf);
    }
    forall k, t | LiveEntry(Run(ops), k) && t in Run(ops).keys[k].tags ensures k in Members(Run(ops), t) {
      assert CoveredBy(Run(ops), k, t);
    }
  }

  lemma {:induction false} DropTagsEmpties(s: State, tags: seq<string>, tag: string, ttlOf: string -> nat)
    requires Inv(s, ttlOf) && tag in tags
    ensures forall k :: LiveEntry(DropTags(s, tags), k) ==> tag !in DropTags(s, tags).keys[k].tags
    decreases |tags|
  {
    var front, last := tags[..|tags| - 1], tags[|tags| - 1];
    var mid := DropTags(s, front);
    DropTagsKeepsInv(s, front, ttlOf);
    if tag == last {
      DropTagEmpties(mid, last);
    } else {
      DropTagsEmpties(s, front, tag, ttlOf);
      forall k | LiveEntry(DropTags(s, tags), k) ensures tag !in DropTags(s, tags).keys[k].tags {
        assert LiveEntry(mid, k);
      }
    }
  }

  /** Whatever happened before, a tag invalidation leaves no live entry with any of its tags. */
  lemma TagInvalidationIsComplete(ops: seq<Op>, tags: seq<string>, tag: string, ttlOf: string -> nat)
    requires (forall i :: 0 <= i < |ops| ==> Disciplined(ops[i], ttlOf)) && tag in tags
    ensures var s := Run(ops + [Remove(Tags(tags))]);
      forall k :: LiveEntry(s, k) ==> tag !in s.keys[k].tags
  {
    var all := ops + [Remove(Tags(tags))];
    assert all[..|all| - 1] == ops;
    RunCovered(ops, ttlOf);
    DropTagsEmpties(Run(ops), tags, tag, ttlOf);
  }

  // ---- Coverage is what complete invalidations need ----

  function Later(s: State, delay: nat): State {
    s.(now := s.now + delay)
  }

  /** Dropping the tag after a delay leaves the entry alive with the tag. */
  predicate Misses(s: State, delay: nat, tag: string, k: string) {
    var s' := DropTag(Later(s, delay), tag);
    LiveEntry(s', k) && tag in s'.keys[k].tags
  }

  ghost predicate InvalidationsComplete(s: State) {
    forall delay: nat, tag, k :: !Misses(s, delay, tag, k)
  }

  lemma CoveredLater(s: State, delay: nat)
    requires Kinds(s) && Covered(s)
    ensures Kinds(Later(s, delay)) && Covered(Later(s, delay))
  {
    var s' := Later(s, delay);
    forall k, tag | LiveEntry(s', k) && tag in s'.keys[k].tags ensures CoveredBy(s', k, tag) {
      assert LiveEntry(s, k) && CoveredBy(s, k, tag);
    }
  }

  /** An entry that is not covered is missed at once, or as soon as its index has expired. */
  lemma UncoveredIsMissed(s: State, k: string, tag: string)
    requires Kinds(s) && LiveEntry(s, k) && tag in s.keys[k].tags && !CoveredBy(s, k, tag)
    ensures exists delay: nat :: Misses(s, delay, tag, k)
  {
    var i := TagKey(tag);
    var delay := if k in Members(s, tag) then Max(0, s.keys[i].until - s.now) else 0;
    assert k !in Members(Later(s, delay), tag);
    assert Misses(s, delay, tag, k);
  }

  /** The indexes cover all live entries exactly when every later tag invalidation is complete. */
  lemma CoveredExactly(s: State)
    requires Kinds(s)
    ensures Covered(s) <==> InvalidationsComplete(s)
  {
    if Covered(s) {
      forall delay: nat, tag, k ensures !Misses(s, delay, tag, k) {
        CoveredLater(s, delay);
        DropTagEmpties(Later(s, delay), tag);
      }
    }
    if InvalidationsComplete(s) {
      forall k, tag | LiveEntry(s, k) && tag in s.keys[k].tags ensures CoveredBy(s, k, tag) {
        if !CoveredBy(s, k, tag) {
          UncoveredIsMissed(s, k, tag);
        }
      }
    }
  }

  /** A write keeps all later tag invalidations complete exactly when it outlives the other live
      entries of its tags. */
  lemma PutKeepsInvalidationsComplete(s: State, key: string, value: string, ttl: nat, tags: seq<string>)
    requires Kinds(s) && InvalidationsComplete(s) && DataKey(key) && ttl > 0
    ensures InvalidationsComplete(Put(s, key, value, ttl, tags)) <==> OutlivesOthers(s, key, ttl, tags)
  {
    CoveredExactly(s);
    PutKeepsCoverageExactly(s, key, value, ttl, tags);
    PutKinds(s, key, value, ttl, tags);
    CoveredExactly(Put(s, key, value, ttl, tags));
  }

  /** Mixed lifetimes break it: a short-lived write cuts the index short, and a later invalidation
      misses the long-lived entry. */
  lemma MixedLifetimesMiss()
    ensures var written := Step(Step(EMPTY, Set("x", "", 100, ["t"])), Set("y", "", 1, ["t"]));
      var s := Step(Step(written, Tick(1)), Remove(Tags(["t"])));
      LiveEntry(s, "x") && "t" in s.keys["x"].tags
  {
    var a := Put(EMPTY, "x", "", 100, ["t"]);
    var b := Put(a, "y", "", 1, ["t"]);
    var c := Step(b, Tick(1));
    PutPointwise(EMPTY, "x", "", 100, ["t"]);
    PutPointwise(a, "y", "", 1, ["t"]);
    assert "x" != "y" && DataKey("x") && SameAt(a, b, "x");
    assert Holds(b, TagKey("t"), Index(Members(a, "t") + {"y"}, 1));
    assert Members(c, "t") == {};
    assert ["t"][..0] == [];
    assert DropTags(c, ["t"]) == DropTag(c, "t");
  }

  // ---- Precision: only what was ever written with the tag is removed ----

  ghost predicate EverTagged(ops: seq<Op>, k: string, tag: string) {
    exists i :: 0 <= i < |ops| && ops[i].Set? && ops[i].key == k && tag in ops[i].tags
  }

  lemma EverTaggedMore(ops: seq<Op>, k: string, tag: string)
    requires ops != [] && EverTagged(ops[..|ops| - 1], k, tag)
    ensures EverTagged(ops, k, tag)
  {
    var i :| 0 <= i < |ops| - 1 && ops[i].Set? && ops[i].key == k && tag in ops[i].tags;
  }

  /** Dropping tags adds no member to any index. */
  lemma {:induction false} DropTagsAddNoMembers(s: State, tags: seq<string>, tag: string)
    ensures Members(DropTags(s, tags), tag) <= Members(s, tag)
    decreases |tags|
  {
    if tags != [] {
      DropTagsAddNoMembers(s, tags[..|tags| - 1], tag);
    }
  }

  lemma {:induction false} IndexOnlyTagged(ops: seq<Op>, k: string, tag: string, ttlOf: string -> nat)
    requires forall i :: 0 <= i < |ops| ==> Disciplined(ops[i], ttlOf)
    requires k in Members(Run(ops), tag)
    ensures EverTagged(ops, k, tag)
    decreases |ops|
  {
    if ops != [] {
      var front, op := ops[..|ops| - 1], ops[|ops| - 1];
      var s := Run(front);
      assert Disciplined(op, ttlOf);
      match op {
        case Set(key, value, ttl, tags) => PutPointwise(s, key, value, ttl, tags);
          assert tag !in tags ==> SameAt(s, Run(ops), TagKey(tag));
        case Remove(Tags(tags)) => DropTagsAddNoMembers(s, tags, tag);
        case _ =>
      }
      if !(op.Set? && op.key == k && tag in op.tags) {
        assert k in Members(s, tag);
        IndexOnlyTagged(front, k, tag, ttlOf);
        EverTaggedMore(ops, k, tag);
      }
    }
  }

  /** A tag invalidation leaves every entry alone that was never written with the tag. */
  lemma TagInvalidationIsPrecise(ops: seq<Op>, tag: string, k: string, ttlOf: string -> nat)
    requires forall i :: 0 <= i < |ops| ==> Disciplined(ops[i], ttlOf)
    requires LiveEntry(Run(ops), k) && !EverTagged(ops, k, tag)
    ensures var s := DropTag(Run(ops), tag);
      LiveEntry(s, k) && s.keys[k] == Run(ops).keys[k]
  {
    RunCovered(ops, ttlOf);
    if k in Members(Run(ops), tag) {
      IndexOnlyTagged(ops, k, tag, ttlOf);
    }
  }
}
