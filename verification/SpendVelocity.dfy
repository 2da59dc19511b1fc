/** Sliding-window spend limiter (agents/src/tools/spendVelocityGuard.ts).
    Redis is a map of sorted sets with an expiry instant each. Calls are serialized, and the Redis
    commands of one clock reading run at that instant. */
module SpendVelocity {
  import opened Digits
  import opened Text

  const HOUR: nat := 60 * 60 * 1000
  const DAY: nat := 24 * HOUR
  const KEY_TTL: nat := 2 * DAY

  datatype Policy = Policy(
    maxHourlyTransactions: int,
    maxHourlyVolume: string,
    maxDailyVolume: string,
    requireBiometricAbove: string)

  datatype Entry = Entry(score: nat, member: string)

  datatype SortedSet = SortedSet(entries: seq<Entry>, expireAt: nat)

  datatype Window = Window(hourlyTransactions: nat, hourlyVolume: int, dailyVolume: int)

  datatype CheckResult = CheckResult(allowed: bool, requiresBiometric: bool, window: Window)

  /** The guard's nonce and, per user, the sorted set Redis holds. */
  datatype State = State(nonce: nat, sets: map<string, SortedSet>)

  function ToBigIntSafe(s: string): int {
    match BigIntOf(s)
    case Some(v) => v
    case None => 0
  }

  // ---- Member text ----

  function Member(at: nat, nonce: nat, amount: string): string {
    Show(at) + ":" + Show(nonce) + ":" + amount
  }

  /** `split(":")[0]` */
  function FirstSegment(s: string): string {
    s[..IndexOf(s, ':')]
  }

  /** `split(":").at(-1)` */
  function LastSegment(s: string): string
    decreases |s|
  {
    if ':' in s then LastSegment(s[IndexOf(s, ':') + 1..]) else s
  }

  /** `Number(segment)` where finite; other texts are not timestamps. */
  function NumberOf(s: string): Option<nat> {
    if s != "" && AllDigits(s) then Some(NatOf(s)) else None
  }

  /** What the amount counts as when it is checked, and once it is stored. */
  function CheckedValue(amount: string): int {
    ToBigIntSafe(amount)
  }

  function RecordedValue(amount: string): int {
    ToBigIntSafe(LastSegment(amount))
  }

  /** What is behind the last colon. */
  lemma {:induction false} LastSegmentIs(front: string, last: string)
    requires ':' !in last
    ensures LastSegment(last) == last
    ensures LastSegment(front + ":" + last) == last
    decreases |front|
  {
    hide IndexOf;
    var s := front + ":" + last;
    var i := IndexOf(s, ':');
    IndexAtMost(s, ':', |front|);
    if i < |front| {
      assert s[i + 1..] == front[i + 1..] + ":" + last;
      LastSegmentIs(front[i + 1..], last);
    } else {
      assert s[i + 1..] == last;
    }
  }

  lemma DigitsThenColon(n: nat, rest: string)
    ensures var s := Show(n) + ":" + rest;
      IndexOf(s, ':') == |Show(n)| && s[..|Show(n)|] == Show(n) && s[|Show(n)| + 1..] == rest
  {
    var s := Show(n) + ":" + rest;
    assert s[..|Show(n)|] == Show(n);
    IndexIs(s, ':', |Show(n)|);
  }

  /** The stored member gives back its timestamp and its amount. */
  lemma MemberReads(at: nat, nonce: nat, amount: string)
    ensures NumberOf(FirstSegment(Member(at, nonce, amount))) == Some(at)
    ensures LastSegment(Member(at, nonce, amount)) == LastSegment(amount)
  {
    hide Show, NatOf, IndexOf;
    var tail := Show(nonce) + ":" + amount;
    assert Member(at, nonce, amount) == Show(at) + ":" + tail;
    DigitsThenColon(at, tail);
    DigitsThenColon(nonce, amount);
    ShowRoundTrip(at);
  }

  /** Different nonces give different members, whatever else they hold. */
  lemma MemberInjective(at: nat, nonce: nat, amount: string, at': nat, nonce': nat, amount': string)
    requires Member(at, nonce, amount) == Member(at', nonce', amount')
    ensures nonce == nonce'
  {
    var tail, tail' := Show(nonce) + ":" + amount, Show(nonce') + ":" + amount';
    assert Member(at, nonce, amount) == Show(at) + ":" + tail;
    assert Member(at', nonce', amount') == Show(at') + ":" + tail';
    DigitsThenColon(at, tail);
    DigitsThenColon(at', tail');
    DigitsThenColon(nonce, amount);
    DigitsThenColon(nonce', amount');
    ShowRoundTrip(nonce);
    ShowRoundTrip(nonce');
  }

  // ---- Redis commands ----

  function SetOf(s: State, user: string): SortedSet {
    if user in s.sets then s.sets[user] else SortedSet([], 0)
  }

  /** The entries Redis still holds: none once the key has expired. */
  function Live(z: SortedSet, now: nat): seq<Entry> {
    if now < z.expireAt then z.entries else []
  }

  /** `ZREMRANGEBYSCORE key 0 cutoff` */
  function Prune(entries: seq<Entry>, cutoff: int): seq<Entry> {
    if entries == [] then []
    else
      var front, last := Prune(entries[..|entries| - 1], cutoff), entries[|entries| - 1];
      if 0 <= last.score <= cutoff then front else front + [last]
  }

  /** `ZADD key score member`: a member already present only gets the new score. */
  function ZAdd(entries: seq<Entry>, e: Entry): seq<Entry> {
    if entries == [] then [e]
    else if entries[0].member == e.member then [e] + entries[1..]
    else [entries[0]] + ZAdd(entries[1..], e)
  }

  // ---- Specification of the guard ----

  function Recorded(s: State, user: string, amount: string, at: nat): State {
    var e := Entry(at, Member(at, s.nonce, amount));
    var entries := Prune(ZAdd(Live(SetOf(s, user), at), e), at - DAY);
    State(s.nonce + 1, s.sets[user := SortedSet(entries, at + KEY_TTL)])
  }

  /** The lazy pruning every read performs. */
  function Read(s: State, user: string, now: nat): State {
    var z := SetOf(s, user);
    s.(sets := s.sets[user := SortedSet(Prune(Live(z, now), now - DAY), z.expireAt)])
  }

  function WindowOf(entries: seq<Entry>, now: nat): Window {
    if entries == [] then Window(0, 0, 0)
    else
      var w := WindowOf(entries[..|entries| - 1], now);
      Counted(w, entries[|entries| - 1].member, now)
  }

  function Counted(w: Window, member: string, now: nat): Window {
    var score := NumberOf(FirstSegment(member));
    var amount := ToBigIntSafe(LastSegment(member));
    if score.Some? && score.value >= now - HOUR
    then Window(w.hourlyTransactions + 1, w.hourlyVolume + amount, w.dailyVolume + amount)
    else w.(dailyVolume := w.dailyVolume + amount)
  }

  /** The thresholds of a policy, as numbers. */
  datatype Limits = Limits(hourlyTransactions: int, hourlyVolume: int, dailyVolume: int)

  function LimitsOf(policy: Policy): Limits {
    Limits(policy.maxHourlyTransactions, ToBigIntSafe(policy.maxHourlyVolume), ToBigIntSafe(policy.maxDailyVolume))
  }

  predicate Permits(w: Window, requested: int, limits: Limits) {
    && w.hourlyTransactions < limits.hourlyTransactions
    && w.hourlyVolume + requested <= limits.hourlyVolume
    && w.dailyVolume + requested <= limits.dailyVolume
  }

  /** One `guardSpend` call; the record may read a later clock than the check. */
  datatype Call = Call(user: string, amount: string, checkAt: nat, recordAt: nat)

  predicate Permitted(s: State, c: Call, policy: Policy) {
    var w := WindowOf(SetOf(Read(s, c.user, c.checkAt), c.user).entries, c.checkAt);
    Permits(w, CheckedValue(c.amount), LimitsOf(policy))
  }

  function Guarded(s: State, c: Call, policy: Policy): State {
    var read := Read(s, c.user, c.checkAt);
    if Permitted(s, c, policy) then Recorded(read, c.user, c.amount, c.recordAt) else read
  }

  // ---- The guard object ----

  class SpendVelocityGuard {
    var nonce: nat
    var sets: map<string, SortedSet>

    function Contents(): State
      reads this
    {
      State(nonce, sets)
    }

    constructor ()
      ensures Contents() == State(0, map[])
    {
      nonce := 0;
      sets := map[];
    }

    method RecordSpend(user: string, amount: string, at: nat)
      modifies this
      ensures Contents() == Recorded(old(Contents()), user, amount, at)
      ensures nonce == old(nonce) + 1 && user in sets && sets[user].expireAt == at + 172_800_000
    {
      var member := Member(at, nonce, amount);
      var entries := ZAdd(Live(SetOf(Contents(), user), at), Entry(at, member));
      nonce := nonce + 1;
      entries := Prune(entries, at - DAY);
      sets := sets[user := SortedSet(entries, at + KEY_TTL)];
    }

    method ReadWindow(user: string, now: nat) returns (w: Window)
      modifies this
      ensures Contents() == Read(old(Contents()), user, now)
      ensures w == WindowOf(SetOf(Contents(), user).entries, now)
    {
      hide ToBigIntSafe, NumberOf, FirstSegment, LastSegment;
      var z := SetOf(Contents(), user);
      sets := sets[user := SortedSet(Prune(Live(z, now), now - DAY), z.expireAt)];
      var entries := SetOf(Contents(), user).entries;
      w := Window(0, 0, 0);
      var i := 0;
      while i < |entries|
        invariant 0 <= i <= |entries|
        invariant w == WindowOf(entries[..i], now)
      {
        assert entries[..i + 1][..i] == entries[..i];
        var score := NumberOf(FirstSegment(entries[i].member));
        var amount := ToBigIntSafe(LastSegment(entries[i].member));
        w := w.(dailyVolume := w.dailyVolume + amount);
        if score.Some? && score.value >= now - HOUR {
          w := w.(hourlyTransactions := w.hourlyTransactions + 1, hourlyVolume := w.hourlyVolume + amount);
        }
        i := i + 1;
      }
      assert entries[..i] == entries;
    }

    method Check(user: string, amount: string, policy: Policy, now: nat) returns (r: CheckResult)
      modifies this
      ensures Contents() == Read(old(Contents()), user, now)
      ensures r.window == WindowOf(SetOf(Contents(), user).entries, now)
      ensures r.allowed <==>
        && r.window.hourlyTransactions < policy.maxHourlyTransactions
        && r.window.hourlyVolume + CheckedValue(amount) <= ToBigIntSafe(policy.maxHourlyVolume)
        && r.window.dailyVolume + CheckedValue(amount) <= ToBigIntSafe(policy.maxDailyVolume)
      ensures r.requiresBiometric <==>
                0 < ToBigIntSafe(policy.requireBiometricAbove) < CheckedValue(amount)
    {
      var w := ReadWindow(user, now);
      var requested := ToBigIntSafe(amount);
      var biometric := ToBigIntSafe(policy.requireBiometricAbove);
      var requiresBiometric := biometric > 0 && requested > biometric;
      if w.hourlyTransactions >= policy.maxHourlyTransactions {
        return CheckResult(false, requiresBiometric, w);
      }
      if w.hourlyVolume + requested > ToBigIntSafe(policy.maxHourlyVolume) {
        return CheckResult(false, requiresBiometric, w);
      }
      if w.dailyVolume + requested > ToBigIntSafe(policy.maxDailyVolume) {
        return CheckResult(false, requiresBiometric, w);
      }
      return CheckResult(true, requiresBiometric, w);
    }

    method GuardSpend(c: Call, policy: Policy) returns (recorded: bool)
      modifies this
      ensures Contents() == Guarded(old(Contents()), c, policy)
      ensures recorded <==> Permitted(old(Contents()), c, policy)
    {
      var r := Check(c.user, c.amount, policy, c.checkAt);
      if !r.allowed { return false; }
      RecordSpend(c.user, c.amount, c.recordAt);
      return true;
    }
  }

  // ---- Runs and the full spend log ----

  /** One recorded spend, as the full history would keep it; `value` is what it counts as. */
  datatype Spend = Spend(at: nat, nonce: nat, amount: string, value: int)

  function SpendOf(c: Call, nonce: nat): Spend {
    Spend(c.recordAt, nonce, c.amount, RecordedValue(c.amount))
  }

  function Run(calls: seq<Call>, policy: Policy): State {
    if calls == [] then State(0, map[])
    else Guarded(Run(calls[..|calls| - 1], policy), calls[|calls| - 1], policy)
  }

  /** Every spend ever recorded for the user, in order. */
  function Log(calls: seq<Call>, policy: Policy, user: string): seq<Spend> {
    if calls == [] then []
    else
      var front, c := calls[..|calls| - 1], calls[|calls| - 1];
      var before := Run(front, policy);
      if c.user == user && Permitted(before, c, policy)
      then Log(front, policy, user) + [SpendOf(c, before.nonce)]
      else Log(front, policy, user)
  }

  /** Clock readings never go back, across calls or within one. */
  predicate WellTimed(calls: seq<Call>) {
    && (forall i :: 0 <= i < |calls| ==> calls[i].checkAt <= calls[i].recordAt)
    && (forall i, j :: 0 <= i < j < |calls| ==> calls[i].recordAt <= calls[j].checkAt)
  }

  /** The stored amount is neither negative nor more than what the check counted. */
  predicate SafeAmount(amount: string) {
    0 <= RecordedValue(amount) <= CheckedValue(amount)
  }

  predicate SafeAmounts(calls: seq<Call>) {
    forall i :: 0 <= i < |calls| ==> SafeAmount(calls[i].amount)
  }

  /** Spend recorded in `[from, to]`. */
  function Volume(log: seq<Spend>, from: int, to: int): int {
    if log == [] then 0
    else
      var last := log[|log| - 1];
      Volume(log[..|log| - 1], from, to) + if from <= last.at <= to then last.value else 0
  }

  /** Number of spends recorded in `[from, to]`. */
  function Count(log: seq<Spend>, from: int, to: int): nat {
    if log == [] then 0
    else Count(log[..|log| - 1], from, to) + if from <= log[|log| - 1].at <= to then 1 else 0
  }

  /** The totals the full log gives for the windows that end at `now`. */
  function LogWindow(log: seq<Spend>, now: nat): Window {
    Window(Count(log, now - HOUR, now), Volume(log, now - HOUR, now), Volume(log, now - DAY + 1, now))
  }

  // ---- The stored set is the unexpired end of the log ----

  function EntryOf(spend: Spend): Entry {
    Entry(spend.at, Member(spend.at, spend.nonce, spend.amount))
  }

  function Encode(log: seq<Spend>): (entries: seq<Entry>)
    ensures |entries| == |log| && forall i :: 0 <= i < |log| ==> entries[i] == EntryOf(log[i])
  {
    seq(|log|, i requires 0 <= i < |log| => EntryOf(log[i]))
  }

  predicate Sorted(log: seq<Spend>) {
    forall i, j :: 0 <= i < j < |log| ==> log[i].at <= log[j].at
  }

  /** The first `k` spends of the log have been dropped, all of them at least a day old. */
  ghost predicate Holds(entries: seq<Entry>, log: seq<Spend>, k: nat, now: nat) {
    && k <= |log|
    && entries == Encode(log[k..])
    && forall i :: 0 <= i < k ==> log[i].at <= now - DAY
  }

  ghost predicate SetMirrors(z: SortedSet, nonce: nat, log: seq<Spend>, now: nat) {
    && Sorted(log)
    && (forall i :: 0 <= i < |log| ==> log[i].at <= now && log[i].nonce < nonce)
    && (forall i :: 0 <= i < |log| ==> log[i].at + KEY_TTL <= z.expireAt)
    && exists k: nat :: Holds(z.entries, log, k, now)
  }

  ghost predicate Mirrors(s: State, user: string, log: seq<Spend>, now: nat) {
    SetMirrors(SetOf(s, user), s.nonce, log, now)
  }

  lemma {:induction false} PruneAll(entries: seq<Entry>, cutoff: int)
    requires forall i :: 0 <= i < |entries| ==> entries[i].score <= cutoff
    ensures Prune(entries, cutoff) == []
  {
    if entries != [] {
      PruneAll(entries[..|entries| - 1], cutoff);
    }
  }

  predicate Chronological(entries: seq<Entry>) {
    forall i, j :: 0 <= i < j < |entries| ==> entries[i].score <= entries[j].score
  }

  /** Pruning a chronological set drops a prefix. */
  lemma {:induction false} PruneDropsPrefix(entries: seq<Entry>, cutoff: int) returns (k: nat)
    requires Chronological(entries)
    ensures k <= |entries| && Prune(entries, cutoff) == entries[k..]
    ensures forall i :: 0 <= i < |entries| ==> (i < k <==> entries[i].score <= cutoff)
  {
    if entries == [] {
      return 0;
    }
    var front, last := entries[..|entries| - 1], entries[|entries| - 1];
    if last.score <= cutoff {
      PruneAll(entries, cutoff);
      return |entries|;
    }
    k := PruneDropsPrefix(front, cutoff);
    assert entries[k..] == front[k..] + [last];
  }

  /** Pruning the end of a log leaves a shorter end of it. */
  lemma PruneEncoded(log: seq<Spend>, j: nat, cutoff: int) returns (k: nat)
    requires Sorted(log) && j <= |log|
    ensures j <= k <= |log| && Prune(Encode(log[j..]), cutoff) == Encode(log[k..])
    ensures forall i :: j <= i < |log| ==> (i < k <==> log[i].at <= cutoff)
  {
    hide Prune, Member;
    var entries := Encode(log[j..]);
    assert forall i :: 0 <= i < |entries| ==> entries[i].score == log[j + i].at;
    var m := PruneDropsPrefix(entries, cutoff);
    k := j + m;
    assert entries[m..] == Encode(log[k..]);
    forall i | j <= i < |log| ensures i < k <==> log[i].at <= cutoff {
      assert entries[i - j].score == log[i].at;
    }
  }

  lemma {:induction false} ZAddAppends(entries: seq<Entry>, e: Entry)
    requires forall i :: 0 <= i < |entries| ==> entries[i].member != e.member
    ensures ZAdd(entries, e) == entries + [e]
  {
    if entries != [] {
      ZAddAppends(entries[1..], e);
    }
  }

  /** Reading: what survives expiry and pruning is exactly the last day of the log. */
  lemma LiveIsLastDay(z: SortedSet, nonce: nat, log: seq<Spend>, before: nat, now: nat) returns (k: nat)
    requires SetMirrors(z, nonce, log, before) && before <= now
    ensures Holds(Prune(Live(z, now), now - DAY), log, k, now)
    ensures forall i :: k <= i < |log| ==> log[i].at > now - DAY
  {
    var j: nat :| Holds(z.entries, log, j, before);
    if now < z.expireAt {
      k := PruneEncoded(log, j, now - DAY);
    } else {
      k := |log|;
      assert log[k..] == [];
    }
  }

  lemma ReadMirrors(s: State, user: string, log: seq<Spend>, before: nat, now: nat)
    requires Mirrors(s, user, log, before) && before <= now
    ensures Mirrors(Read(s, user, now), user, log, now)
  {
    var k := LiveIsLastDay(SetOf(s, user), s.nonce, log, before, now);
  }

  lemma MembersDiffer(log: seq<Spend>, spend: Spend)
    requires forall i :: 0 <= i < |log| ==> log[i].nonce < spend.nonce
    ensures forall i :: 0 <= i < |log| ==> Encode(log)[i].member != EntryOf(spend).member
  {
    forall i | 0 <= i < |log| ensures Encode(log)[i].member != EntryOf(spend).member {
      if Encode(log)[i].member == EntryOf(spend).member {
        MemberInjective(log[i].at, log[i].nonce, log[i].amount, spend.at, spend.nonce, spend.amount);
      }
    }
  }

  /** Adding a spend with a fresh nonce and pruning keeps the end of the extended log. */
  lemma AddThenPrune(entries: seq<Entry>, log: seq<Spend>, spend: Spend, k: nat) returns (m: nat)
    requires Holds(entries, log, k, spend.at)
    requires Sorted(log + [spend]) && forall i :: 0 <= i < |log| ==> log[i].nonce < spend.nonce
    ensures Holds(Prune(ZAdd(entries, EntryOf(spend)), spend.at - DAY), log + [spend], m, spend.at)
  {
    var log' := log + [spend];
    MembersDiffer(log[k..], spend);
    ZAddAppends(entries, EntryOf(spend));
    assert log'[k..] == log[k..] + [spend];
    assert Encode(log'[k..]) == Encode(log[k..]) + [EntryOf(spend)];
    m := PruneEncoded(log', k, spend.at - DAY);
  }

  lemma RecordedSet(s: State, c: Call)
    ensures var s', spend := Recorded(s, c.user, c.amount, c.recordAt), SpendOf(c, s.nonce);
      && s'.nonce == s.nonce + 1
      && SetOf(s', c.user)
         == SortedSet(Prune(ZAdd(Live(SetOf(s, c.user), c.recordAt), EntryOf(spend)), c.recordAt - DAY),
                      c.recordAt + KEY_TTL)
  {
  }

  /** Before pruning, too, what Redis still holds is an end of the log. */
  lemma LiveIsEnd(z: SortedSet, nonce: nat, log: seq<Spend>, before: nat, now: nat) returns (k: nat)
    requires SetMirrors(z, nonce, log, before) && before <= now
    ensures Holds(Live(z, now), log, k, now)
  {
    hide EntryOf;
    var j: nat :| Holds(z.entries, log, j, before);
    k := if now < z.expireAt then j else |log|;
  }

  lemma RecordMirrors(s: State, log: seq<Spend>, before: nat, c: Call)
    requires Mirrors(s, c.user, log, before) && before <= c.recordAt
    ensures Mirrors(Recorded(s, c.user, c.amount, c.recordAt), c.user, log + [SpendOf(c, s.nonce)], c.recordAt)
  {
    RecordedSet(s, c);
    hide Prune, ZAdd, EntryOf, Encode, RecordedValue, Live, Recorded, Holds;
    var z, spend := SetOf(s, c.user), SpendOf(c, s.nonce);
    var k := LiveIsEnd(z, s.nonce, log, before, c.recordAt);
    var m := AddThenPrune(Live(z, c.recordAt), log, spend, k);
  }

  /** Time of the last clock reading of a run. */
  function LastTime(calls: seq<Call>): nat {
    if calls == [] then 0 else calls[|calls| - 1].recordAt
  }

  lemma FrontWellTimed(calls: seq<Call>)
    requires WellTimed(calls) && calls != []
    ensures var front, c := calls[..|calls| - 1], calls[|calls| - 1];
      WellTimed(front) && LastTime(front) <= c.checkAt <= c.recordAt
  {
    var front := calls[..|calls| - 1];
    assert forall i :: 0 <= i < |front| ==> front[i] == calls[i];
  }

  /** After every run the stored set mirrors the user's log. */
  lemma {:induction false} RunMirrors(calls: seq<Call>, policy: Policy, user: string)
    requires WellTimed(calls)
    ensures Mirrors(Run(calls, policy), user, Log(calls, policy, user), LastTime(calls))
  {
    if calls == [] {
      assert Holds(SetOf(Run(calls, policy), user).entries, [], 0, 0);
    } else {
      var front, c := calls[..|calls| - 1], calls[|calls| - 1];
      FrontWellTimed(calls);
      RunMirrors(front, policy, user);
      var s, log := Run(front, policy), Log(front, policy, user);
      if c.user == user {
        ReadMirrors(s, user, log, LastTime(front), c.checkAt);
        var read := Read(s, user, c.checkAt);
        if Permitted(s, c, policy) {
          RecordMirrors(read, log, c.checkAt, c);
        } else {
          MirrorsLater(read, user, log, c.checkAt, c.recordAt);
        }
      } else {
        MirrorsLater(s, user, log, LastTime(front), c.recordAt);
        var s' := Guarded(s, c, policy);
        assert SetOf(s', user) == SetOf(s, user) && s'.nonce >= s.nonce;
        var k: nat :| Holds(SetOf(s, user).entries, log, k, c.recordAt);
        assert Holds(SetOf(s', user).entries, log, k, c.recordAt);
      }
    }
  }

  lemma MirrorsLater(s: State, user: string, log: seq<Spend>, before: nat, now: nat)
    requires Mirrors(s, user, log, before) && before <= now
    ensures Mirrors(s, user, log, now)
  {
    var k: nat :| Holds(SetOf(s, user).entries, log, k, before);
    assert Holds(SetOf(s, user).entries, log, k, now);
  }

  // ---- Window totals ----

  predicate Valued(log: seq<Spend>) {
    forall i :: 0 <= i < |log| ==> log[i].value == RecordedValue(log[i].amount)
  }

  lemma {:induction false} LogValued(calls: seq<Call>, policy: Policy, user: string)
    ensures Valued(Log(calls, policy, user))
  {
    if calls != [] {
      LogValued(calls[..|calls| - 1], policy, user);
    }
  }

  /** The loop over stored members computes the totals of the spends they encode. */
  lemma {:induction false} WindowOfEncoded(log: seq<Spend>, now: nat)
    requires forall i :: 0 <= i < |log| ==> now - DAY < log[i].at <= now
    requires Valued(log)
    ensures WindowOf(Encode(log), now) == LogWindow(log, now)
  {
    if log != [] {
      var front, last := log[..|log| - 1], log[|log| - 1];
      assert Encode(log)[..|log| - 1] == Encode(front);
      WindowOfEncoded(front, now);
      MemberReads(last.at, last.nonce, last.amount);
    }
  }

  /** Spends outside the window contribute nothing. */
  lemma {:induction false} OldSpendsDoNotCount(log: seq<Spend>, k: nat, from: int, to: int)
    requires k <= |log| && forall i :: 0 <= i < k ==> log[i].at < from
    ensures Volume(log, from, to) == Volume(log[k..], from, to)
    ensures Count(log, from, to) == Count(log[k..], from, to)
    decreases |log|
  {
    if log != [] {
      var front := log[..|log| - 1];
      if k < |log| {
        OldSpendsDoNotCount(front, k, from, to);
        assert log[k..][..|log| - k - 1] == front[k..];
      } else {
        OldSpendsDoNotCount(front, k - 1, from, to);
        assert front[k - 1..] == [] && log[k..] == [];
      }
    }
  }

  /** The totals a check reads are those of the full spend log. */
  lemma CheckReadsFullLog(calls: seq<Call>, policy: Policy, user: string, now: nat)
    requires WellTimed(calls) && LastTime(calls) <= now
    ensures WindowOf(SetOf(Read(Run(calls, policy), user, now), user).entries, now)
         == LogWindow(Log(calls, policy, user), now)
  {
    var s, log := Run(calls, policy), Log(calls, policy, user);
    RunMirrors(calls, policy, user);
    LogValued(calls, policy, user);
    var k := LiveIsLastDay(SetOf(s, user), s.nonce, log, LastTime(calls), now);
    LastDayGivesWindow(log, k, now);
  }

  lemma LastDayGivesWindow(log: seq<Spend>, k: nat, now: nat)
    requires k <= |log| && Valued(log)
    requires forall i :: 0 <= i < k ==> log[i].at <= now - DAY
    requires forall i :: k <= i < |log| ==> now - DAY < log[i].at <= now
    ensures WindowOf(Encode(log[k..]), now) == LogWindow(log, now)
  {
    WindowOfEncoded(log[k..], now);
    OldSpendsDoNotCount(log, k, now - HOUR, now);
    OldSpendsDoNotCount(log, k, now - DAY + 1, now);
  }

  // ---- The limits hold in every window of every run ----

  predicate SafeLog(log: seq<Spend>) {
    forall i :: 0 <= i < |log| ==> log[i].value >= 0
  }

  /** A later window sees no more of an older log. */
  lemma {:induction false} LaterWindowIsSmaller(log: seq<Spend>, from: int, to: int, from': int, to': int)
    requires SafeLog(log) && from <= from'
    requires forall i :: 0 <= i < |log| ==> log[i].at <= to
    ensures 0 <= Volume(log, from', to') <= Volume(log, from, to)
    ensures Count(log, from', to') <= Count(log, from, to)
  {
    if log != [] {
      LaterWindowIsSmaller(log[..|log| - 1], from, to, from', to');
    }
  }

  predicate WithinLimitsAt(log: seq<Spend>, limits: Limits, t: nat) {
    && Volume(log, t - DAY + 1, t) <= Max(0, limits.dailyVolume)
    && Volume(log, t - HOUR, t) <= Max(0, limits.hourlyVolume)
    && Count(log, t - HOUR, t) <= Max(0, limits.hourlyTransactions)
  }

  ghost predicate WithinLimits(log: seq<Spend>, limits: Limits) {
    forall t: nat :: WithinLimitsAt(log, limits, t)
  }

  lemma Appended(log: seq<Spend>, spend: Spend, from: int, to: int)
    ensures Volume(log + [spend], from, to)
         == Volume(log, from, to) + if from <= spend.at <= to then spend.value else 0
    ensures Count(log + [spend], from, to)
         == Count(log, from, to) + if from <= spend.at <= to then 1 else 0
  {
    assert (log + [spend])[..|log|] == log;
  }

  lemma PermittedKeepsLimits(
      log: seq<Spend>, spend: Spend, checkAt: nat, requested: int, limits: Limits, t: nat)
    requires SafeLog(log) && WithinLimitsAt(log, limits, t)
    requires forall i :: 0 <= i < |log| ==> log[i].at <= checkAt
    requires checkAt <= spend.at && 0 <= spend.value <= requested
    requires Permits(LogWindow(log, checkAt), requested, limits)
    ensures WithinLimitsAt(log + [spend], limits, t)
  {
    Appended(log, spend, t - DAY + 1, t);
    Appended(log, spend, t - HOUR, t);
    if t >= spend.at {
      LaterWindowIsSmaller(log, checkAt - DAY + 1, checkAt, t - DAY + 1, t);
      LaterWindowIsSmaller(log, checkAt - HOUR, checkAt, t - HOUR, t);
    }
  }

  /** Every serialized run stays within the limits of its policy. */
  lemma {:induction false} RunWithinLimits(calls: seq<Call>, policy: Policy, user: string)
    requires WellTimed(calls) && SafeAmounts(calls)
    ensures WithinLimits(Log(calls, policy, user), LimitsOf(policy))
    ensures SafeLog(Log(calls, policy, user))
  {
    if calls != [] {
      var front, c := calls[..|calls| - 1], calls[|calls| - 1];
      FrontWellTimed(calls);
      assert SafeAmount(c.amount);
      RunWithinLimits(front, policy, user);
      var log := Log(front, policy, user);
      if c.user == user && Permitted(Run(front, policy), c, policy) {
        RunMirrors(front, policy, user);
        CheckReadsFullLog(front, policy, user, c.checkAt);
        var spend := SpendOf(c, Run(front, policy).nonce);
        forall t: nat ensures WithinLimitsAt(log + [spend], LimitsOf(policy), t) {
          PermittedKeepsLimits(log, spend, c.checkAt, CheckedValue(c.amount), LimitsOf(policy), t);
        }
      }
    }
  }

  /** Amounts and limits are read as integers; any other text counts as zero. */
  lemma TextMeans(s: string, n: int)
    ensures BigIntOf(s) == Some(n) ==> ToBigIntSafe(s) == n
    ensures BigIntOf(s) == None ==> ToBigIntSafe(s) == 0
    ensures ToBigIntSafe(ShowInt(n)) == n
  {
    ShowIntRoundTrip(n);
  }

  /** At every instant `t` of every serialized run, the spend of the day that ends at `t` is within the
      daily volume of the policy, and the spend and the number of spends of the hour that ends at `t` are
      within the hourly ones. */
  lemma LimitsAlwaysHold(calls: seq<Call>, policy: Policy, user: string, t: nat)
    requires WellTimed(calls) && SafeAmounts(calls)
    ensures var log := Log(calls, policy, user);
      && Volume(log, t - 86_400_000 + 1, t) <= Max(0, ToBigIntSafe(policy.maxDailyVolume))
      && Volume(log, t - 3_600_000, t) <= Max(0, ToBigIntSafe(policy.maxHourlyVolume))
      && Count(log, t - 3_600_000, t) <= Max(0, policy.maxHourlyTransactions)
  {
    RunWithinLimits(calls, policy, user);
    assert WithinLimitsAt(Log(calls, policy, user), LimitsOf(policy), t);
  }

  /** The same for a policy that was written with numbers. */
  lemma LimitsInNumbers(calls: seq<Call>, policy: Policy, user: string, t: nat, hourly: nat, daily: nat)
    requires WellTimed(calls) && SafeAmounts(calls)
    requires policy.maxHourlyVolume == Show(hourly) && policy.maxDailyVolume == Show(daily)
    ensures var log := Log(calls, policy, user);
      && Volume(log, t - 86_400_000 + 1, t) <= daily
      && Volume(log, t - 3_600_000, t) <= hourly
      && Count(log, t - 3_600_000, t) <= Max(0, policy.maxHourlyTransactions)
  {
    LimitsAlwaysHold(calls, policy, user, t);
    TextMeans("", hourly);
    TextMeans("", daily);
  }

  // ---- Exactly which amount texts are safe ----

  /** A text with a colon is checked as zero but stored as its last segment. */
  lemma CheckedEqualsRecorded(amount: string)
    ensures CheckedValue(amount) == RecordedValue(amount) <==> ':' !in amount || RecordedValue(amount) == 0
    ensures ':' in amount ==> CheckedValue(amount) == 0
  {
    if ':' in amount {
      BigIntRejects(amount, ':');
    }
  }

  const ZERO_POLICY := Policy(10, "0", "0", "0")

  lemma ZeroPolicyLimits()
    ensures LimitsOf(ZERO_POLICY) == Limits(10, 0, 0)
  {
    assert "0" == Show(0);
    ShowIntRoundTrip(0);
  }

  lemma PlainDigits(s: string)
    requires AllDigits(s)
    ensures CheckedValue(s) == RecordedValue(s)
  {
    CheckedEqualsRecorded(s);
  }

  lemma LogGrows(calls: seq<Call>, c: Call, policy: Policy)
    requires WellTimed(calls) && LastTime(calls) <= c.checkAt
    ensures var log := Log(calls, policy, c.user);
      Log(calls + [c], policy, c.user) ==
        if Permits(LogWindow(log, c.checkAt), CheckedValue(c.amount), LimitsOf(policy))
        then log + [SpendOf(c, Run(calls, policy).nonce)] else log
  {
    assert (calls + [c])[..|calls|] == calls;
    CheckReadsFullLog(calls, policy, c.user, c.checkAt);
  }

  /** A call is recorded exactly when the windows of the full log leave room for it under the policy. */
  lemma LogExtends(calls: seq<Call>, c: Call, policy: Policy)
    requires WellTimed(calls) && LastTime(calls) <= c.checkAt
    ensures var log, now, amount := Log(calls, policy, c.user), c.checkAt, CheckedValue(c.amount);
      Log(calls + [c], policy, c.user) ==
        if && Count(log, now - 3_600_000, now) + 1 <= policy.maxHourlyTransactions
           && Volume(log, now - 3_600_000, now) + amount <= ToBigIntSafe(policy.maxHourlyVolume)
           && Volume(log, now - 86_400_000 + 1, now) + amount <= ToBigIntSafe(policy.maxDailyVolume)
        then log + [Spend(c.recordAt, Run(calls, policy).nonce, c.amount, RecordedValue(c.amount))]
        else log
  {
    hide Log, Volume, Count, CheckedValue, RecordedValue, ToBigIntSafe, Run;
    LogGrows(calls, c, policy);
  }

  /** The same for numbers as limits and as amount. */
  lemma LogExtendsInNumbers(calls: seq<Call>, c: Call, policy: Policy, hourly: nat, daily: nat, amount: nat)
    requires WellTimed(calls) && LastTime(calls) <= c.checkAt && c.amount == Show(amount)
    requires policy.maxHourlyVolume == Show(hourly) && policy.maxDailyVolume == Show(daily)
    ensures var log, now := Log(calls, policy, c.user), c.checkAt;
      Log(calls + [c], policy, c.user) ==
        if && Count(log, now - 3_600_000, now) + 1 <= policy.maxHourlyTransactions
           && Volume(log, now - 3_600_000, now) + amount <= hourly
           && Volume(log, now - 86_400_000 + 1, now) + amount <= daily
        then log + [Spend(c.recordAt, Run(calls, policy).nonce, c.amount, amount)]
        else log
  {
    LogExtends(calls, c, policy);
    TextMeans("", hourly);
    TextMeans("", daily);
    PrintedIsSafe(amount);
  }

  /** A call of one user never shows in the log of another. */
  lemma OtherUsersLog(calls: seq<Call>, c: Call, policy: Policy, user: string)
    requires c.user != user
    ensures Log(calls + [c], policy, user) == Log(calls, policy, user)
  {
    assert (calls + [c])[..|calls|] == calls;
  }

  lemma VolumeOfOne(spend: Spend, from: int, to: int)
    ensures Volume([spend], from, to) == if from <= spend.at <= to then spend.value else 0
    ensures Count([spend], from, to) <= 1
  {
    assert [spend][..0] == [];
  }

  lemma VolumeOfTwo(first: Spend, second: Spend)
    requires first.at == 0 && second.at == 1
    ensures Volume([first] + [second], 1, DAY) == second.value
  {
    assert ([first] + [second])[..1] == [first];
    VolumeOfOne(first, 1, DAY);
  }

  /** Every unsafe amount breaks the daily limit in some run whose other amounts are plain numbers. */
  lemma UnsafeAmountBreaksLimits(amount: string) returns (calls: seq<Call>, t: nat)
    requires !SafeAmount(amount)
    ensures WellTimed(calls)
    ensures forall i :: 0 <= i < |calls| ==> calls[i].amount == amount || SafeAmount(calls[i].amount)
    ensures !WithinLimitsAt(Log(calls, ZERO_POLICY, "u"), LimitsOf(ZERO_POLICY), t)
  {
    ZeroPolicyLimits();
    CheckedEqualsRecorded(amount);
    var c := Call("u", amount, 0, 0);
    FirstIsRecorded(c);
    if RecordedValue(amount) > 0 {
      calls, t := [c], 0;
      VolumeOfOne(SpendOf(c, 0), t - DAY + 1, t);
    } else {
      t := DAY;
      calls := RefundRun(c);
    }
  }

  lemma FirstIsRecorded(c: Call)
    requires CheckedValue(c.amount) <= 0
    ensures Log([c], ZERO_POLICY, c.user) == [SpendOf(c, 0)]
  {
    ZeroPolicyLimits();
    LogGrows([], c, ZERO_POLICY);
    assert [] + [c] == [c];
  }

  lemma PrintedIsSafe(n: nat)
    ensures SafeAmount(Show(n)) && CheckedValue(Show(n)) == RecordedValue(Show(n)) == n
  {
    ShowIntRoundTrip(n);
    PlainDigits(Show(n));
  }

  /** Right after a single spend, an amount that brings the total back to zero is permitted. */
  lemma OffsetIsRecorded(c: Call, d: Call, policy: Policy, first: Spend)
    requires LimitsOf(policy) == Limits(10, 0, 0)
    requires c.checkAt == c.recordAt == 0 && d.checkAt == 1 && c.user == d.user
    requires Log([c], policy, c.user) == [first] && first.at == 0
    requires first.value + CheckedValue(d.amount) == 0
    ensures Log([c] + [d], policy, c.user) == [first] + [SpendOf(d, Run([c], policy).nonce)]
  {
    var now := d.checkAt;
    VolumeOfOne(first, now - HOUR, now);
    VolumeOfOne(first, now - DAY + 1, now);
    LogGrows([c], d, policy);
  }

  /** A negative amount makes room that outlives it: a day later only the other spend is left. */
  lemma RefundRun(c: Call) returns (calls: seq<Call>)
    requires c == Call("u", c.amount, 0, 0) && RecordedValue(c.amount) < 0
    requires Log([c], ZERO_POLICY, "u") == [SpendOf(c, 0)]
    ensures WellTimed(calls)
    ensures forall i :: 0 <= i < |calls| ==> calls[i] == c || SafeAmount(calls[i].amount)
    ensures !WithinLimitsAt(Log(calls, ZERO_POLICY, "u"), LimitsOf(ZERO_POLICY), DAY)
  {
    var policy, first, n := ZERO_POLICY, SpendOf(c, 0), -RecordedValue(c.amount);
    PrintedIsSafe(n);
    var d := Call("u", Show(n), 1, 1);
    calls := [c] + [d];
    ZeroPolicyLimits();
    OffsetIsRecorded(c, d, policy, first);
    VolumeOfTwo(first, SpendOf(d, Run([c], policy).nonce));
  }

  /** `0:5` is checked as 0 and stored as 5. */
  lemma ColonAmountIsUnsafe()
    ensures CheckedValue("0:5") == 0 && RecordedValue("0:5") == 5 && !SafeAmount("0:5")
  {
    var amount := "0:5";
    assert amount[1] == ':';
    IndexIs(amount, ':', 1);
    assert amount[2..] == "5" == Show(5);
    ShowIntRoundTrip(5);
    CheckedEqualsRecorded(amount);
  }

  /** With a daily and an hourly limit of 0, one call with that text spends 5. */
  lemma ColonAmountBreaksLimits()
    ensures var call := Call("u", "0:5", 0, 0);
      WellTimed([call]) && !WithinLimitsAt(Log([call], ZERO_POLICY, "u"), LimitsOf(ZERO_POLICY), 0)
  {
    var call := Call("u", "0:5", 0, 0);
    ColonAmountIsUnsafe();
    ZeroPolicyLimits();
    FirstIsRecorded(call);
    VolumeOfOne(SpendOf(call, 0), 1 - DAY, 0);
  }
}
