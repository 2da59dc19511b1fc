/** Price negotiation with a merchant (agents/buyer-agent/src/negotiation/A2ANegotiator.ts).
    Offers carry their amounts as numbers; a merchant's counter arrives as text. The merchant is whatever
    sequence of replies it gives; transport and signatures show up only in them. */
module Negotiation {
  import opened Digits
  import opened Text

  datatype Offer = Offer(price: int, maxBudget: int)

  /** A counter-offer text: missing or empty, no integer, or an amount. */
  datatype Counter = Absent | Malformed | Amount(stroops: int)

  function CounterOf(text: Option<string>): Counter {
    if text.None? || text.value == "" then Absent
    else match BigIntOf(text.value)
      case None => Malformed
      case Some(n) => Amount(n)
  }

  datatype Reply =
    | TransportError
    | BadSignature
    | Response(accepted: bool, counterText: Option<string>)

  /** `Thrown` is the SyntaxError of a malformed counter. */
  datatype Status =
    | Accepted(price: int)
    | Rejected(lastCounter: Counter)
    | SignatureInvalid
    | TransportFailed
    | MaxRoundsExceeded(lastCounter: Counter)
    | Thrown

  datatype Played = Played(status: Status, sent: seq<Offer>)

  // ---- One counter-offer ----

  /** BigInt division by two: toward zero. */
  function HalfTowardZero(d: int): int {
    if d >= 0 then d / 2 else -((-d) / 2)
  }

  function NextPrice(current: int, counter: int): int {
    current + HalfTowardZero(counter - current)
  }

  datatype Countered = NoOffer | Next(offer: Offer) | Throws

  function BuildCounterOffer(previous: Offer, counter: Counter): Countered {
    match counter
    case Absent => NoOffer
    case Malformed => Throws
    case Amount(c) =>
      if c > previous.maxBudget then NoOffer
      else Next(previous.(price := NextPrice(previous.price, c)))
  }

  // ---- The whole negotiation ----

  /** What one reply leads to: the end of the negotiation, or the next offer. */
  datatype Reaction = End(status: Status) | Continue(offer: Offer)

  function React(current: Offer, reply: Reply): Reaction {
    match reply
    case TransportError => End(TransportFailed)
    case BadSignature => End(SignatureInvalid)
    case Response(accepted, text) =>
      if accepted then End(Accepted(current.price))
      else
        var counter := CounterOf(text);
        match BuildCounterOffer(current, counter)
        case NoOffer => End(Rejected(counter))
        case Throws => End(Thrown)
        case Next(offer) => Continue(offer)
  }

  /** The counter a reply carries. */
  function CounterIn(reply: Reply): Counter {
    if reply.Response? then CounterOf(reply.counterText) else Absent
  }

  /** A negotiation from `current` on, with one reply for each round that is left. */
  function Play(current: Offer, lastCounter: Counter, replies: seq<Reply>): Played
    decreases |replies|
  {
    if replies == [] then Played(MaxRoundsExceeded(lastCounter), [])
    else
      match React(current, replies[0])
      case End(status) => Played(status, [current])
      case Continue(offer) =>
        var rest := Play(offer, CounterIn(replies[0]), replies[1..]);
        Played(rest.status, [current] + rest.sent)
  }

  /** A negotiation that already sent some offers and goes on like `p`. */
  function Resumed(sent: seq<Offer>, p: Played): Played {
    Played(p.status, sent + p.sent)
  }

  lemma PlayOneRound(sent: seq<Offer>, current: Offer, lastCounter: Counter, replies: seq<Reply>, round: nat)
    requires round < |replies|
    ensures Resumed(sent, Play(current, lastCounter, replies[round..])) ==
      match React(current, replies[round])
      case End(status) => Played(status, sent + [current])
      case Continue(offer) =>
        Resumed(sent + [current], Play(offer, CounterIn(replies[round]), replies[round + 1..]))
  {
    var left := replies[round..];
    assert left[0] == replies[round] && left[1..] == replies[round + 1..];
    if React(current, replies[round]).Continue? {
      var rest := Play(React(current, replies[round]).offer, CounterIn(replies[round]), left[1..]);
      assert sent + ([current] + rest.sent) == (sent + [current]) + rest.sent;
    }
  }

  /** The loop of `negotiate`; `replies` are the merchant's answers in the rounds it is asked. */
  method Negotiate(initial: Offer, maxRounds: int, replies: seq<Reply>) returns (played: Played, round: nat)
    requires |replies| == Max(0, maxRounds)
    ensures played == Play(initial, Absent, replies)
    ensures round == |played.sent| <= Max(0, maxRounds)
  {
    var current, sent: seq<Offer>, lastCounter: Counter := initial, [], Absent;
    round := 0;
    while round < maxRounds
      invariant round == |sent| <= |replies|
      invariant Play(initial, Absent, replies) == Resumed(sent, Play(current, lastCounter, replies[round..]))
    {
      var reply := replies[round];
      PlayOneRound(sent, current, lastCounter, replies, round);
      round := round + 1;
      sent := sent + [current];
      var status, next := RoundEnds(current, reply);
      if status.Some? { return Played(status.value, sent), round; }
      lastCounter := CounterIn(reply);
      current := next;
    }
    return Played(MaxRoundsExceeded(lastCounter), sent), round;
  }

  /** The body of one round after the offer was sent. */
  method RoundEnds(current: Offer, reply: Reply) returns (status: Option<Status>, next: Offer)
    ensures status.Some? <==> React(current, reply).End?
    ensures status.Some? ==> React(current, reply) == End(status.value)
    ensures status.None? ==> React(current, reply) == Continue(next)
  {
    next := current;
    match reply {
      case TransportError => return Some(TransportFailed), next;
      case BadSignature => return Some(SignatureInvalid), next;
      case Response(accepted, text) =>
        if accepted { return Some(Accepted(current.price)), next; }
        var counter := CounterOf(text);
        var countered := BuildCounterOffer(current, counter);
        match countered {
          case NoOffer => return Some(Rejected(counter)), next;
          case Throws => return Some(Thrown), next;
          case Next(offer) => return None, offer;
        }
    }
  }

  // ---- Budget ----

  predicate WithinBudget(o: Offer) {
    o.price <= o.maxBudget
  }

  predicate AllWithinBudget(sent: seq<Offer>) {
    forall i :: 0 <= i < |sent| ==> WithinBudget(sent[i])
  }

  predicate Between(a: int, x: int, b: int) {
    a <= x <= b || b <= x <= a
  }

  /** A counter-offer lies between the current offer and the counter, never passes the counter, moves
      unless they are at most one apart, and keeps the budget. */
  lemma CounterOfferBetween(previous: Offer, counter: Counter)
    requires BuildCounterOffer(previous, counter).Next?
    ensures var next := BuildCounterOffer(previous, counter).offer;
      && counter.Amount? && counter.stroops <= previous.maxBudget == next.maxBudget
      && Between(previous.price, next.price, counter.stroops)
      && (next.price == previous.price <==> -1 <= counter.stroops - previous.price <= 1)
      && (WithinBudget(previous) ==> WithinBudget(next))
  {
  }

  /** Against any merchant: all offers stay within budget, an accepted price is the last one sent, and
      the rounds are respected. */
  lemma {:induction false} PlayKeepsBudget(current: Offer, lastCounter: Counter, replies: seq<Reply>)
    requires WithinBudget(current)
    ensures var p := Play(current, lastCounter, replies);
      && |p.sent| <= |replies|
      && AllWithinBudget(p.sent)
      && (p.status.Accepted? ==> p.sent != [] && p.status.price == p.sent[|p.sent| - 1].price)
    decreases |replies|
  {
    if replies != [] && React(current, replies[0]).Continue? {
      CounterOfferBetween(current, CounterIn(replies[0]));
      PlayKeepsBudget(React(current, replies[0]).offer, CounterIn(replies[0]), replies[1..]);
    }
  }

  /** No merchant can draw an offer over the budget exactly when the initial offer is within it. */
  lemma BudgetExact(initial: Offer)
    ensures WithinBudget(initial) <==>
      forall replies :: AllWithinBudget(Play(initial, Absent, replies).sent)
  {
    if WithinBudget(initial) {
      forall replies ensures AllWithinBudget(Play(initial, Absent, replies).sent) {
        PlayKeepsBudget(initial, Absent, replies);
      }
    } else {
      var replies := [Response(true, None)];
      assert Play(initial, Absent, replies).sent == [initial];
      assert !WithinBudget(Play(initial, Absent, replies).sent[0]);
    }
  }

  // ---- A merchant that keeps its counter ----

  function Pow2(k: nat): (p: nat)
    ensures p >= 1
  {
    if k == 0 then 1 else 2 * Pow2(k - 1)
  }

  /** `ceil(g / m)` */
  function CeilDiv(g: nat, m: nat): nat
    requires m >= 1
  {
    (g + m - 1) / m
  }

  function Gap(a: int, b: int): nat {
    if a <= b then b - a else a - b
  }

  /** The price after `k` counters of the same amount. */
  function PriceAfter(price: int, counter: int, k: nat): int {
    if k == 0 then price else NextPrice(PriceAfter(price, counter, k - 1), counter)
  }

  predicate IsCeil(g: nat, m: nat, c: nat) {
    m * c - m < g <= m * c
  }

  lemma CeilIsCeilDiv(g: nat, m: nat, c: nat)
    requires m >= 1 && IsCeil(g, m, c)
    ensures c == CeilDiv(g, m)
  {
    var x := g + m - 1;
    assert x == c * m + (g + m - 1 - m * c);
    QuotientUnique(x / m, x % m, c, x - m * c, m);
  }

  lemma CeilOfHalf(g: nat, m: nat, c: nat)
    requires m >= 1 && IsCeil(g, m, c)
    ensures IsCeil(g, 2 * m, c - c / 2)
  {
    var h := c - c / 2;
    assert 2 * h == c || 2 * h == c + 1;
    assert 2 * m * h == m * (2 * h);
    assert m * (c + 1) == m * c + m;
  }

  lemma HalfStep(current: int, counter: int)
    ensures var g := Gap(current, counter);
      Gap(NextPrice(current, counter), counter) == g - g / 2
    ensures current <= counter ==> NextPrice(current, counter) <= counter
    ensures current >= counter ==> NextPrice(current, counter) >= counter
  {
  }

  lemma {:induction false} GapIsCeil(price: int, counter: int, k: nat)
    ensures IsCeil(Gap(price, counter), Pow2(k), Gap(PriceAfter(price, counter, k), counter))
  {
    if k > 0 {
      GapIsCeil(price, counter, k - 1);
      HalfStep(PriceAfter(price, counter, k - 1), counter);
      CeilOfHalf(Gap(price, counter), Pow2(k - 1), Gap(PriceAfter(price, counter, k - 1), counter));
    }
  }

  /** Against a fixed counter the gap after `k` counters is the initial gap over `2^k`, rounded up;
      in particular an open gap never closes. */
  lemma GapHalves(price: int, counter: int, k: nat)
    ensures Gap(PriceAfter(price, counter, k), counter) == CeilDiv(Gap(price, counter), Pow2(k))
    ensures price != counter ==> PriceAfter(price, counter, k) != counter
  {
    GapIsCeil(price, counter, k);
    CeilIsCeilDiv(Gap(price, counter), Pow2(k), Gap(PriceAfter(price, counter, k), counter));
  }

  /** Each next offer lies between the one before it and the counter it answers. */
  lemma {:induction false} OffersApproach(current: Offer, lastCounter: Counter, replies: seq<Reply>, i: nat)
    requires i + 1 < |Play(current, lastCounter, replies).sent|
    ensures var sent := Play(current, lastCounter, replies).sent;
      && |sent| <= |replies| && replies[i].Response? && CounterIn(replies[i]).Amount?
      && Between(sent[i].price, sent[i + 1].price, CounterIn(replies[i]).stroops)
      && sent[i + 1].maxBudget == sent[i].maxBudget
    decreases |replies|
  {
    SentFits(current, lastCounter, replies);
    CounterOfferBetween(current, CounterIn(replies[0]));
    var offer, tail := React(current, replies[0]).offer, replies[1..];
    var rest := Play(offer, CounterIn(replies[0]), tail).sent;
    assert Play(current, lastCounter, replies).sent == [current] + rest;
    SentFits(offer, CounterIn(replies[0]), tail);
    if i > 0 {
      OffersApproach(offer, CounterIn(replies[0]), tail, i - 1);
    }
  }

  /** One reply per offer, and the first offer is the current one. */
  lemma {:induction false} SentFits(current: Offer, lastCounter: Counter, replies: seq<Reply>)
    ensures var sent := Play(current, lastCounter, replies).sent;
      |sent| <= |replies| && (sent != [] ==> sent[0] == current)
    decreases |replies|
  {
    if replies != [] && React(current, replies[0]).Continue? {
      SentFits(React(current, replies[0]).offer, CounterIn(replies[0]), replies[1..]);
    }
  }

  /** The merchant that answers every offer with the same counter. */
  function Stubborn(counter: int, rounds: nat): seq<Reply> {
    seq(rounds, _ => Response(false, Some(ShowInt(counter))))
  }

  /** The offers sent to such a merchant close the gap by exactly that law. */
  lemma {:induction false} StubbornPlay(current: Offer, last: Counter, rounds: nat, counter: int)
    requires counter <= current.maxBudget
    ensures var p := Play(current, last, Stubborn(counter, rounds));
      && p.status == MaxRoundsExceeded(if rounds == 0 then last else Amount(counter)) && |p.sent| == rounds
      && forall i :: 0 <= i < rounds ==>
           p.sent[i].price == PriceAfter(current.price, counter, i)
    decreases rounds
  {
    if rounds > 0 {
      var replies := Stubborn(counter, rounds);
      ShowIntRoundTrip(counter);
      assert CounterIn(replies[0]) == Amount(counter);
      var offer := React(current, replies[0]).offer;
      assert replies[1..] == Stubborn(counter, rounds - 1);
      StubbornPlay(offer, Amount(counter), rounds - 1, counter);
      forall i | 0 < i < rounds
        ensures PriceAfter(offer.price, counter, i - 1) == PriceAfter(current.price, counter, i)
      {
        PriceShift(current.price, counter, i);
      }
    }
  }

  lemma {:induction false} PriceShift(price: int, counter: int, i: nat)
    requires i > 0
    ensures PriceAfter(NextPrice(price, counter), counter, i - 1) == PriceAfter(price, counter, i)
  {
    if i > 1 {
      PriceShift(price, counter, i - 1);
    }
  }

  lemma StubbornGaps(initial: Offer, maxRounds: nat, counter: int, i: nat)
    requires counter <= initial.maxBudget && i < maxRounds
    ensures var p := Play(initial, Absent, Stubborn(counter, maxRounds));
      && |p.sent| == maxRounds
      && Gap(p.sent[i].price, counter) == CeilDiv(Gap(initial.price, counter), Pow2(i))
  {
    StubbornPlay(initial, Absent, maxRounds, counter);
    GapHalves(initial.price, counter, i);
  }

  // ---- What ends a negotiation ----

  /** A counter text: none or empty is no counter, digits are an amount, and other characters make it
      malformed. */
  lemma CounterExact(n: int, text: string, c: char)
    ensures CounterOf(None) == Absent && CounterOf(Some("")) == Absent
    ensures CounterOf(Some(ShowInt(n))) == Amount(n)
    ensures c in text && !IsSpace(c) && !IsDigit(c) && c != '-' && c != '+' ==> CounterOf(Some(text)) == Malformed
  {
    ShowIntRoundTrip(n);
    if c in text && !IsSpace(c) && !IsDigit(c) && c != '-' && c != '+' {
      BigIntRejects(text, c);
    }
  }

  /** The merchant turned the offer down without a counter the budget allows. */
  predicate HopelessCounter(counter: Counter, budget: int) {
    counter.Absent? || (counter.Amount? && counter.stroops > budget)
  }

  predicate TurnedDown(reply: Reply) {
    reply.Response? && !reply.accepted
  }

  /** The last reply decides how a negotiation ends: accepted for the price on the table, failed,
      rejected with the counter that was hopeless, thrown on a malformed counter; and only when every
      round brought an acceptable counter does it run out of rounds. */
  lemma {:induction false} StatusExact(current: Offer, lastCounter: Counter, replies: seq<Reply>)
    ensures var p := Play(current, lastCounter, replies);
      && |p.sent| <= |replies| && (replies != [] ==> p.sent != [])
      && (replies == [] ==> p.status == MaxRoundsExceeded(lastCounter))
      && (replies != [] ==>
            var last, offer := replies[|p.sent| - 1], p.sent[|p.sent| - 1];
            && (p.status.Accepted? <==> last.Response? && last.accepted)
            && (p.status.Accepted? ==> p.status.price == offer.price)
            && (p.status.TransportFailed? <==> last.TransportError?)
            && (p.status.SignatureInvalid? <==> last.BadSignature?)
            && (p.status.Thrown? <==> TurnedDown(last) && CounterIn(last).Malformed?)
            && (p.status.Rejected? <==> TurnedDown(last) && HopelessCounter(CounterIn(last), offer.maxBudget))
            && (p.status.Rejected? ==> p.status.lastCounter == CounterIn(last))
            && (p.status.MaxRoundsExceeded? ==> |p.sent| == |replies| && p.status.lastCounter == CounterIn(last)))
    decreases |replies|
  {
    if replies != [] && React(current, replies[0]).Continue? {
      var offer, rest := React(current, replies[0]).offer, replies[1..];
      StatusExact(offer, CounterIn(replies[0]), rest);
      var p := Play(offer, CounterIn(replies[0]), rest);
      assert Play(current, lastCounter, replies).sent == [current] + p.sent;
      if rest != [] {
        assert rest[|p.sent| - 1] == replies[|p.sent|];
      }
    }
  }

  /** A negotiation goes on exactly past the counters within the budget. */
  lemma {:induction false} GoesOn(current: Offer, lastCounter: Counter, replies: seq<Reply>, i: nat)
    requires i + 1 < |Play(current, lastCounter, replies).sent|
    ensures |Play(current, lastCounter, replies).sent| <= |replies|
    ensures TurnedDown(replies[i]) && CounterIn(replies[i]).Amount?
    ensures CounterIn(replies[i]).stroops <= current.maxBudget
    decreases |replies|
  {
    SentFits(current, lastCounter, replies);
    var offer, rest := React(current, replies[0]).offer, replies[1..];
    assert Play(current, lastCounter, replies).sent
        == [current] + Play(offer, CounterIn(replies[0]), rest).sent;
    if i > 0 {
      GoesOn(offer, CounterIn(replies[0]), rest, i - 1);
    }
  }
}
