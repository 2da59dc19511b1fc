/** Conversation windowing of agent sessions (agents/buyer-agent/src/session/manager.ts). */
module SessionWindow {
  import opened Text

  datatype Message = Message(role: string, content: string)

  datatype Session = Session(
    messages: seq<Message>,
    totalTokensConsumed: int,
    lastActiveAt: int,
    activeProposal: Option<string>)

  function EstimateTokens(text: string): nat {
    (|text| + 3) / 4
  }

  /** Each message costs its text and 4 tokens of overhead. */
  function Tokens(messages: seq<Message>): nat {
    if messages == [] then 0
    else Tokens(messages[..|messages| - 1]) + EstimateTokens(messages[|messages| - 1].content) + 4
  }

  /** A text costs a quarter of its length, rounded up. */
  lemma TokensOfText(text: string)
    ensures 4 * EstimateTokens(text) - 4 < |text| <= 4 * EstimateTokens(text)
  {
  }

  lemma TokensOfOne(m: Message)
    ensures 4 * (Tokens([m]) - 4) - 4 < |m.content| <= 4 * (Tokens([m]) - 4)
  {
    assert [m][..0] == [];
    TokensOfText(m.content);
  }

  predicate IsSystem(m: Message) {
    m.role == "system"
  }

  function Filter(messages: seq<Message>, system: bool): (r: seq<Message>)
    ensures forall i :: 0 <= i < |r| ==> IsSystem(r[i]) == system
  {
    if messages == [] then []
    else
      var front, last := Filter(messages[..|messages| - 1], system), messages[|messages| - 1];
      if IsSystem(last) == system then front + [last] else front
  }

  /** Of one message the filter keeps all or nothing, by its role. */
  lemma FilterOne(m: Message, system: bool)
    ensures Filter([m], system) == if (m.role == "system") == system then [m] else []
  {
    assert [m][..0] == [];
  }

  function SystemOf(messages: seq<Message>): seq<Message> {
    Filter(messages, true)
  }

  function ConversationOf(messages: seq<Message>): seq<Message> {
    Filter(messages, false)
  }

  /** `kept` is the longest suffix of the conversation that fits the budget next to the system
      messages, or nothing when no suffix fits. */
  ghost predicate LongestFit(system: seq<Message>, conversation: seq<Message>, budget: int, kept: seq<Message>) {
    exists k: nat ::
      && k <= |conversation| && kept == conversation[k..]
      && (kept == [] || Tokens(system + kept) <= budget)
      && forall j :: 0 <= j < k ==> Tokens(system + conversation[j..]) > budget
  }

  lemma {:induction false} TokensOfConcat(a: seq<Message>, b: seq<Message>)
    ensures Tokens(a + b) == Tokens(a) + Tokens(b)
  {
    if b == [] {
      assert a + b == a;
    } else {
      TokensOfConcat(a, b[..|b| - 1]);
      assert (a + b)[..|a + b| - 1] == a + b[..|b| - 1];
    }
  }

  /** The condition has exactly one solution. */
  lemma LongestFitUnique(
      system: seq<Message>, conversation: seq<Message>, budget: int, a: seq<Message>, b: seq<Message>)
    requires LongestFit(system, conversation, budget, a) && LongestFit(system, conversation, budget, b)
    ensures a == b
  {
    if |a| < |b| {
      LongerFitIsKept(system, conversation, budget, b, a);
    } else if |b| < |a| {
      LongerFitIsKept(system, conversation, budget, a, b);
    }
  }

  lemma LongerFitIsKept(
      system: seq<Message>, conversation: seq<Message>, budget: int, long: seq<Message>, short: seq<Message>)
    requires LongestFit(system, conversation, budget, long) && LongestFit(system, conversation, budget, short)
    ensures |long| <= |short|
  {
    var k: nat :| k <= |conversation| && short == conversation[k..]
      && forall j :: 0 <= j < k ==> Tokens(system + conversation[j..]) > budget;
    var m: nat :| m <= |conversation| && long == conversation[m..]
      && (long == [] || Tokens(system + long) <= budget);
  }

  function InitialMessages(systemPrompt: Option<string>): seq<Message> {
    if systemPrompt.Some? && systemPrompt.value != "" then [Message("system", systemPrompt.value)] else []
  }

  /** What the windowing loop leaves of the conversation. */
  function Fit(system: seq<Message>, conversation: seq<Message>, budget: int): seq<Message> {
    if conversation == [] || Tokens(system + conversation) <= budget then conversation
    else Fit(system, conversation[1..], budget)
  }

  function Window(messages: seq<Message>, budget: int): seq<Message> {
    SystemOf(messages) + Fit(SystemOf(messages), ConversationOf(messages), budget)
  }

  // ---- The manager ----

  class SessionManager {
    const maxContextTokens: int
    /** Live sessions; an expired one is absent. */
    var store: map<string, Session>

    constructor (maxContextTokens: int)
      ensures this.maxContextTokens == maxContextTokens && store == map[]
    {
      this.maxContextTokens := maxContextTokens;
      store := map[];
    }

    method CreateSession(id: string, systemPrompt: Option<string>, now: int)
      modifies this`store
      ensures var prompt := if systemPrompt.Some? then systemPrompt.value else "";
        store == old(store)[id := Session(if prompt == "" then [] else [Message("system", prompt)], 0, now, None)]
      ensures store[id].messages == InitialMessages(systemPrompt)
    {
      var initial := if systemPrompt.Some? && systemPrompt.value != ""
                     then [Message("system", systemPrompt.value)] else [];
      store := store[id := Session(initial, 0, now, None)];
    }

    /** Drops the oldest conversation messages until the estimate fits. */
    method ApplyWindowingPolicy(messages: seq<Message>) returns (windowed: seq<Message>)
      ensures windowed == Window(messages, maxContextTokens)
    {
      var system := SystemOf(messages);
      var conversation := ConversationOf(messages);
      while |conversation| > 0
        invariant Fit(system, conversation, maxContextTokens)
               == Fit(system, ConversationOf(messages), maxContextTokens)
        decreases |conversation|
      {
        if Tokens(system + conversation) <= maxContextTokens { break; }
        conversation := conversation[1..];
      }
      return system + conversation;
    }

    /** `None` is the session-not-found error. */
    method AppendMessage(id: string, message: Message, tokensConsumed: Option<int>, now: int)
      returns (session: Option<Session>)
      modifies this`store
      ensures id !in old(store) ==> session.None? && store == old(store)
      ensures id in old(store) ==>
        && session.Some? && store == old(store)[id := session.value]
        && session.value.messages == Window(old(store)[id].messages + [message], maxContextTokens)
        && session.value.totalTokensConsumed == old(store)[id].totalTokensConsumed
             + (if tokensConsumed.Some? then tokensConsumed.value else EstimateTokens(message.content))
        && session.value.lastActiveAt == now
        && session.value.activeProposal == old(store)[id].activeProposal
    {
      if id !in store { return None; }
      var state := store[id];
      var consumed := if tokensConsumed.Some? then tokensConsumed.value else EstimateTokens(message.content);
      var windowed := ApplyWindowingPolicy(state.messages + [message]);
      state := state.(messages := windowed,
                      totalTokensConsumed := state.totalTokensConsumed + consumed,
                      lastActiveAt := now);
      store := store[id := state];
      return Some(state);
    }
  }

  lemma {:induction false} FitIsLongest(system: seq<Message>, conversation: seq<Message>, budget: int) returns (k: nat)
    ensures k <= |conversation| && Fit(system, conversation, budget) == conversation[k..]
    ensures forall j :: 0 <= j < k ==> Tokens(system + conversation[j..]) > budget
    ensures LongestFit(system, conversation, budget, Fit(system, conversation, budget))
  {
    if conversation == [] || Tokens(system + conversation) <= budget {
      k := 0;
    } else {
      k := FitIsLongest(system, conversation[1..], budget);
      k := k + 1;
      forall j | 0 <= j < k ensures Tokens(system + conversation[j..]) > budget {
        if j == 0 {
          assert conversation[0..] == conversation;
        } else {
          assert conversation[j..] == conversation[1..][j - 1..];
        }
      }
      assert conversation[k..] == conversation[1..][k - 1..];
    }
  }

  /** Suffixes known not to fit may be skipped. */
  lemma {:induction false} FitSkips(system: seq<Message>, conversation: seq<Message>, budget: int, k: nat)
    requires k <= |conversation|
    requires forall j :: 0 <= j < k ==> Tokens(system + conversation[j..]) > budget
    ensures Fit(system, conversation, budget) == Fit(system, conversation[k..], budget)
  {
    if k > 0 {
      assert conversation[0..] == conversation;
      forall j | 0 <= j < k - 1 ensures Tokens(system + conversation[1..][j..]) > budget {
        assert conversation[1..][j..] == conversation[j + 1..];
      }
      FitSkips(system, conversation[1..], budget, k - 1);
      assert conversation[1..][k - 1..] == conversation[k..];
    } else {
      assert conversation[k..] == conversation;
    }
  }

  lemma {:induction false} FilterOfConcat(a: seq<Message>, b: seq<Message>, system: bool)
    ensures Filter(a + b, system) == Filter(a, system) + Filter(b, system)
  {
    if b == [] {
      assert a + b == a;
    } else {
      FilterOfConcat(a, b[..|b| - 1], system);
      assert (a + b)[..|a + b| - 1] == a + b[..|b| - 1];
    }
  }

  lemma {:induction false} FilterOfUniform(a: seq<Message>, system: bool, keep: bool)
    requires forall i :: 0 <= i < |a| ==> IsSystem(a[i]) == system
    ensures Filter(a, keep) == if system == keep then a else []
  {
    if a != [] {
      FilterOfUniform(a[..|a| - 1], system, keep);
    }
  }

  /** Dropped conversation messages stay too expensive when another message joins. */
  lemma StillTooExpensive(
      system: seq<Message>, conversation: seq<Message>, more: seq<Message>, extra: seq<Message>, budget: int, k: nat)
    requires k <= |conversation|
    requires forall j :: 0 <= j < k ==> Tokens(system + conversation[j..]) > budget
    ensures forall j :: 0 <= j < k ==> Tokens((system + more) + (conversation + extra)[j..]) > budget
  {
    forall j | 0 <= j < k ensures Tokens((system + more) + (conversation + extra)[j..]) > budget {
      assert (conversation + extra)[j..] == conversation[j..] + extra;
      TokensOfConcat(system, conversation[j..]);
      TokensOfConcat(system + more, conversation[j..] + extra);
      TokensOfConcat(system, more);
      TokensOfConcat(conversation[j..], extra);
    }
  }

  /** Appending to a trimmed window and trimming again is trimming the untrimmed history. */
  lemma AppendToWindow(history: seq<Message>, m: Message, budget: int)
    ensures Window(Window(history, budget) + [m], budget) == Window(history + [m], budget)
  {
    var system, conversation := SystemOf(history), ConversationOf(history);
    var more := if IsSystem(m) then [m] else [];
    var extra := if IsSystem(m) then [] else [m];
    WindowParts(history, m, budget);
    var k := FitIsLongest(system, conversation, budget);
    StillTooExpensive(system, conversation, more, extra, budget, k);
    FitSkips(system + more, conversation + extra, budget, k);
    assert (conversation + extra)[k..] == conversation[k..] + extra;
  }

  lemma WindowParts(history: seq<Message>, m: Message, budget: int)
    ensures var system, conversation := SystemOf(history), ConversationOf(history);
      var kept := Fit(system, conversation, budget);
      var more := if IsSystem(m) then [m] else [];
      var extra := if IsSystem(m) then [] else [m];
      && SystemOf(history + [m]) == system + more
      && ConversationOf(history + [m]) == conversation + extra
      && SystemOf(Window(history, budget) + [m]) == system + more
      && ConversationOf(Window(history, budget) + [m]) == kept + extra
  {
    var system, conversation := SystemOf(history), ConversationOf(history);
    var kept := Fit(system, conversation, budget);
    var k := FitIsLongest(system, conversation, budget);
    forall keep: bool ensures Filter([m], keep) == if IsSystem(m) == keep then [m] else [] {
      FilterOfUniform([m], IsSystem(m), keep);
    }
    forall keep: bool ensures Filter(Window(history, budget), keep) == if keep then system else kept {
      FilterOfConcat(system, kept, keep);
      FilterOfUniform(system, true, keep);
      FilterOfUniform(kept, false, keep);
    }
    forall keep: bool
      ensures Filter(history + [m], keep) == Filter(history, keep) + Filter([m], keep)
      ensures Filter(Window(history, budget) + [m], keep)
           == Filter(Window(history, budget), keep) + Filter([m], keep)
    {
      FilterOfConcat(history, [m], keep);
      FilterOfConcat(Window(history, budget), [m], keep);
    }
  }

  /** The messages stored after appending one by one, trimming each time. */
  function Stored(systemPrompt: Option<string>, appended: seq<Message>, budget: int): seq<Message> {
    if appended == [] then InitialMessages(systemPrompt)
    else Window(Stored(systemPrompt, appended[..|appended| - 1], budget) + [appended[|appended| - 1]], budget)
  }

  /** Trimming after each append equals trimming the full history once. */
  lemma {:induction false} TrimOnce(systemPrompt: Option<string>, appended: seq<Message>, budget: int)
    ensures Stored(systemPrompt, appended, budget) == Window(InitialMessages(systemPrompt) + appended, budget)
  {
    hide Tokens;
    var initial := InitialMessages(systemPrompt);
    if appended == [] {
      assert initial + appended == initial;
      FilterOfUniform(initial, true, true);
      FilterOfUniform(initial, true, false);
    } else {
      var front, last := appended[..|appended| - 1], appended[|appended| - 1];
      TrimOnce(systemPrompt, front, budget);
      AppendToWindow(initial + front, last, budget);
      assert initial + front + [last] == initial + appended;
    }
  }

  /** After any sequence of appends a session stores all system messages ever seen, followed by the
      longest fitting suffix of all conversation messages ever seen. */
  lemma StoredIsLongestFit(systemPrompt: Option<string>, appended: seq<Message>, budget: int)
    ensures var history := InitialMessages(systemPrompt) + appended;
      exists kept ::
        && Stored(systemPrompt, appended, budget) == SystemOf(history) + kept
        && LongestFit(SystemOf(history), ConversationOf(history), budget, kept)
  {
    var history := InitialMessages(systemPrompt) + appended;
    TrimOnce(systemPrompt, appended, budget);
    var k := FitIsLongest(SystemOf(history), ConversationOf(history), budget);
    assert LongestFit(SystemOf(history), ConversationOf(history), budget,
                      Fit(SystemOf(history), ConversationOf(history), budget));
  }

  /** The system prompt is the first message of its session for good. */
  lemma PromptIsKept(prompt: string, appended: seq<Message>, budget: int)
    requires prompt != ""
    ensures var stored := Stored(Some(prompt), appended, budget);
      stored != [] && stored[0] == Message("system", prompt)
  {
    var first := [Message("system", prompt)];
    TrimOnce(Some(prompt), appended, budget);
    FilterOfConcat(first, appended, true);
    FilterOne(first[0], true);
    assert SystemOf(first + appended)[0] == first[0];
  }

  /** The window honours the budget exactly when the system messages alone do. */
  lemma BudgetHonoured(history: seq<Message>, budget: int)
    ensures Tokens(Window(history, budget)) <= budget <==> Tokens(SystemOf(history)) <= budget
  {
    var system, conversation := SystemOf(history), ConversationOf(history);
    var kept := Fit(system, conversation, budget);
    var k := FitIsLongest(system, conversation, budget);
    TokensOfConcat(system, kept);
    if kept == [] {
      assert system + kept == system;
    }
  }
}
