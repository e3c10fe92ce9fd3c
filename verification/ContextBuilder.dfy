/**
 * Selecting the model context: the newest messages that fit a count and a cost budget.
 * The cost estimator is any function; the port promises non-negative integers.
 */
module ContextBuilder {
  import opened Outcomes
  import opened ConversationHistory

  type Positive = n: int | n >= 1 witness 1

  datatype ContextMessage = ContextMessage(sourceMessageId: int, role: Role, content: string, sequence: int)

  datatype ModelContext = ModelContext(messages: seq<ContextMessage>, usedCost: int, omittedMessageCount: nat)

  datatype BuildError = InvalidHistory | InvalidCost | BudgetExceeded

  function FromMessage(m: Message): ContextMessage {
    ContextMessage(m.id, m.role, m.content, m.sequence)
  }

  function FromMessages(ms: seq<Message>): (r: seq<ContextMessage>)
    ensures |r| == |ms|
  {
    seq(|ms|, i requires 0 <= i < |ms| => FromMessage(ms[i]))
  }

  /** One conversation, positive sequence numbers, strictly increasing. */
  ghost predicate ValidHistory(conversation: int, ms: seq<Message>) {
    && (forall i | 0 <= i < |ms| :: ms[i].conversation == conversation)
    && Ascending(ms)
  }

  ghost function CostOf(cost: ContextMessage -> int, ms: seq<ContextMessage>): int {
    if ms == [] then 0 else cost(ms[0]) + CostOf(cost, ms[1..])
  }

  function Newest(ms: seq<ContextMessage>, k: nat): seq<ContextMessage>
    requires k <= |ms|
  {
    ms[|ms| - k..]
  }

  ghost predicate Affordable(cost: ContextMessage -> int, ms: seq<ContextMessage>, maxMessages: Positive,
      maxCost: Positive, k: nat) {
    k <= |ms| && k <= maxMessages && CostOf(cost, Newest(ms, k)) <= maxCost
  }

  /** The reverse loop once the k newest messages are selected. */
  ghost function Greedy(cost: ContextMessage -> int, ms: seq<ContextMessage>, maxMessages: Positive,
      maxCost: Positive, k: nat): (r: Result<nat, BuildError>)
    requires k <= |ms|
    ensures r.Ok? ==> k <= r.value <= |ms|
    decreases |ms| - k
  {
    if k == |ms| || k >= maxMessages then Ok(k)
    else
      var c := cost(ms[|ms| - 1 - k]);
      if c < 0 then Err(InvalidCost)
      else if CostOf(cost, Newest(ms, k)) + c > maxCost then
        if k == 0 then Err(BudgetExceeded) else Ok(k)
      else Greedy(cost, ms, maxMessages, maxCost, k + 1)
  }

  lemma CostOfOneMore(cost: ContextMessage -> int, ms: seq<ContextMessage>, k: nat)
    requires k < |ms|
    ensures CostOf(cost, Newest(ms, k + 1)) == cost(ms[|ms| - 1 - k]) + CostOf(cost, Newest(ms, k))
  {
    assert Newest(ms, k + 1)[1..] == Newest(ms, k);
  }

  lemma {:induction false} CostOfMonotone(cost: ContextMessage -> int, ms: seq<ContextMessage>, j: nat, k: nat)
    requires j <= k <= |ms| && forall m | m in ms :: cost(m) >= 0
    ensures CostOf(cost, Newest(ms, j)) <= CostOf(cost, Newest(ms, k))
    decreases k
  {
    if j < k {
      CostOfMonotone(cost, ms, j, k - 1);
      CostOfOneMore(cost, ms, k - 1);
    }
  }

  /**
   * With non-negative costs the greedy loop finds the longest affordable run of newest messages,
   * and fails exactly when the newest message alone is over the budget.
   */
  lemma {:induction false} GreedyIsLongest(cost: ContextMessage -> int, ms: seq<ContextMessage>,
      maxMessages: Positive, maxCost: Positive, k: nat)
    requires k <= |ms| && Affordable(cost, ms, maxMessages, maxCost, k)
    requires forall m | m in ms :: cost(m) >= 0
    ensures var r := Greedy(cost, ms, maxMessages, maxCost, k);
            && (r.Err? <==> k == 0 && ms != [] && cost(ms[|ms| - 1]) > maxCost)
            && (r.Err? ==> r.error == BudgetExceeded)
            && (r.Ok? ==> Affordable(cost, ms, maxMessages, maxCost, r.value))
            && (r.Ok? ==> forall j: nat | Affordable(cost, ms, maxMessages, maxCost, j) :: j <= r.value)
    decreases |ms| - k
  {
    var r := Greedy(cost, ms, maxMessages, maxCost, k);
    if k < |ms| && k < maxMessages {
      CostOfOneMore(cost, ms, k);
      if CostOf(cost, Newest(ms, k)) + cost(ms[|ms| - 1 - k]) > maxCost {
        forall j: nat | Affordable(cost, ms, maxMessages, maxCost, j) ensures j <= k {
          if j > k { CostOfMonotone(cost, ms, k + 1, j); }
        }
      } else {
        GreedyIsLongest(cost, ms, maxMessages, maxCost, k + 1);
      }
    }
  }

  /** Dropping older messages that the count cap would never reach changes no choice. */
  lemma {:induction false} GreedyIgnoresOlder(cost: ContextMessage -> int, older: seq<ContextMessage>,
      ms: seq<ContextMessage>,
                                              maxMessages: Positive, maxCost: Positive, k: nat)
    requires k <= |ms| && (older == [] || |ms| >= maxMessages)
    ensures Greedy(cost, older + ms, maxMessages, maxCost, k) == Greedy(cost, ms, maxMessages, maxCost, k)
    decreases |ms| - k
  {
    var all := older + ms;
    if older == [] {
      assert all == ms;
    } else if k < maxMessages {
      assert Newest(all, k) == Newest(ms, k);
      assert all[|all| - 1 - k] == ms[|ms| - 1 - k];
      GreedyIgnoresOlder(cost, older, ms, maxMessages, maxCost, k + 1);
    }
  }

  /** What `build` returns. */
  ghost function Built(cost: ContextMessage -> int, conversation: int, history: seq<Message>,
      maxMessages: Positive, maxCost: Positive): Result<ModelContext, BuildError> {
    if !ValidHistory(conversation, history) then Err(InvalidHistory)
    else
      var ms := FromMessages(history);
      ContextOf(cost, ms, Greedy(cost, ms, maxMessages, maxCost, 0))
  }

  ghost function ContextOf(cost: ContextMessage -> int, ms: seq<ContextMessage>,
      count: Result<nat, BuildError>): Result<ModelContext, BuildError>
    requires count.Ok? ==> count.value <= |ms|
  {
    match count
    case Err(e) => Err(e)
    case Ok(k) => Ok(ModelContext(Newest(ms, k), CostOf(cost, Newest(ms, k)), |ms| - k))
  }

  method ValidateRequest(conversation: int, messages: seq<Message>) returns (valid: bool)
    ensures valid <==> ValidHistory(conversation, messages)
  {
    var previousSequence := 0;
    for i := 0 to |messages|
      invariant ValidHistory(conversation, messages[..i])
      invariant previousSequence == if i == 0 then 0 else messages[i - 1].sequence
    {
      if messages[i].conversation != conversation { return false; }
      if messages[i].sequence <= previousSequence { return false; }
      previousSequence := messages[i].sequence;
      assert messages[..i + 1] == messages[..i] + [messages[i]];
    }
    assert messages[..|messages|] == messages;
    valid := true;
  }

  /** The loop state: the newest messages so far, last first, and their cost. */
  ghost predicate Selected(cost: ContextMessage -> int, ms: seq<ContextMessage>,
      selectedReversed: seq<ContextMessage>, usedCost: int) {
    && |selectedReversed| <= |ms|
    && ReversedContext(selectedReversed) == Newest(ms, |selectedReversed|)
    && usedCost == CostOf(cost, Newest(ms, |selectedReversed|))
  }

  lemma SelectedSoFar(cost: ContextMessage -> int, ms: seq<ContextMessage>,
      selectedReversed: seq<ContextMessage>, usedCost: int)
    requires Selected(cost, ms, selectedReversed, usedCost)
    ensures |selectedReversed| <= |ms| && usedCost == CostOf(cost, Newest(ms, |selectedReversed|))
  {
  }

  lemma SelectOneMore(cost: ContextMessage -> int, ms: seq<ContextMessage>,
      selectedReversed: seq<ContextMessage>, usedCost: int)
    requires Selected(cost, ms, selectedReversed, usedCost) && |selectedReversed| < |ms|
    ensures var m := ms[|ms| - 1 - |selectedReversed|];
            Selected(cost, ms, selectedReversed + [m], usedCost + cost(m))
  {
    var k := |selectedReversed|;
    var m := ms[|ms| - 1 - k];
    CostOfOneMore(cost, ms, k);
    ReversedContextSnoc(selectedReversed, m);
    assert Newest(ms, k + 1) == [m] + Newest(ms, k);
  }

  method Build(cost: ContextMessage -> int, conversation: int, messages: seq<Message>, maxMessages: Positive,
      maxCost: Positive)
    returns (r: Result<ModelContext, BuildError>)
    ensures r == Built(cost, conversation, messages, maxMessages, maxCost)
  {
    var valid := ValidateRequest(conversation, messages);
    if !valid { return Err(InvalidHistory); }
    r := SelectNewest(cost, FromMessages(messages), maxMessages, maxCost);
  }

  lemma GreedyStep(cost: ContextMessage -> int, ms: seq<ContextMessage>, maxMessages: Positive,
      maxCost: Positive, k: nat, used: int)
    requires k < |ms| && k < maxMessages && used == CostOf(cost, Newest(ms, k))
    ensures var c := cost(ms[|ms| - 1 - k]);
            Greedy(cost, ms, maxMessages, maxCost, k)
            == if c < 0 then Err(InvalidCost)
               else if used + c > maxCost then (if k == 0 then Err(BudgetExceeded) else Ok(k))
               else Greedy(cost, ms, maxMessages, maxCost, k + 1)
  {
  }

  lemma GreedyDone(cost: ContextMessage -> int, ms: seq<ContextMessage>, maxMessages: Positive, maxCost: Positive,
      k: nat)
    requires k <= |ms| && (k == |ms| || k >= maxMessages)
    ensures Greedy(cost, ms, maxMessages, maxCost, k) == Ok(k)
  {
  }

  lemma NothingSelected(cost: ContextMessage -> int, ms: seq<ContextMessage>)
    ensures Selected(cost, ms, [], 0)
  {
    assert Newest(ms, 0) == [];
  }

  lemma ContextFailed(cost: ContextMessage -> int, ms: seq<ContextMessage>, e: BuildError)
    ensures ContextOf(cost, ms, Err(e)) == Err(e)
  {
  }

  lemma ContextDone(cost: ContextMessage -> int, ms: seq<ContextMessage>, selectedReversed: seq<ContextMessage>,
      usedCost: int)
    requires Selected(cost, ms, selectedReversed, usedCost)
    ensures |selectedReversed| <= |ms|
    ensures ContextOf(cost, ms, Ok(|selectedReversed|)) ==
      Ok(ModelContext(ReversedContext(selectedReversed), usedCost, |ms| - |ReversedContext(selectedReversed)|))
  {
  }

  /** The reverse loop over the candidates. */
  method SelectNewest(cost: ContextMessage -> int, contextMessages: seq<ContextMessage>, maxMessages: Positive,
      maxCost: Positive)
    returns (r: Result<ModelContext, BuildError>)
    ensures r == ContextOf(cost, contextMessages, Greedy(cost, contextMessages, maxMessages, maxCost, 0))
  {
    var n := |contextMessages|;
    var candidates := if n <= maxMessages then contextMessages else contextMessages[n - maxMessages..];
    var selectedReversed: seq<ContextMessage> := [];
    var usedCost := 0;
    var i := |candidates|;
    NothingSelected(cost, contextMessages);
    hide Greedy, CostOf, Newest, Selected, ReversedContext, ContextOf;
    while i > 0
      invariant 0 <= i <= |candidates| && |selectedReversed| == |candidates| - i
      invariant Selected(cost, contextMessages, selectedReversed, usedCost)
      invariant Greedy(cost, contextMessages, maxMessages, maxCost, |selectedReversed|)
             == Greedy(cost, contextMessages, maxMessages, maxCost, 0)
    {
      hide Greedy, CostOf, Newest, Selected, ReversedContext, ContextOf;
      i := i - 1;
      var message := candidates[i];
      assert message == contextMessages[n - 1 - |selectedReversed|];
      var c := cost(message);
      SelectedSoFar(cost, contextMessages, selectedReversed, usedCost);
      GreedyStep(cost, contextMessages, maxMessages, maxCost, |selectedReversed|, usedCost);
      if c < 0 {
        ContextFailed(cost, contextMessages, InvalidCost);
        return Err(InvalidCost);
      }
      if usedCost + c > maxCost {
        if selectedReversed == [] {
          ContextFailed(cost, contextMessages, BudgetExceeded);
          return Err(BudgetExceeded);
        }
        break;
      }
      SelectOneMore(cost, contextMessages, selectedReversed, usedCost);
      selectedReversed := selectedReversed + [message];
      usedCost := usedCost + c;
    }
    if |selectedReversed| == |candidates| {
      GreedyDone(cost, contextMessages, maxMessages, maxCost, |selectedReversed|);
    }
    ContextDone(cost, contextMessages, selectedReversed, usedCost);
    var selected := ReversedContext(selectedReversed);
    r := Ok(ModelContext(selected, usedCost, n - |selected|));
  }

  function ReversedContext(s: seq<ContextMessage>): seq<ContextMessage> {
    seq(|s|, i requires 0 <= i < |s| => s[|s| - 1 - i])
  }

  lemma ReversedContextSnoc(s: seq<ContextMessage>, m: ContextMessage)
    ensures ReversedContext(s + [m]) == [m] + ReversedContext(s)
  {
  }

  /** The messages that follow the omitted ones, in order, each with its id, role, content and sequence. */
  ghost predicate CarriesNewest(messages: seq<ContextMessage>, history: seq<Message>, omitted: nat) {
    && omitted + |messages| == |history|
    && forall i | omitted <= i < |history| ::
         messages[i - omitted] ==
           ContextMessage(history[i].id, history[i].role, history[i].content, history[i].sequence)
  }

  /**
   * What `build` promises: the longest suffix within both caps, in the original order, with exact
   * cost and omission counts; failure exactly when the newest message alone is over the budget.
   */
  lemma BuildSelectsLongestSuffix(cost: ContextMessage -> int, conversation: int, history: seq<Message>,
      maxMessages: Positive, maxCost: Positive)
    requires ValidHistory(conversation, history) && forall m :: cost(m) >= 0
    ensures var ms := FromMessages(history);
            var r := Built(cost, conversation, history, maxMessages, maxCost);
            && (r.Err? <==> ms != [] && cost(ms[|ms| - 1]) > maxCost)
            && (r.Err? ==> r.error == BudgetExceeded)
            && (r.Ok? ==>
                  && |r.value.messages| <= |ms|
                  && r.value.messages == Newest(ms, |r.value.messages|)
                  && r.value.usedCost == CostOf(cost, r.value.messages) <= maxCost
                  && r.value.omittedMessageCount + |r.value.messages| == |history|
                  && CarriesNewest(r.value.messages, history, r.value.omittedMessageCount)
                  && |r.value.messages| <= maxMessages
                  && forall k: nat | Affordable(cost, ms, maxMessages, maxCost, k) :: k <= |r.value.messages|)
  {
    var ms := FromMessages(history);
    assert Built(cost, conversation, history, maxMessages, maxCost) ==
      ContextOf(cost, ms, Greedy(cost, ms, maxMessages, maxCost, 0));
    hide ValidHistory, CostOf, Affordable, Greedy, Built, FromMessages, ContextOf, Newest, CarriesNewest;
    ContextIsLongest(cost, ms, maxMessages, maxCost);
    var r := Built(cost, conversation, history, maxMessages, maxCost);
    if r.Ok? { NewestFields(history, |r.value.messages|); }
  }

  lemma ContextIsLongest(cost: ContextMessage -> int, ms: seq<ContextMessage>, maxMessages: Positive,
      maxCost: Positive)
    requires forall m :: cost(m) >= 0
    ensures var r := ContextOf(cost, ms, Greedy(cost, ms, maxMessages, maxCost, 0));
      && (r.Err? <==> ms != [] && cost(ms[|ms| - 1]) > maxCost)
      && (r.Err? ==> r.error == BudgetExceeded)
      && (r.Ok? ==>
            && |r.value.messages| <= |ms|
            && r.value.messages == Newest(ms, |r.value.messages|)
            && r.value.usedCost == CostOf(cost, r.value.messages) <= maxCost
            && r.value.omittedMessageCount + |r.value.messages| == |ms|
            && |r.value.messages| <= maxMessages
            && forall k: nat | Affordable(cost, ms, maxMessages, maxCost, k) :: k <= |r.value.messages|)
  {
    NothingIsAffordable(cost, ms, maxMessages, maxCost);
    GreedyIsLongest(cost, ms, maxMessages, maxCost, 0);
    hide CostOf, Greedy;
  }

  lemma NothingIsAffordable(cost: ContextMessage -> int, ms: seq<ContextMessage>, maxMessages: Positive,
      maxCost: Positive)
    ensures Affordable(cost, ms, maxMessages, maxCost, 0)
  {
    assert Newest(ms, 0) == [];
  }

  lemma NewestFields(history: seq<Message>, k: nat)
    requires k <= |history|
    ensures CarriesNewest(Newest(FromMessages(history), k), history, |history| - k)
  {
  }

  /** The cost of a context is its messages' costs added up. */
  lemma {:induction false} CostAddsUp(cost: ContextMessage -> int, a: seq<ContextMessage>, b: seq<ContextMessage>)
    ensures CostOf(cost, a + b) == CostOf(cost, a) + CostOf(cost, b)
    ensures forall m :: CostOf(cost, [m]) == cost(m)
    decreases |a|
  {
    if a == [] {
      assert a + b == b;
    } else {
      CostAddsUp(cost, a[1..], b);
      assert (a + b)[1..] == a[1..] + b;
    }
  }

  /** The k newest messages have costs the loop accepts, one after the other. */
  ghost predicate Passable(cost: ContextMessage -> int, ms: seq<ContextMessage>, maxMessages: Positive,
      maxCost: Positive, k: nat) {
    && k <= |ms| && k <= maxMessages
    && (forall m | m in Newest(ms, k) :: cost(m) >= 0)
    && (forall j: nat | 1 <= j <= k :: CostOf(cost, Newest(ms, j)) <= maxCost)
  }

  /** The loop meets a negative cost: that of message k from the end, all newer ones being passable. */
  ghost predicate MeetsNegative(cost: ContextMessage -> int, ms: seq<ContextMessage>, maxMessages: Positive,
      maxCost: Positive, k: nat) {
    Passable(cost, ms, maxMessages, maxCost, k) && k < |ms| && k < maxMessages && cost(ms[|ms| - 1 - k]) < 0
  }

  lemma PassableOneMore(cost: ContextMessage -> int, ms: seq<ContextMessage>, maxMessages: Positive,
      maxCost: Positive, k: nat)
    requires Passable(cost, ms, maxMessages, maxCost, k) && k < |ms| && k < maxMessages
    requires cost(ms[|ms| - 1 - k]) >= 0 && CostOf(cost, Newest(ms, k + 1)) <= maxCost
    ensures Passable(cost, ms, maxMessages, maxCost, k + 1)
  {
    assert Newest(ms, k + 1) == [ms[|ms| - 1 - k]] + Newest(ms, k);
  }

  /** After a passable start, nothing longer than the first impassable step is passable. */
  lemma NotPassableBeyond(cost: ContextMessage -> int, ms: seq<ContextMessage>, maxMessages: Positive,
      maxCost: Positive, k: nat, j: nat)
    requires k < j && k < |ms|
    requires cost(ms[|ms| - 1 - k]) < 0 || CostOf(cost, Newest(ms, k + 1)) > maxCost
    ensures !Passable(cost, ms, maxMessages, maxCost, j)
  {
    if j <= |ms| { assert ms[|ms| - 1 - k] == Newest(ms, j)[j - 1 - k]; }
  }

  lemma {:induction false} GreedyErrors(cost: ContextMessage -> int, ms: seq<ContextMessage>, maxMessages: Positive,
      maxCost: Positive, k: nat)
    requires Passable(cost, ms, maxMessages, maxCost, k)
    ensures Greedy(cost, ms, maxMessages, maxCost, k) == Err(InvalidCost) <==>
      exists j: nat :: j >= k && MeetsNegative(cost, ms, maxMessages, maxCost, j)
    decreases |ms| - k
  {
    if k < |ms| && k < maxMessages {
      var c := cost(ms[|ms| - 1 - k]);
      CostOfOneMore(cost, ms, k);
      if c < 0 {
        assert MeetsNegative(cost, ms, maxMessages, maxCost, k);
      } else if CostOf(cost, Newest(ms, k)) + c > maxCost {
        forall j: nat | j > k ensures !Passable(cost, ms, maxMessages, maxCost, j) {
          NotPassableBeyond(cost, ms, maxMessages, maxCost, k, j);
        }
      } else {
        PassableOneMore(cost, ms, maxMessages, maxCost, k);
        GreedyErrors(cost, ms, maxMessages, maxCost, k + 1);
      }
    }
  }

  /** The conversation or the order of the request is wrong at message i. */
  predicate WrongAt(conversation: int, history: seq<Message>, i: nat)
    requires i < |history|
  {
    || history[i].conversation != conversation || history[i].sequence <= 0
    || (i > 0 && history[i].sequence <= history[i - 1].sequence)
  }

  /**
   * Which error `build` raises: the request is invalid if it mixes conversations or its sequences are
   * not positive and increasing; the estimator is, if the loop meets a negative cost.
   */
  lemma BuildErrors(cost: ContextMessage -> int, conversation: int, history: seq<Message>, maxMessages: Positive,
      maxCost: Positive)
    ensures var r, ms := Built(cost, conversation, history, maxMessages, maxCost), FromMessages(history);
      && (r == Err(InvalidHistory) <==> exists i :: 0 <= i < |history| && WrongAt(conversation, history, i))
      && (r != Err(InvalidHistory) ==>
            (r == Err(InvalidCost) <==> exists j: nat :: MeetsNegative(cost, ms, maxMessages, maxCost, j)))
  {
    var ms := FromMessages(history);
    ValidBySteps(conversation, history);
    assert Newest(ms, 0) == [];
    GreedyErrors(cost, ms, maxMessages, maxCost, 0);
    GreedyNeverInvalid(cost, ms, maxMessages, maxCost, 0);
    hide ValidHistory, Greedy, WrongAt, MeetsNegative, Passable;
  }

  lemma {:induction false} GreedyNeverInvalid(cost: ContextMessage -> int, ms: seq<ContextMessage>,
      maxMessages: Positive, maxCost: Positive, k: nat)
    requires k <= |ms|
    ensures Greedy(cost, ms, maxMessages, maxCost, k) != Err(InvalidHistory)
    decreases |ms| - k
  {
    if k < |ms| { GreedyNeverInvalid(cost, ms, maxMessages, maxCost, k + 1); }
  }

  lemma ValidBySteps(conversation: int, ms: seq<Message>)
    ensures ValidHistory(conversation, ms) <==> forall i | 0 <= i < |ms| :: !WrongAt(conversation, ms, i)
  {
    if forall i | 0 <= i < |ms| :: !WrongAt(conversation, ms, i) {
      forall i | 0 <= i < |ms| ensures ms[i].conversation == conversation && ms[i].sequence > 0 {
        assert !WrongAt(conversation, ms, i);
      }
      forall i, j | 0 <= i < j < |ms| ensures ms[i].sequence < ms[j].sequence { StepsAscend(conversation, ms, i, j); }
    }
  }

  lemma {:induction false} StepsAscend(conversation: int, ms: seq<Message>, i: nat, j: nat)
    requires i < j < |ms| && forall k | 0 <= k < |ms| :: !WrongAt(conversation, ms, k)
    ensures ms[i].sequence < ms[j].sequence
    decreases j
  {
    assert !WrongAt(conversation, ms, j);
    if i < j - 1 { StepsAscend(conversation, ms, i, j - 1); }
  }

  lemma UpToValid(conversation: int, log: seq<Message>, through: int)
    requires ValidHistory(conversation, log)
    ensures ValidHistory(conversation, UpTo(log, through))
  {
    var k := UpToIsPrefix(log, through);
  }

  lemma NewestIgnoresOlder(older: seq<ContextMessage>, ms: seq<ContextMessage>)
    ensures forall k: nat | k <= |ms| :: Newest(older + ms, k) == Newest(ms, k)
  {
  }

  /** The same context, apart from how many messages were left out. */
  ghost predicate SameContext(full: Result<ModelContext, BuildError>, part: Result<ModelContext, BuildError>,
      dropped: int) {
    match full
    case Err(e) => part == Err(e)
    case Ok(c) =>
      && part.Ok?
      && part.value.messages == c.messages
      && part.value.usedCost == c.usedCost
      && part.value.omittedMessageCount + dropped == c.omittedMessageCount
  }

  lemma BuiltIgnoresOlder(cost: ContextMessage -> int, conversation: int, older: seq<Message>, recent: seq<Message>,
                          maxMessages: Positive, maxCost: Positive)
    requires ValidHistory(conversation, older + recent) && ValidHistory(conversation, recent)
    requires older == [] || |recent| >= maxMessages
    ensures SameContext(Built(cost, conversation, older + recent, maxMessages, maxCost),
                        Built(cost, conversation, recent, maxMessages, maxCost), |older|)
  {
    var o, r := FromMessages(older), FromMessages(recent);
    assert FromMessages(older + recent) == o + r;
    GreedyIgnoresOlder(cost, o, r, maxMessages, maxCost, 0);
    NewestIgnoresOlder(o, r);
  }

  /**
   * A recent window at least as long as the message cap gives the context of the full history up
   * to the cut: the same messages, cost or error.  Only the omission count differs, and by exactly
   * the messages the window left out.
   */
  lemma WindowIsTransparent(cost: ContextMessage -> int, conversation: int, log: seq<Message>, through: int, limit: nat,
                            maxMessages: Positive, maxCost: Positive)
    requires ValidHistory(conversation, log) && limit >= maxMessages
    ensures var all := UpTo(log, through);
            var window := ReadRecentMessages(log, through, limit);
            SameContext(Built(cost, conversation, all, maxMessages, maxCost),
                        Built(cost, conversation, window, maxMessages, maxCost), |all| - |window|)
  {
    var all := UpTo(log, through);
    UpToValid(conversation, log, through);
    RecentIsSuffix(log, through, limit);
    var cut := if |all| <= limit then 0 else |all| - limit;
    assert all == all[..cut] + all[cut..];
    SuffixValid(conversation, all, cut);
    BuiltIgnoresOlder(cost, conversation, all[..cut], all[cut..], maxMessages, maxCost);
  }

  lemma SuffixValid(conversation: int, log: seq<Message>, cut: nat)
    requires ValidHistory(conversation, log) && cut <= |log|
    ensures ValidHistory(conversation, log[cut..])
  {
  }
}
