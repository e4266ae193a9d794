/** The cost ceiling of a case: editing it, asking the assistant under it, and charging answers to it. */
module CaseBudget {
  import opened Wrappers
  import opened CostAmounts

  // The budget columns of a case, in millionths of the currency.
  datatype Budget = Budget(limit: int, spent: int, reserved: int, limitReached: bool, deleted: bool)
  {
    function Committed(): int { spent + reserved }
  }

  // The table constraints: no negative amount, and what is committed stays within the limit.
  predicate Fits(b: Budget) {
    0 <= b.limit && 0 <= b.spent && 0 <= b.reserved && b.Committed() <= b.limit
  }

  datatype EditOutcome = NotFound | BelowCommittedCost | Updated

  datatype ChargeOutcome = Missing | RejectedByDatabase | Charged(spent: int, limit: int, limitReached: bool)

  datatype Unavailable = CaseNotFound | BudgetReached

  // What the model call came to: an error, an output that breaks the contract, or one that keeps it.
  datatype Generated = Failed | Invalid | Output(inputTokens: nat, outputTokens: nat)

  datatype AnswerOutcome = Answered(cost: nat) | Refused(why: Unavailable) | InvalidOutput | InternalError

  // The configured prices, and the room that was computed from them.
  datatype Prices = Prices(input: string, output: string, room: nat)

  ghost predicate ArePrices(p: Prices) {
    IsPrice(p.input) && IsPrice(p.output) && RoomFor(p.input, p.output, p.room)
  }

  type ValidPrices = p: Prices | ArePrices(p) witness FreePrices()

  function FreePrices(): (p: Prices)
    ensures ArePrices(p)
  {
    FreeRoom();
    Prices("0", "0", 0)
  }

  // ---------- What each operation does ----------

  function EditResult(b: Budget, limit: nat): EditOutcome {
    if b.deleted then NotFound else if limit < b.Committed() then BelowCommittedCost else Updated
  }

  function AfterEdit(b: Budget, limit: nat): Budget {
    if EditResult(b, limit) != Updated then b
    else b.(limit := limit, limitReached := b.reserved == 0 && limit > 0 && b.spent >= limit)
  }

  function Available(b: Budget, room: nat): Result<(), Unavailable> {
    if b.deleted then Err(CaseNotFound)
    else if b.limitReached then Err(BudgetReached)
    else if b.spent + b.reserved + room > b.limit then Err(BudgetReached)
    else Ok(())
  }

  function ChargeResult(b: Budget, amount: nat): ChargeOutcome {
    if b.deleted then Missing
    else if b.Committed() + amount > b.limit then RejectedByDatabase
    else Charged(b.spent + amount, b.limit, b.Committed() + amount >= b.limit)
  }

  function AfterCharge(b: Budget, amount: nat): Budget {
    match ChargeResult(b, amount)
    case Charged(spent, _, reached) => b.(spent := spent, limitReached := b.limitReached || reached)
    case _ => b
  }

  // What the tokens of a call cost at the configured prices, each part floored.
  function CallCost(prices: ValidPrices, inputTokens: nat, outputTokens: nat): int {
    inputTokens * PriceOf(prices.input) / 1_000_000 + outputTokens * PriceOf(prices.output) / 1_000_000
  }

  // The amount charged for an output, unless the parser refuses its text.
  function CostOfOutput(prices: ValidPrices, generated: Generated): (cost: Option<nat>)
    requires generated.Output?
    ensures cost.Some? ==> cost.value == CallCost(prices, generated.inputTokens, generated.outputTokens)
    ensures cost.Some? <==> CallCost(prices, generated.inputTokens, generated.outputTokens) < 1_000_000_000_000_000_000
  {
    var text := CostOf(generated.inputTokens, generated.outputTokens, prices.input, prices.output);
    AcceptedCostIsExact(generated.inputTokens, generated.outputTokens, prices.input, prices.output);
    if !IsAmount(text) then None else Some(Micros(FixedCostAmount(text)))
  }

  function AnswerResult(b: Budget, prices: ValidPrices, generated: Generated): AnswerOutcome {
    var available := Available(b, prices.room);
    if available.Err? then Refused(available.error)
    else if !generated.Output? || CostOfOutput(prices, generated).None? then InvalidOutput
    else if ChargeResult(b, CostOfOutput(prices, generated).value).RejectedByDatabase? then InternalError
    else Answered(CostOfOutput(prices, generated).value)
  }

  function AfterAnswer(b: Budget, prices: ValidPrices, generated: Generated): Budget {
    match AnswerResult(b, prices, generated)
    case Answered(cost) => AfterCharge(b, cost)
    case _ => b
  }

  // ---------- The case row ----------

  class CaseRow {
    var limitAmount: int
    var spentAmount: int
    var reservedAmount: int
    var limitReached: bool
    var deleted: bool

    constructor ()
      ensures State() == Budget(0, 0, 0, false, false)
    {
      limitAmount, spentAmount, reservedAmount, limitReached, deleted := 0, 0, 0, false, false;
    }

    function State(): Budget
      reads this
    {
      Budget(limitAmount, spentAmount, reservedAmount, limitReached, deleted)
    }

    method UpdateProcessingBudget(limit: nat) returns (outcome: EditOutcome)
      modifies `limitAmount, `limitReached
      ensures State() == AfterEdit(old(State()), limit) && outcome == EditResult(old(State()), limit)
      ensures outcome == Updated <==> !deleted && spentAmount + reservedAmount <= limit
      ensures outcome == NotFound <==> deleted
      ensures outcome == Updated ==>
                limitAmount == limit && (limitReached <==> reservedAmount == 0 && 0 < limit <= spentAmount)
      ensures outcome != Updated ==> State() == old(State())
    {
      if deleted {
        return NotFound;
      }
      var committed := spentAmount + reservedAmount;
      if limit < committed {
        return BelowCommittedCost;
      }
      var reached := reservedAmount == 0 && limit > 0 && spentAmount >= limit;
      limitAmount := limit;
      limitReached := reached;
      outcome := Updated;
    }

    method AssertAssistantBudgetAvailable(room: nat) returns (r: Result<(), Unavailable>)
      ensures r == Available(State(), room)
      ensures r == if deleted then Err(CaseNotFound)
                   else if limitReached || limitAmount - spentAmount - reservedAmount < room then Err(BudgetReached)
                   else Ok(())
    {
      if deleted {
        return Err(CaseNotFound);
      }
      if limitReached {
        return Err(BudgetReached);
      }
      if spentAmount + reservedAmount + room > limitAmount {
        return Err(BudgetReached);
      }
      r := Ok(());
    }

    method ChargeAssistantCost(amount: nat) returns (outcome: ChargeOutcome)
      modifies `spentAmount, `limitReached
      ensures State() == AfterCharge(old(State()), amount) && outcome == ChargeResult(old(State()), amount)
      ensures outcome.Charged? <==> !deleted && amount <= limitAmount - reservedAmount - old(spentAmount)
      ensures outcome.Charged? ==> spentAmount == old(spentAmount) + amount
      ensures outcome.Charged? ==>
                (limitReached <==> old(limitReached) || spentAmount + reservedAmount == limitAmount)
      ensures !outcome.Charged? ==> State() == old(State())
    {
      if deleted {
        return Missing;
      }
      var spent := spentAmount + amount;
      var reached := spent + reservedAmount >= limitAmount;
      if spent + reservedAmount > limitAmount {
        // The constraint cases_processing_cost_within_limit rolls the update back.
        return RejectedByDatabase;
      }
      spentAmount := spent;
      if reached {
        limitReached := true;
      }
      outcome := Charged(spent, limitAmount, reached);
    }

    // A question, with nothing else happening to the case while it is answered.
    method Answer(prices: ValidPrices, generated: Generated) returns (outcome: AnswerOutcome)
      modifies `spentAmount, `limitReached
      ensures State() == AfterAnswer(old(State()), prices, generated)
      ensures outcome == AnswerResult(old(State()), prices, generated)
      ensures outcome.Refused? <==>
                deleted || old(limitReached) || limitAmount - reservedAmount - old(spentAmount) < prices.room
      ensures outcome.Answered? ==>
                && generated.Output?
                && outcome.cost == generated.inputTokens * PriceOf(prices.input) / 1_000_000
                                   + generated.outputTokens * PriceOf(prices.output) / 1_000_000
                && spentAmount == old(spentAmount) + outcome.cost
      ensures !outcome.Answered? ==> State() == old(State())
    {
      var available := AssertAssistantBudgetAvailable(prices.room);
      if available.Err? {
        return Refused(available.error);
      }
      if !generated.Output? {
        return InvalidOutput;
      }
      var cost := CostOfOutput(prices, generated);
      if cost.None? {
        return InvalidOutput;
      }
      var charged := ChargeAssistantCost(cost.value);
      outcome := if charged.RejectedByDatabase? then InternalError else Answered(cost.value);
    }
  }

  // ---------- One step ----------

  // A question may be asked: the case is there, open, and has this much left.
  predicate HasRoom(b: Budget, room: nat) {
    !b.deleted && !b.limitReached && room <= b.limit - b.spent - b.reserved
  }

  predicate KeepsQuotas(generated: Generated) {
    generated.Output? ==> WithinQuotas(generated.inputTokens, generated.outputTokens)
  }

  /** An edit is taken exactly when the case is there and the new limit covers what is committed; it
      changes nothing spent, and closes the case exactly when a positive limit is all spent. */
  lemma EditIsExact(b: Budget, limit: nat)
    requires Fits(b)
    ensures Fits(AfterEdit(b, limit))
    ensures EditResult(b, limit) == Updated <==> !b.deleted && b.Committed() <= limit
    ensures AfterEdit(b, limit).limit == if EditResult(b, limit) == Updated then limit else b.limit
    ensures AfterEdit(b, limit).(limit := b.limit, limitReached := b.limitReached) == b
    ensures EditResult(b, limit) == Updated ==>
              (AfterEdit(b, limit).limitReached <==> limit > 0 && AfterEdit(b, limit).spent == limit)
  {
  }

  /** A charge is recorded exactly when the amount still fits at that moment, and then nothing else of
      the case moves but what was spent. */
  lemma ChargeIsRecordedExactly(b: Budget, amount: nat)
    requires Fits(b) && !b.deleted
    ensures ChargeResult(b, amount).Charged? <==> amount <= b.limit - b.spent - b.reserved
    ensures !ChargeResult(b, amount).Charged? ==> AfterCharge(b, amount) == b
    ensures Fits(AfterCharge(b, amount))
    ensures ChargeResult(b, amount).Charged? ==>
              && AfterCharge(b, amount).(spent := b.spent, limitReached := b.limitReached) == b
              && AfterCharge(b, amount).spent == b.spent + amount
              && (AfterCharge(b, amount).limitReached <==> b.limitReached || b.Committed() + amount == b.limit)
  {
  }

  lemma CostWithinRoom(prices: ValidPrices, generated: Generated)
    requires generated.Output? && KeepsQuotas(generated)
    ensures CostOfOutput(prices, generated).Some? && CostOfOutput(prices, generated).value <= prices.room
  {
    ChargedIsTheCost(generated.inputTokens, generated.outputTokens, prices.input, prices.output, prices.room);
  }

  /** A question answered with nothing in between, within the token quotas, never meets the database
      constraint: whatever an accepted question costs is recorded in full, and the limit still holds. */
  lemma AnswerIsAlwaysRecorded(b: Budget, prices: ValidPrices, generated: Generated)
    requires Fits(b) && KeepsQuotas(generated)
    ensures AnswerResult(b, prices, generated) != InternalError
    ensures AnswerResult(b, prices, generated).Answered? <==> HasRoom(b, prices.room) && generated.Output?
    ensures Fits(AfterAnswer(b, prices, generated))
    ensures if HasRoom(b, prices.room) && generated.Output? then
              var cost := CallCost(prices, generated.inputTokens, generated.outputTokens);
              AfterAnswer(b, prices, generated).spent == b.spent + cost && cost <= prices.room
            else AfterAnswer(b, prices, generated) == b
  {
    if generated.Output? {
      CostWithinRoom(prices, generated);
    }
  }

  // ---------- Runs ----------

  // Processing jobs reserve, spend and release on their own; all this model knows of them is that
  // the constraint holds after each.
  datatype Step =
    | Edit(limit: nat)
    | Question(generated: Generated)
    | Processing(spent: int, reserved: int, limitReached: bool)
    | Delete

  predicate Possible(b: Budget, step: Step) {
    match step
    case Question(generated) => KeepsQuotas(generated)
    case Processing(spent, reserved, reached) => Fits(b.(spent := spent, reserved := reserved))
    case _ => true
  }

  function Next(b: Budget, prices: ValidPrices, step: Step): Budget {
    match step
    case Edit(limit) => AfterEdit(b, limit)
    case Question(generated) => AfterAnswer(b, prices, generated)
    case Processing(spent, reserved, reached) => b.(spent := spent, reserved := reserved, limitReached := reached)
    case Delete => b.(deleted := true)
  }

  function Run(b: Budget, prices: ValidPrices, steps: seq<Step>): Budget {
    if steps == [] then b else Next(Run(b, prices, steps[..|steps| - 1]), prices, steps[|steps| - 1])
  }

  ghost predicate Possibles(b: Budget, prices: ValidPrices, steps: seq<Step>) {
    forall k :: 0 <= k < |steps| ==> Possible(Run(b, prices, steps[..k]), steps[k])
  }

  lemma StepKeepsLimit(b: Budget, prices: ValidPrices, step: Step)
    requires Fits(b) && Possible(b, step)
    ensures Fits(Next(b, prices, step))
  {
    if step.Question? {
      AnswerIsAlwaysRecorded(b, prices, step.generated);
    }
  }

  lemma PossiblePrefix(b: Budget, prices: ValidPrices, steps: seq<Step>, n: nat)
    requires Possibles(b, prices, steps) && n <= |steps|
    ensures Possibles(b, prices, steps[..n])
  {
    forall k | 0 <= k < n ensures Possible(Run(b, prices, steps[..n][..k]), steps[..n][k]) {
      assert steps[..n][..k] == steps[..k];
    }
  }

  /** In every run of edits, questions, processing and deletion, what is spent and reserved stays within
      the limit after every step. */
  lemma {:induction false} RunKeepsLimit(b: Budget, prices: ValidPrices, steps: seq<Step>)
    requires Fits(b) && Possibles(b, prices, steps)
    ensures Fits(Run(b, prices, steps))
  {
    if steps != [] {
      var n := |steps| - 1;
      PossiblePrefix(b, prices, steps, n);
      RunKeepsLimit(b, prices, steps[..n]);
      StepKeepsLimit(Run(b, prices, steps[..n]), prices, steps[n]);
    }
  }

  /** and no question of such a run ends in an internal error: an answer paid for is an answer recorded. */
  lemma NoAnswerIsLost(b: Budget, prices: ValidPrices, steps: seq<Step>, k: nat)
    requires Fits(b) && Possibles(b, prices, steps) && k < |steps| && steps[k].Question?
    ensures AnswerResult(Run(b, prices, steps[..k]), prices, steps[k].generated) != InternalError
  {
    PossiblePrefix(b, prices, steps, k);
    RunKeepsLimit(b, prices, steps[..k]);
    AnswerIsAlwaysRecorded(Run(b, prices, steps[..k]), prices, steps[k].generated);
  }

  // What the calls of a run cost: each question that found room and had an output, at its tokens.
  function TotalCost(b: Budget, prices: ValidPrices, steps: seq<Step>): int {
    if steps == [] then 0
    else
      var n := |steps| - 1;
      TotalCost(b, prices, steps[..n]) +
      match steps[n]
      case Question(Output(inputTokens, outputTokens)) =>
        if HasRoom(Run(b, prices, steps[..n]), prices.room) then CallCost(prices, inputTokens, outputTokens) else 0
      case _ => 0
  }

  /** Without processing jobs, what is spent is what the tokens of the answered questions cost: edits and
      refusals spend nothing and no cost is dropped. */
  lemma {:induction false} SpendingIsConserved(b: Budget, prices: ValidPrices, steps: seq<Step>)
    requires Fits(b) && Possibles(b, prices, steps)
    requires forall k :: 0 <= k < |steps| ==> !steps[k].Processing?
    ensures Run(b, prices, steps).spent == b.spent + TotalCost(b, prices, steps)
  {
    if steps != [] {
      var n := |steps| - 1;
      PossiblePrefix(b, prices, steps, n);
      RunKeepsLimit(b, prices, steps[..n]);
      SpendingIsConserved(b, prices, steps[..n]);
      if steps[n].Question? {
        AnswerIsAlwaysRecorded(Run(b, prices, steps[..n]), prices, steps[n].generated);
      }
    }
  }

  /** Once the limit is reached only an edit or a job can change that: any other steps charge nothing and
      leave the row as it is, but for its deletion. */
  lemma {:induction false} ReachedLimitStaysClosed(b: Budget, prices: ValidPrices, steps: seq<Step>)
    requires b.limitReached && forall k :: 0 <= k < |steps| ==> !steps[k].Edit? && !steps[k].Processing?
    ensures Run(b, prices, steps).(deleted := b.deleted) == b && TotalCost(b, prices, steps) == 0
  {
    if steps != [] {
      ReachedLimitStaysClosed(b, prices, steps[..|steps| - 1]);
    }
  }

  // ---------- Other requests between the check and the charge ----------

  /** A limit lowered to what is already committed, between the check and the charge, turns every
      positive charge into a rejected one, however much room the check saw. */
  lemma EditBetweenCheckAndCharge(b: Budget, room: nat, amount: nat)
    requires Fits(b) && Available(b, room).Ok? && 0 < amount <= room
    ensures ChargeResult(b, amount).Charged?
    ensures EditResult(b, b.Committed()) == Updated
    ensures ChargeResult(AfterEdit(b, b.Committed()), amount) == RejectedByDatabase
  {
  }

  /** Of two questions checked before either is charged, the first charge is recorded, and the second
      exactly when both fit together. */
  lemma TwoQuestionsAtOnce(b: Budget, room: nat, first: nat, second: nat)
    requires Fits(b) && Available(b, room).Ok? && first <= room && second <= room
    ensures ChargeResult(b, first).Charged?
    ensures ChargeResult(AfterCharge(b, first), second).Charged? <==> first + second <= b.limit - b.Committed()
  {
  }

  // ---------- A ceiling of zero ----------

  /** A free answer closes the case exactly when nothing is left under the limit: a case whose limit is
      zero takes one free question and refuses the next, until its limit is edited. */
  lemma FreeAnswerClosesFullCase(b: Budget, prices: ValidPrices, generated: Generated)
    requires Fits(b) && Available(b, prices.room).Ok? && generated.Output? && KeepsQuotas(generated)
    requires prices.room == 0
    ensures AnswerResult(b, prices, generated) == Answered(0)
    ensures AnswerResult(AfterAnswer(b, prices, generated), prices, generated) ==
            if b.Committed() == b.limit then Refused(BudgetReached) else Answered(0)
  {
    CostWithinRoom(prices, generated);
  }
}
