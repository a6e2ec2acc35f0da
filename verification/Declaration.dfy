/** A reconciliation's declaration: the match rules, the settlement lag, the
    known causes of a difference, and what the declaration resolves to. */
module Declaration {
  import opened Prelude
  import opened Rows
  import Calendar

  datatype Side = LeftSide | RightSide {
    function Other(): Side {
      if LeftSide? then RightSide else LeftSide
    }
  }

  datatype Direction = RightAfterLeft | LeftAfterRight

  /** Settlement lag in bank business days. */
  datatype Lag = Lag(minDays: nat, maxDays: nat, direction: Direction, timezone: Zone)

  datatype Agree = Agree(left: Path, right: Path, caseSensitive: bool)

  datatype Msisdn = Msisdn(left: Path, right: Path)

  datatype Rule =
    | ExactRef(left: Path, right: Path, caseSensitive: bool)
    | Fuzzy(amount: Path, currency: Path, amountRight: Path, currencyRight: Path,
            timestampLeft: Path, timestampRight: Path, window: nat, tolerance: int,
            lag: Option<Lag>, agree: seq<Agree>)
    | GroupRef(left: Path, right: Path, many: Side, caseSensitive: bool, maxMembers: nat)
    | GroupSum(many: Side, amount: Path, amountOne: Path, currency: Path, currencyOne: Path,
               timestampMany: Path, timestampOne: Path, share: seq<Path>, window: nat,
               lag: Option<Lag>, maxMembers: nat, maxCandidates: nat, tolerance: int)

  datatype AmountRef = AmountRef(left: Path, right: Path, currency: Path, currencyRight: Path)

  datatype Sign = Positive | Negative | Either

  datatype Explains = Explains(fields: seq<Path>, side: Side, sign: Sign, caption: string)

  datatype Reconciliation = Reconciliation(
    keys: seq<Rule>,
    amount: Option<AmountRef>,
    explains: seq<Explains>,
    identity: Option<Msisdn>)

  // ── settlement lag ──

  /** The count of `DaysAfter` in the declared direction, over dates that may be
      absent. */
  ghost function LagDays(lag: Lag, left: Option<Calendar.Date>, right: Option<Calendar.Date>): Option<nat> {
    if left == None || right == None then None
    else if lag.direction == RightAfterLeft then Calendar.DaysAfter(left.value, right.value)
    else Calendar.DaysAfter(right.value, left.value)
  }

  method ComputeLagDays(lag: Lag, left: Option<Calendar.Date>, right: Option<Calendar.Date>) returns (days: Option<nat>)
    ensures days == LagDays(lag, left, right)
  {
    if left == None || right == None {
      return None;
    }
    if lag.direction == RightAfterLeft {
      days := Calendar.BusinessDaysAfter(left.value, right.value);
    } else {
      days := Calendar.BusinessDaysAfter(right.value, left.value);
    }
  }

  ghost predicate LagAdmits(lag: Lag, left: Option<Calendar.Date>, right: Option<Calendar.Date>) {
    var n := LagDays(lag, left, right);
    n.Some? && lag.minDays <= n.value <= lag.maxDays
  }

  /** A lag never admits a pair running backwards, nor one whose calendar
      distance exceeds `4 * max_days + 3`. */
  lemma LagIsOneWayAndBounded(lag: Lag, left: Option<Calendar.Date>, right: Option<Calendar.Date>)
    requires LagAdmits(lag, left, right)
    ensures left.Some? && right.Some?
    ensures var (earlier, later) :=
              if lag.direction == RightAfterLeft then (left.value, right.value) else (right.value, left.value);
            0 <= later - earlier <= 4 * lag.maxDays + 3
  {
    if lag.direction == RightAfterLeft {
      Calendar.SpanBound(left.value, right.value);
    } else {
      Calendar.SpanBound(right.value, left.value);
    }
  }

  /** The later day is not before the earlier one, and the business days after the
      one up to and including the other are within the bounds. */
  ghost predicate LagSpan(lag: Lag, earlier: Calendar.Date, later: Calendar.Date) {
    && earlier <= later
    && lag.minDays <= |set d: Calendar.Date | earlier < d <= later && Calendar.IsBusinessDay(d)| <= lag.maxDays
  }

  /** A lag admits two dates exactly when both are known and, taken in the declared
      direction, they are that many business days apart. */
  lemma LagAdmitsIff(lag: Lag, left: Option<Calendar.Date>, right: Option<Calendar.Date>)
    ensures LagAdmits(lag, left, right)
       <==> exists a, b :: left == Some(a) && right == Some(b)
                           && if lag.direction == RightAfterLeft then LagSpan(lag, a, b) else LagSpan(lag, b, a)
  {
    if left.Some? && right.Some? {
      KnownDatesIff(lag, left.value, right.value);
    }
  }

  lemma KnownDatesIff(lag: Lag, a: Calendar.Date, b: Calendar.Date)
    ensures LagAdmits(lag, Some(a), Some(b))
       <==> if lag.direction == RightAfterLeft then LagSpan(lag, a, b) else LagSpan(lag, b, a)
  {
    if lag.direction == RightAfterLeft {
      SpanIs(a, b);
    } else {
      SpanIs(b, a);
    }
  }

  lemma SpanIs(start: Calendar.Date, end: Calendar.Date)
    ensures Calendar.DaysAfter(start, end)
         == if end < start then None
            else Some(|set d: Calendar.Date | start < d <= end && Calendar.IsBusinessDay(d)|)
  {
    assert Calendar.OpenDays(Calendar.IsBusinessDay, start, end)
        == set d: Calendar.Date | start < d <= end && Calendar.IsBusinessDay(d);
  }

  // ── identity and agreement ──

  /** Two known sets of phone numbers with none in common. */
  predicate IdentityDisagrees(spec: Option<Msisdn>, left: Row, right: Row) {
    spec.Some? &&
    var l, r := Phones(left, spec.value.left), Phones(right, spec.value.right);
    l != {} && r != {} && l !! r
  }

  predicate Contradicts(a: Agree, left: Row, right: Row) {
    var l, r := Key(left, a.left, a.caseSensitive), Key(right, a.right, a.caseSensitive);
    l.Some? && r.Some? && l != r
  }

  // ── what the declaration resolves to ──

  /** Which side a rule takes one record at a time from. */
  function OneSide(rule: Rule): Side {
    match rule
    case GroupRef(_, _, many, _, _) => many.Other()
    case GroupSum(many, _, _, _, _, _, _, _, _, _, _, _, _) => many.Other()
    case _ => LeftSide
  }

  function SumAmounts(rule: Rule): AmountRef
    requires rule.GroupSum?
  {
    if rule.many == LeftSide then AmountRef(rule.amount, rule.amountOne, rule.currency, rule.currencyOne)
    else AmountRef(rule.amountOne, rule.amount, rule.currencyOne, rule.currency)
  }

  /** The explicit amount, or the first Fuzzy or GroupSum rule's. */
  function ResolvedAmount(spec: Reconciliation): Option<AmountRef> {
    if spec.amount.Some? then spec.amount else FirstAmount(spec.keys)
  }

  function FirstAmount(keys: seq<Rule>): Option<AmountRef> {
    if keys == [] then None
    else match keys[0]
      case Fuzzy(amount, currency, amountRight, currencyRight, _, _, _, _, _, _) =>
        Some(AmountRef(amount, amountRight, currency, currencyRight))
      case GroupSum(_, _, _, _, _, _, _, _, _, _, _, _, _) => Some(SumAmounts(keys[0]))
      case _ => FirstAmount(keys[1..])
  }

  /** The timestamp paths of the first rule that has any. */
  function TimestampPaths(keys: seq<Rule>): (Option<Path>, Option<Path>) {
    if keys == [] then (None, None)
    else match keys[0]
      case Fuzzy(_, _, _, _, l, r, _, _, _, _) => (Some(l), Some(r))
      case GroupSum(many, _, _, _, _, m, o, _, _, _, _, _, _) =>
        if many == LeftSide then (Some(m), Some(o)) else (Some(o), Some(m))
      case _ => TimestampPaths(keys[1..])
  }
}
