/** `BarrierCallPut`: a call or put with a barrier, observed on a regular
    fixing schedule. The constructor validates the terms and lays out the
    schedule; `eval` at the last fixing writes the single payment. */
module BarrierProduct {
  import opened Wrappers

  /** How often the barrier is observed: the underlying values of `Freq`'s
      enumerators. A `Freq` converted from a number may hold any other value. */
  const Monthly: int := 0
  const Weekly: int := 1
  const Daily: int := 2

  /** `DAYS_PER_YEAR` */
  const DaysPerYear: real := 365.25

  /** The constructor's `switch`: fixings per year of each frequency, and the
      exception of its `default` branch for any other value. */
  function TimeFactor(f: int): (r: Result<real, ProductError>)
    ensures r.Success? <==> Monthly <= f <= Daily
    ensures r.Success? ==> r.value >= 12.0
    ensures r.Failure? ==> r.error == UnknownFrequency
  {
    if f == Monthly then Success(12.0)
    else if f == Weekly then Success(52.0)
    else if f == Daily then Success(DaysPerYear)
    else Failure(UnknownFrequency)
  }

  /** The exceptions of the constructor and of `eval(Matrix)`. */
  datatype ProductError = BadPayoffType | NegativeStrike | NegativeBarrier | UnknownFrequency | Expired | NotImplemented

  /** The first three checks of the constructor. */
  predicate ValidTerms(payoffType: int, strike: real, barrier: real)
  {
    (payoffType == 1 || payoffType == -1) && strike >= 0.0 && barrier >= 0.0
  }

  /** The conversion of a double to `size_t`: truncation toward zero,
      defined only for values above -1. */
  function SizeCast(x: real): (n: nat)
    requires x > -1.0
    ensures x >= 0.0 ==> n as real <= x < n as real + 1.0
    ensures x < 1.0 ==> n == 0
  {
    if x >= 0.0 then x.Floor else 0
  }

  /** `ceil` of a real. */
  function Ceil(x: real): (c: int)
    ensures x <= c as real < x + 1.0
  {
    -((-x).Floor)
  }

  /** The count is converted to an integer before `ceil` sees it, so
      rounding up never adds a stub period. */
  lemma NoStub(n: nat)
    ensures Ceil(n as real) == n
  {
  }

  /** `nfixings`: the number of fixings of a product expiring at `T`. */
  function FixingCount(T: real, f: real): nat
    requires T * f + 1.0 > -1.0
  {
    SizeCast(T * f + 1.0)
  }

  /** The schedule has `floor(T * f) + 1` fixings, none once the product has expired. */
  lemma FixingCountFloor(T: real, f: real)
    requires f > 0.0 && T * f + 1.0 > -1.0
    ensures T >= 0.0 ==> FixingCount(T, f) == (T * f).Floor + 1 && FixingCount(T, f) >= 1
    ensures T < 0.0 ==> FixingCount(T, f) == 0
  {
    if T >= 0.0 {
      assert T * f >= 0.0;
    } else {
      assert T * f < 0.0;
    }
  }

  /** The fixing times: `i / f` for every fixing but the last, which is `T`. */
  function FixingTimes(T: real, f: real, n: nat): (s: seq<real>)
    requires f > 0.0
  {
    seq(n, i requires 0 <= i < n => if i == n - 1 then T else i as real / f)
  }

  lemma DivBelow(a: real, f: real, T: real)
    requires f > 0.0 && a < T * f
    ensures a / f < T
  {
    var q := a / f;
    assert q * f == a;
    if q >= T {
      MulMonotone(T, q, f);
    }
  }

  lemma MulMonotone(a: real, b: real, f: real)
    requires a <= b && f > 0.0
    ensures a * f <= b * f
  {
  }

  lemma DivMonotone(a: real, b: real, f: real)
    requires a < b && f > 0.0
    ensures a / f < b / f
  {
    var qa, qb := a / f, b / f;
    assert qa * f == a && qb * f == b;
    if qa >= qb {
      MulMonotone(qb, qa, f);
    }
  }

  /** The count minus one is at most `T * f`. */
  lemma FixingCountBelow(T: real, f: real)
    requires T >= 0.0 && f > 0.0
    ensures FixingCount(T, f) >= 1 && (FixingCount(T, f) - 1) as real <= T * f
  {
    FixingCountFloor(T, f);
  }

  /** The schedule starts at 0 and ends at the expiry, every fixing in `[0, T]`. */
  lemma ScheduleEnds(T: real, f: real)
    requires T >= 0.0 && f > 0.0
    ensures var n := FixingCount(T, f); var s := FixingTimes(T, f, n);
      n >= 1 && |s| == n && s[n - 1] == T && (n >= 2 ==> s[0] == 0.0) &&
      (forall i :: 0 <= i < n ==> 0.0 <= s[i] <= T)
  {
    FixingCountBelow(T, f);
    var n := FixingCount(T, f);
    var s := FixingTimes(T, f, n);
    forall i | 0 <= i < n ensures 0.0 <= s[i] <= T {
      if i < n - 1 {
        DivBelow(i as real, f, T);
      }
    }
  }

  /** Consecutive fixings before the expiry are `1 / f` apart. */
  lemma ScheduleSteps(T: real, f: real)
    requires T >= 0.0 && f > 0.0
    ensures var n := FixingCount(T, f); var s := FixingTimes(T, f, n);
      forall i :: 0 <= i && i + 2 < n ==> s[i + 1] - s[i] == 1.0 / f
  {
    var n := FixingCount(T, f);
    var s := FixingTimes(T, f, n);
    forall i | 0 <= i && i + 2 < n ensures s[i + 1] - s[i] == 1.0 / f {
      var a := i as real;
      assert s[i] == a / f;
      assert s[i + 1] == (a + 1.0) / f;
      DivDifference(a, f);
    }
  }

  lemma DivDifference(a: real, f: real)
    requires f > 0.0
    ensures (a + 1.0) / f - a / f == 1.0 / f
  {
    var qa, qb, q := a / f, (a + 1.0) / f, 1.0 / f;
    assert qa * f == a && qb * f == a + 1.0 && q * f == 1.0;
    assert (qb - qa - q) * f == 0.0;
  }

  /** The fixing times are strictly increasing. */
  lemma ScheduleIncreasing(T: real, f: real)
    requires T >= 0.0 && f > 0.0
    ensures var n := FixingCount(T, f); var s := FixingTimes(T, f, n);
      forall i, j :: 0 <= i < j < n ==> s[i] < s[j]
  {
    FixingCountBelow(T, f);
    var n := FixingCount(T, f);
    var s := FixingTimes(T, f, n);
    forall i, j | 0 <= i < j < n ensures s[i] < s[j] {
      if j < n - 1 {
        DivMonotone(i as real, j as real, f);
      } else {
        DivBelow(i as real, f, T);
      }
    }
  }

  /** The payment at the last fixing: the payoff when positive and the
      continuation value is not 1, else nothing. */
  function Payment(payoffType: int, strike: real, spot: real, contValue: real): (p: real)
    ensures p >= 0.0
    ensures p > 0.0 <==> (spot - strike) * payoffType as real > 0.0 && contValue != 1.0
    ensures p > 0.0 ==> p == (spot - strike) * payoffType as real
  {
    var payoff := (spot - strike) * payoffType as real;
    if payoff > 0.0 && contValue != 1.0 then payoff else 0.0
  }

  /** The continuation value of `eval` before the last fixing, as written:
      the down-barrier assignment runs after the up-barrier one and
      overwrites it. */
  function ContinuationAsWritten(barrierType0: char, spot: real, barrier: real, contValue: real): real
  {
    var up := if barrierType0 == 'u' && spot >= barrier && contValue != 1.0 then 1.0 else 0.0;
    if barrierType0 == 'd' && spot <= barrier && up != 1.0 then 1.0 else 0.0
  }

  /** The continuation value as evidently intended: 1 when the barrier of
      the product's kind is touched and the value was not already 1. */
  function ContinuationFlag(barrierType0: char, spot: real, barrier: real, contValue: real): (c: real)
    ensures c == 1.0 || c == 0.0
    ensures c == 1.0 <==>
              contValue != 1.0 &&
              ((barrierType0 == 'u' && spot >= barrier) || (barrierType0 == 'd' && spot <= barrier))
  {
    if barrierType0 == 'u' then
      (if spot >= barrier && contValue != 1.0 then 1.0 else 0.0)
    else
      (if barrierType0 == 'd' && spot <= barrier && contValue != 1.0 then 1.0 else 0.0)
  }

  /** As written, an up barrier never sets the flag. */
  lemma UpBarrierLost(spot: real, barrier: real, contValue: real)
    ensures ContinuationAsWritten('u', spot, barrier, contValue) == 0.0
  {
  }

  /** An up-and-out product whose spot is above the barrier. */
  lemma UpBarrierCounterexample()
    ensures ContinuationAsWritten('u', 120.0, 100.0, 0.0) == 0.0
    ensures ContinuationFlag('u', 120.0, 100.0, 0.0) == 1.0
  {
  }

  /** On a down barrier the two agree unless the incoming value was 1. */
  lemma DownBarrierAgrees(spot: real, barrier: real, contValue: real)
    requires contValue != 1.0
    ensures ContinuationAsWritten('d', spot, barrier, contValue) == ContinuationFlag('d', spot, barrier, contValue)
  {
  }

  class BarrierCallPut {
    /** `payoffType_`: 1 for a call, -1 for a put. */
    const payoffType: int
    const strike: real
    const barrier: real
    const barrierType: string
    const frequency: int
    const timeToExp: real
    /** `fixTimes_`, `payTimes_` and `payAmounts_` of the `Product` base. */
    var fixTimes: array<real>
    var payTimes: array<real>
    var payAmounts: array<real>

    ghost predicate Valid()
      reads this, fixTimes, payTimes, payAmounts
    {
      ValidTerms(payoffType, strike, barrier) && timeToExp >= 0.0 &&
      fixTimes != payAmounts && payTimes != payAmounts && fixTimes != payTimes &&
      TimeFactor(frequency).Success? &&
      fixTimes[..] == FixingTimes(timeToExp, TimeFactor(frequency).value, FixingCount(timeToExp, TimeFactor(frequency).value)) &&
      payTimes[..] == [timeToExp] &&
      payAmounts.Length == 1 && payAmounts[0] >= 0.0
    }

    /** The member initialisers, before any check. */
    constructor Init(payoffType: int, strike: real, barrier: real, barrierType: string, frequency: int, timeToExp: real)
      ensures this.payoffType == payoffType && this.strike == strike && this.barrier == barrier
      ensures this.barrierType == barrierType && this.frequency == frequency && this.timeToExp == timeToExp
      ensures fresh(fixTimes) && fresh(payTimes) && fresh(payAmounts)
    {
      this.payoffType := payoffType;
      this.strike := strike;
      this.barrier := barrier;
      this.barrierType := barrierType;
      this.frequency := frequency;
      this.timeToExp := timeToExp;
      fixTimes := new real[0];
      payTimes := new real[0];
      payAmounts := new real[0];
    }

    /** The constructor: it checks the payoff type, the strike and the
        barrier in that order, refuses an unknown frequency, then an expired product, and fills the
        schedule, the single payment time and the single payment. */
    static method Create(payoffType: int, strike: real, barrier: real, barrierType: string, frequency: int, timeToExp: real)
      returns (r: Result<BarrierCallPut, ProductError>)
      requires ValidTerms(payoffType, strike, barrier) && TimeFactor(frequency).Success? ==>
                 timeToExp * TimeFactor(frequency).value + 1.0 > -1.0
      ensures r.Failure? ==>
                r.error == (if payoffType != 1 && payoffType != -1 then BadPayoffType
                            else if strike < 0.0 then NegativeStrike
                            else if barrier < 0.0 then NegativeBarrier
                            else if TimeFactor(frequency).Failure? then UnknownFrequency
                            else Expired)
      ensures r.Failure? <==>
                !ValidTerms(payoffType, strike, barrier) || TimeFactor(frequency).Failure? || timeToExp < 0.0
      ensures r.Success? ==>
                var b := r.value;
                fresh(b) && fresh(b.fixTimes) && fresh(b.payTimes) && fresh(b.payAmounts) && b.Valid() &&
                b.payoffType == payoffType && b.strike == strike && b.barrier == barrier &&
                b.barrierType == barrierType && b.frequency == frequency && b.timeToExp == timeToExp &&
                b.payAmounts[0] == 0.0
    {
      if payoffType != 1 && payoffType != -1 {
        return Failure(BadPayoffType);
      }
      if strike < 0.0 {
        return Failure(NegativeStrike);
      }
      if barrier < 0.0 {
        return Failure(NegativeBarrier);
      }
      var factor := TimeFactor(frequency);
      if factor.Failure? {
        return Failure(UnknownFrequency);
      }
      var timeFactor := factor.value;
      var nfixings := SizeCast(timeToExp * timeFactor + 1.0);
      var roundedUp := Ceil(nfixings as real);
      FixingCountFloor(timeToExp, timeFactor);
      if roundedUp <= 0 {
        return Failure(Expired);
      }
      assert roundedUp == nfixings;
      var b := new BarrierCallPut.Init(payoffType, strike, barrier, barrierType, frequency, timeToExp);
      b.fixTimes := LayOutFixings(timeToExp, timeFactor, nfixings);
      b.payTimes := new real[1](_ => timeToExp);
      b.payAmounts := new real[1](_ => 0.0);
      return Success(b);
    }

    /** The loop of the constructor that fills the fixing times. The stub
        time and the offset it adds are 0: `ceil` of a whole number of
        fixings is that number (`NoStub`). */
    static method LayOutFixings(timeToExp: real, timeFactor: real, nfixings: nat) returns (fix: array<real>)
      requires timeFactor > 0.0 && 1 <= nfixings
      ensures fresh(fix) && fix[..] == FixingTimes(timeToExp, timeFactor, nfixings)
    {
      fix := new real[nfixings](_ => 0.0);
      fix[0] := 0.0;
      var i := 0;
      while i < nfixings - 1
        invariant 0 <= i <= nfixings - 1
        invariant forall k :: 0 <= k < i ==> fix[k] == k as real / timeFactor
      {
        fix[i] := i as real / timeFactor;
        i := i + 1;
      }
      fix[nfixings - 1] := timeToExp;
    }

    /** `eval(pricePath)`: not implemented, it always throws. */
    method EvalPath(pricePath: seq<seq<real>>) returns (o: Outcome<ProductError>)
      ensures o == Fail(NotImplemented)
    {
      return Fail(NotImplemented);
    }

    /** `eval(idx, spots, contValue)`: at the last fixing it writes the
        payment; before it, it only recomputes its own copy of the
        continuation value, so nothing the object holds changes. */
    method Eval(idx: nat, spots: seq<real>, contValue: real)
      requires Valid() && |spots| >= 1
      modifies payAmounts
      ensures Valid()
      ensures idx == fixTimes.Length - 1 ==> payAmounts[0] == Payment(payoffType, strike, spots[0], contValue)
      ensures idx != fixTimes.Length - 1 ==> payAmounts[0] == old(payAmounts[0])
    {
      var spot := spots[0];
      if idx == fixTimes.Length - 1 {
        payAmounts[0] := Payment(payoffType, strike, spot, contValue);
      } else {
        var kind := if |barrierType| > 0 then barrierType[0] else '\0';
        var _ := ContinuationAsWritten(kind, spot, barrier, contValue);
      }
    }
  }
}
