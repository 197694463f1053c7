/** The discrete logic of the simple pricers: the argument checks of
    `fwdPrice`, the validation and formula-selection table of
    `barrierOptionBS` (which rewrites the caller's barrier type for puts), and
    the arrays and sums of `cdsPV`. The closed-form formulas, `exp` and the
    discount curve are parameters. */
module SimplePricers {
  import opened Wrappers
  import opened CStrings

  /** The exceptions the pricers throw, one per check. */
  datatype PricerError =
    | NegativeSpot | NegativeTime | NegativeRate | NegativeDivYield
    | BadPayoffType | NegativeStrike | NegativeBarrier | NegativeVolatility | BadBarrierType
    | NonPositiveSpread | NegativeCdsRate | RecoveryOutOfRange | NegativeMaturity | ZeroPayFrequency

  /** `std::exp` stands in as a parameter with the properties the proofs use. */
  type Exp = real -> real

  ghost predicate ExpLike(exp: Exp)
  {
    exp(0.0) == 1.0 && forall x :: 0.0 < exp(x) && (x <= 0.0 ==> exp(x) <= 1.0)
  }

  // ---- fwdPrice

  /** The checks of `fwdPrice`, in order. */
  function FwdCheck(spot: real, timeToExp: real, intRate: real, divYield: real): Outcome<PricerError>
  {
    if spot < 0.0 then Fail(NegativeSpot)
    else if timeToExp < 0.0 then Fail(NegativeTime)
    else if intRate < 0.0 then Fail(NegativeRate)
    else if divYield < 0.0 then Fail(NegativeDivYield)
    else Pass
  }

  /** `fwdPrice`: the forward `spot * exp((r - q) * T)`, after the checks. */
  function FwdPrice(spot: real, timeToExp: real, intRate: real, divYield: real, exp: Exp): (r: Result<real, PricerError>)
    ensures r.Failure? <==> spot < 0.0 || timeToExp < 0.0 || intRate < 0.0 || divYield < 0.0
    ensures spot < 0.0 ==> r == Failure(NegativeSpot)
    ensures r.Failure? ==> r.error == FwdCheck(spot, timeToExp, intRate, divYield).error
  {
    match FwdCheck(spot, timeToExp, intRate, divYield)
    case Fail(e) => Failure(e)
    case Pass => Success(spot * exp((intRate - divYield) * timeToExp))
  }

  /** A forward is never negative, and with no time or no carry it is the spot. */
  lemma FwdPriceProperties(spot: real, timeToExp: real, intRate: real, divYield: real, exp: Exp)
    requires ExpLike(exp)
    ensures FwdPrice(spot, timeToExp, intRate, divYield, exp).Success? ==>
              var fwd := FwdPrice(spot, timeToExp, intRate, divYield, exp).value;
              fwd >= 0.0 && (timeToExp == 0.0 || intRate == divYield ==> fwd == spot)
  {
    if FwdCheck(spot, timeToExp, intRate, divYield).Pass? {
      var g := exp((intRate - divYield) * timeToExp);
      assert g > 0.0;
      assert spot * g >= 0.0;
      if timeToExp == 0.0 || intRate == divYield {
        assert (intRate - divYield) * timeToExp == 0.0;
      }
    }
  }

  // ---- barrierOptionBS

  /** The arguments shared by the barrier formulas. */
  datatype BarrierTerms = BarrierTerms(
    payoffType: int, spot: real, strike: real, barrier: real,
    timeToExp: real, intRate: real, divYield: real, volatility: real)

  /** The closed forms: `europeanOptionBS(...)[0]`, `barrierCdiPui`,
      `barrierCdoPuo` and `barrierCuiPdi`. */
  datatype Formulas = Formulas(
    european: BarrierTerms -> real,
    cdiPui: BarrierTerms -> real,
    cdoPuo: BarrierTerms -> real,
    cuiPdi: BarrierTerms -> real)

  /** `europeanOptionBS` as far as the barrier pricer sees it: its checks,
      then the price. */
  function EuropeanOptionBS(t: BarrierTerms, f: Formulas): (r: Result<real, PricerError>)
    ensures r.Failure? <==>
              (t.payoffType != 1 && t.payoffType != -1) || t.strike < 0.0 || t.volatility < 0.0 ||
              FwdCheck(t.spot, t.timeToExp, t.intRate, t.divYield).Fail?
    ensures t.payoffType != 1 && t.payoffType != -1 ==> r == Failure(BadPayoffType)
    ensures (t.payoffType == 1 || t.payoffType == -1) && t.strike < 0.0 ==> r == Failure(NegativeStrike)
    ensures (t.payoffType == 1 || t.payoffType == -1) && t.strike >= 0.0 && t.volatility < 0.0 ==>
              r == Failure(NegativeVolatility)
    ensures (t.payoffType == 1 || t.payoffType == -1) && t.strike >= 0.0 && t.volatility >= 0.0 ==>
              forall exp: Exp {:trigger FwdPrice(t.spot, t.timeToExp, t.intRate, t.divYield, exp)} ::
                FwdPrice(t.spot, t.timeToExp, t.intRate, t.divYield, exp).Failure? ==>
                  r == Failure(FwdPrice(t.spot, t.timeToExp, t.intRate, t.divYield, exp).error)
    ensures r.Success? ==> r.value == f.european(t)
  {
    if t.payoffType != 1 && t.payoffType != -1 then Failure(BadPayoffType)
    else if t.strike < 0.0 then Failure(NegativeStrike)
    else if t.volatility < 0.0 then Failure(NegativeVolatility)
    else match FwdCheck(t.spot, t.timeToExp, t.intRate, t.divYield)
      case Fail(e) => Failure(e)
      case Pass => Success(f.european(t))
  }

  predicate IsBarrierKind(k: seq<char>)
  {
    k == "uo" || k == "ui" || k == "do" || k == "di"
  }

  /** The checks of `barrierOptionBS` on its own arguments, then those of
      `europeanOptionBS`, in order. */
  function BarrierCheck(t: BarrierTerms, kind: seq<char>): Outcome<PricerError>
  {
    if t.payoffType != 1 && t.payoffType != -1 then Fail(BadPayoffType)
    else if t.strike < 0.0 then Fail(NegativeStrike)
    else if t.barrier < 0.0 then Fail(NegativeBarrier)
    else if t.volatility < 0.0 then Fail(NegativeVolatility)
    else if !IsBarrierKind(kind) then Fail(BadBarrierType)
    else FwdCheck(t.spot, t.timeToExp, t.intRate, t.divYield)
  }

  /** The barrier pricer accepts exactly a payoff type of 1 or -1, one of the
      four barrier kinds and non-negative strike, barrier, volatility, spot,
      time, rate and yield. */
  lemma BarrierCheckPasses(t: BarrierTerms, kind: seq<char>)
    ensures BarrierCheck(t, kind).Pass? <==>
              (t.payoffType == 1 || t.payoffType == -1) && IsBarrierKind(kind) &&
              t.strike >= 0.0 && t.barrier >= 0.0 && t.volatility >= 0.0 &&
              t.spot >= 0.0 && t.timeToExp >= 0.0 && t.intRate >= 0.0 && t.divYield >= 0.0
  {
  }

  /** The first letter of the barrier kind after the put rewrite. */
  function Flip(c: char): char
  {
    if c == 'u' then 'd' else 'u'
  }

  /** The kind the formula table sees: for a put, up and down swap. */
  function Effective(payoffType: int, kind: seq<char>): (k: seq<char>)
    requires IsBarrierKind(kind)
    ensures IsBarrierKind(k) && k[1] == kind[1]
    ensures payoffType == -1 ==> k[0] != kind[0]
    ensures payoffType != -1 ==> k == kind
  {
    if payoffType == -1 then kind[0 := Flip(kind[0])] else kind
  }

  /** The price `barrierOptionBS` returns for valid arguments. */
  function BarrierPrice(t: BarrierTerms, kind: seq<char>, f: Formulas): real
    requires IsBarrierKind(kind)
  {
    var vanilla := f.european(t);
    var check := (t.barrier <= t.strike) != (t.payoffType == -1);
    var k := Effective(t.payoffType, kind);
    if check then
      if k == "di" then f.cdiPui(t)
      else if k == "do" then vanilla - f.cdiPui(t)
      else if k == "ui" then vanilla
      else 0.0
    else
      if k == "di" then vanilla - f.cdoPuo(t)
      else if k == "do" then f.cdoPuo(t)
      else if k == "ui" then f.cuiPdi(t)
      else vanilla - f.cuiPdi(t)
  }

  /** In-out parity: knock-in plus knock-out is the vanilla option, for both
      barrier directions, whatever the formulas. */
  lemma InOutParity(t: BarrierTerms, f: Formulas)
    ensures BarrierPrice(t, "di", f) + BarrierPrice(t, "do", f) == f.european(t)
    ensures BarrierPrice(t, "ui", f) + BarrierPrice(t, "uo", f) == f.european(t)
  {
    var k1, k2 := Effective(t.payoffType, "di"), Effective(t.payoffType, "do");
    var k3, k4 := Effective(t.payoffType, "ui"), Effective(t.payoffType, "uo");
    if t.payoffType == -1 {
      assert k1 == "ui" && k2 == "uo" && k3 == "di" && k4 == "do";
    }
  }

  /** With the barrier at or below the strike of a call (above the strike of
      a put) the up-and-in call (down-and-in put) is the vanilla option and
      its knock-out partner is worthless. */
  lemma CheckedBarrier(t: BarrierTerms, f: Formulas)
    ensures t.payoffType == 1 && t.barrier <= t.strike ==>
              BarrierPrice(t, "ui", f) == f.european(t) && BarrierPrice(t, "uo", f) == 0.0
    ensures t.payoffType == -1 && t.barrier > t.strike ==>
              BarrierPrice(t, "di", f) == f.european(t) && BarrierPrice(t, "do", f) == 0.0
  {
    if t.payoffType == -1 {
      assert Effective(-1, "di") == "ui" && Effective(-1, "do") == "uo";
    }
  }

  /** `barrierOptionBS`: checks its arguments, prices the vanilla option
      (which checks the market data), rewrites the caller's barrier type and
      the barrier test for a put, and selects the formula. */
  method BarrierOptionBS(payoffType: int, barrierType: array<char>, spot: real, strike: real,
                         barrier: real, timeToExp: real, intRate: real, divYield: real,
                         volatility: real, f: Formulas)
    returns (r: Result<real, PricerError>)
    modifies barrierType
    ensures var t := BarrierTerms(payoffType, spot, strike, barrier, timeToExp, intRate, divYield, volatility);
      var kind := CStr(old(barrierType[..]));
      (r.Failure? <==> BarrierCheck(t, kind).Fail?) &&
      (r.Failure? ==> r.error == BarrierCheck(t, kind).error && barrierType[..] == old(barrierType[..])) &&
      (r.Success? ==> r.value == BarrierPrice(t, kind, f)) &&
      (r.Success? && payoffType == -1 ==> barrierType[..] == old(barrierType[..])[0 := Flip(old(barrierType[0]))]) &&
      (r.Success? && payoffType != -1 ==> barrierType[..] == old(barrierType[..]))
  {
    var t := BarrierTerms(payoffType, spot, strike, barrier, timeToExp, intRate, divYield, volatility);
    if payoffType != 1 && payoffType != -1 {
      return Failure(BadPayoffType);
    }
    if strike < 0.0 {
      return Failure(NegativeStrike);
    }
    if barrier < 0.0 {
      return Failure(NegativeBarrier);
    }
    if volatility < 0.0 {
      return Failure(NegativeVolatility);
    }
    var kind := CStr(barrierType[..]);
    if !IsBarrierKind(kind) {
      return Failure(BadBarrierType);
    }
    var barrierCheck := barrier <= strike;
    var option := EuropeanOptionBS(t, f);
    if option.Failure? {
      return Failure(option.error);
    }
    var optionPrice := option.value;
    if payoffType == -1 {
      CStrFirst(barrierType[..], Flip(barrierType[0]));
      barrierType[0] := if barrierType[0] == 'u' then 'd' else 'u';
      barrierCheck := !barrierCheck;
    }
    kind := CStr(barrierType[..]);
    var price := 0.0;
    if barrierCheck {
      if kind == "di" {
        price := f.cdiPui(t);
      } else if kind == "do" {
        price := optionPrice - f.cdiPui(t);
      } else if kind == "ui" {
        price := optionPrice;
      } else {
        price := 0.0;
      }
    } else {
      if kind == "di" {
        price := optionPrice - f.cdoPuo(t);
      } else if kind == "do" {
        price := f.cdoPuo(t);
      } else if kind == "ui" {
        price := f.cuiPdi(t);
      } else {
        price := optionPrice - f.cuiPdi(t);
      }
    }
    return Success(price);
  }

  // ---- cdsPV

  /** `epsilon` of `cdsPV`: keeps the divisor positive when the recovery is 1. */
  const Epsilon: real := 0.000000000001

  /** `ceil` of a real. */
  function Ceil(x: real): (c: int)
    ensures x <= c as real < x + 1.0
  {
    -((-x).Floor)
  }

  /** The checks of `cdsPV`, in order. */
  function CdsCheck(credSprd: real, cdsRate: real, recov: real, timeToMat: real, payFreq: nat): Outcome<PricerError>
  {
    if credSprd <= 0.0 then Fail(NonPositiveSpread)
    else if cdsRate < 0.0 then Fail(NegativeCdsRate)
    else if recov < 0.0 || recov > 1.0 then Fail(RecoveryOutOfRange)
    else if timeToMat < 0.0 then Fail(NegativeMaturity)
    else if payFreq < 1 then Fail(ZeroPayFrequency)
    else Pass
  }

  /** `npay`: the number of premium periods up to maturity, rounded up. */
  function NumPayments(timeToMat: real, payFreq: nat): nat
    requires timeToMat >= 0.0
  {
    var c := Ceil(timeToMat * payFreq as real);
    if c < 0 then 0 else c
  }

  /** The payment times: regular periods of `1 / payFreq` counted back from maturity. */
  function PayTimes(timeToMat: real, payFreq: nat, n: nat): (s: seq<real>)
    requires payFreq >= 1
    ensures |s| == n
  {
    seq(n, j requires 0 <= j < n => timeToMat - (n - 1 - j) as real * (1.0 / payFreq as real))
  }

  function Clamp(x: real): (y: real)
    ensures y >= 0.0 && (x >= 0.0 ==> y == x)
  {
    if x > 0.0 then x else 0.0
  }

  /** The survival probabilities: recovery-adjusted, clamped at 0 and rescaled. */
  function SurvProbs(paytimes: seq<real>, credSprd: real, recov: real, exp: Exp): (s: seq<real>)
    requires recov <= 1.0
    ensures |s| == |paytimes|
  {
    seq(|paytimes|, i requires 0 <= i < |paytimes| => SurvProb(paytimes[i], credSprd, recov, exp))
  }

  /** The survival probability to payment time `t`. */
  function SurvProb(t: real, credSprd: real, recov: real, exp: Exp): real
    requires recov <= 1.0
  {
    Clamp(exp(-credSprd * t) - recov) / (1.0 - recov + Epsilon)
  }

  /** The accrual period ending at payment `i`. */
  function Period(paytimes: seq<real>, i: nat): real
    requires i < |paytimes|
  {
    if i == 0 then paytimes[i] else paytimes[i] - paytimes[i - 1]
  }

  /** The default probability of period `i`. */
  function DefaultProb(survprob: seq<real>, i: nat): real
    requires i < |survprob|
  {
    if i == 0 then 1.0 - survprob[i] else survprob[i - 1] - survprob[i]
  }

  /** `pvpl` after the first `k` periods. */
  function PremiumLeg(paytimes: seq<real>, survprob: seq<real>, discount: real -> real, cdsRate: real, k: nat): real
    requires k <= |paytimes| == |survprob|
  {
    if k == 0 then 0.0
    else PremiumLeg(paytimes, survprob, discount, cdsRate, k - 1)
         + cdsRate * Period(paytimes, k - 1) * survprob[k - 1] * discount(paytimes[k - 1])
  }

  /** `pvdl` after the first `k` periods. */
  function DefaultLeg(paytimes: seq<real>, survprob: seq<real>, discount: real -> real, recov: real, k: nat): real
    requires k <= |paytimes| == |survprob|
  {
    if k == 0 then 0.0
    else DefaultLeg(paytimes, survprob, discount, recov, k - 1)
         + (1.0 - recov) * DefaultProb(survprob, k - 1) * discount(paytimes[k - 1])
  }

  /** What `cdsPV` returns for valid arguments: the default leg and the premium leg. */
  function CdsLegs(discount: real -> real, credSprd: real, cdsRate: real, recov: real,
                   timeToMat: real, payFreq: nat, exp: Exp): (real, real)
    requires CdsCheck(credSprd, cdsRate, recov, timeToMat, payFreq).Pass?
  {
    var n := NumPayments(timeToMat, payFreq);
    var pt := PayTimes(timeToMat, payFreq, n);
    var sp := SurvProbs(pt, credSprd, recov, exp);
    (DefaultLeg(pt, sp, discount, recov, n), PremiumLeg(pt, sp, discount, cdsRate, n))
  }

  /** With no premium period both legs are 0; that happens exactly at maturity 0. */
  lemma NoPayments(discount: real -> real, credSprd: real, cdsRate: real, recov: real,
                   timeToMat: real, payFreq: nat, exp: Exp)
    requires CdsCheck(credSprd, cdsRate, recov, timeToMat, payFreq).Pass?
    ensures NumPayments(timeToMat, payFreq) == 0 <==> timeToMat == 0.0
    ensures timeToMat == 0.0 ==> CdsLegs(discount, credSprd, cdsRate, recov, timeToMat, payFreq, exp) == (0.0, 0.0)
  {
    if timeToMat > 0.0 {
      assert timeToMat * payFreq as real > 0.0;
    }
  }

  lemma DivByFreq(k: real, payFreq: nat)
    requires payFreq >= 1
    ensures k * (1.0 / payFreq as real) == k / payFreq as real
  {
  }

  /** The last payment is at maturity, payments are `1 / payFreq` apart, and
      the first one falls in `(0, 1 / payFreq]`. */
  lemma PayTimesShape(timeToMat: real, payFreq: nat)
    requires timeToMat >= 0.0 && payFreq >= 1
    ensures var n := NumPayments(timeToMat, payFreq); var pt := PayTimes(timeToMat, payFreq, n);
      n >= 1 ==>
        pt[n - 1] == timeToMat &&
        (forall i :: 0 < i < n ==> pt[i] - pt[i - 1] == 1.0 / payFreq as real) &&
        0.0 < pt[0] <= 1.0 / payFreq as real
  {
    var n := NumPayments(timeToMat, payFreq);
    var pt := PayTimes(timeToMat, payFreq, n);
    var d := 1.0 / payFreq as real;
    if n >= 1 {
      forall i | 0 < i < n ensures pt[i] - pt[i - 1] == d {
        var a := (n - 1 - i) as real;
        assert pt[i] == timeToMat - a * d;
        assert pt[i - 1] == timeToMat - (a + 1.0) * d;
      }
      var m := (n - 1) as real;
      assert pt[0] == timeToMat - m * d;
      FirstPeriod(timeToMat, payFreq as real, m, d);
    }
  }

  lemma FirstPeriod(T: real, f: real, m: real, d: real)
    requires f >= 1.0 && d * f == 1.0 && m < T * f <= m + 1.0
    ensures 0.0 < T - m * d <= d
  {
    assert m * d * f == m;
    assert T * f * d == T;
    assert (m + 1.0) * d * f == m + 1.0;
    assert d > 0.0;
    MulStrict(m, T * f, d);
    MulWeak(T * f, m + 1.0, d);
  }

  lemma MulStrict(a: real, b: real, d: real)
    requires a < b && d > 0.0
    ensures a * d < b * d
  {
  }

  lemma MulWeak(a: real, b: real, d: real)
    requires a <= b && d > 0.0
    ensures a * d <= b * d
  {
  }

  /** Every survival probability is non-negative; with a positive spread,
      payment times that are not negative and an `exp` of the usual shape it
      is also below 1. */
  lemma SurvProbsBounded(paytimes: seq<real>, credSprd: real, recov: real, exp: Exp)
    requires 0.0 <= recov <= 1.0
    ensures forall i :: 0 <= i < |paytimes| ==> SurvProbs(paytimes, credSprd, recov, exp)[i] >= 0.0
    ensures ExpLike(exp) && credSprd > 0.0 && (forall i :: 0 <= i < |paytimes| ==> paytimes[i] >= 0.0) ==>
              forall i :: 0 <= i < |paytimes| ==> SurvProbs(paytimes, credSprd, recov, exp)[i] < 1.0
  {
    var sp := SurvProbs(paytimes, credSprd, recov, exp);
    var den := 1.0 - recov + Epsilon;
    assert den > 0.0;
    forall i | 0 <= i < |paytimes| ensures sp[i] >= 0.0 {
      assert sp[i] == Clamp(exp(-credSprd * paytimes[i]) - recov) / den;
      NonNegativeQuotient(Clamp(exp(-credSprd * paytimes[i]) - recov), den);
    }
    if ExpLike(exp) && credSprd > 0.0 && (forall i :: 0 <= i < |paytimes| ==> paytimes[i] >= 0.0) {
      forall i | 0 <= i < |paytimes| ensures sp[i] < 1.0 {
        var x := -credSprd * paytimes[i];
        assert x <= 0.0;
        assert exp(x) <= 1.0;
        assert sp[i] == Clamp(exp(x) - recov) / den;
        QuotientBelowOne(Clamp(exp(x) - recov), den);
      }
    }
  }

  lemma NonNegativeQuotient(a: real, b: real)
    requires a >= 0.0 && b > 0.0
    ensures a / b >= 0.0
  {
  }

  lemma QuotientBelowOne(a: real, b: real)
    requires 0.0 <= a < b
    ensures a / b < 1.0
  {
    var q := a / b;
    assert q * b == a;
    if q >= 1.0 {
      MulWeak(1.0, q, b);
    }
  }

  /** The default probabilities of the first `k` periods add up to one minus
      the survival probability at the end of period `k`. */
  lemma {:induction false} DefaultProbsTelescope(survprob: seq<real>, k: nat)
    requires 1 <= k <= |survprob|
    ensures SumDefaultProbs(survprob, k) == 1.0 - survprob[k - 1]
  {
    if k > 1 {
      DefaultProbsTelescope(survprob, k - 1);
    }
  }

  function SumDefaultProbs(survprob: seq<real>, k: nat): real
    requires k <= |survprob|
  {
    if k == 0 then 0.0 else SumDefaultProbs(survprob, k - 1) + DefaultProb(survprob, k - 1)
  }

  /** The accrual periods of the first `k` payments add up to the `k`-th payment time. */
  lemma {:induction false} PeriodsTelescope(paytimes: seq<real>, k: nat)
    requires 1 <= k <= |paytimes|
    ensures SumPeriods(paytimes, k) == paytimes[k - 1]
  {
    if k > 1 {
      PeriodsTelescope(paytimes, k - 1);
    }
  }

  function SumPeriods(paytimes: seq<real>, k: nat): real
    requires k <= |paytimes|
  {
    if k == 0 then 0.0 else SumPeriods(paytimes, k - 1) + Period(paytimes, k - 1)
  }

  /** With every discount factor 1 the default leg is the loss given default
      times the probability of default by the end of period `k`. */
  lemma {:induction false} DefaultLegUndiscounted(paytimes: seq<real>, survprob: seq<real>, discount: real -> real,
                                                  recov: real, k: nat)
    requires 1 <= k <= |paytimes| == |survprob|
    requires forall i :: 0 <= i < |paytimes| ==> discount(paytimes[i]) == 1.0
    ensures DefaultLeg(paytimes, survprob, discount, recov, k) == (1.0 - recov) * (1.0 - survprob[k - 1])
  {
    DefaultLegIsSum(paytimes, survprob, discount, recov, k);
    DefaultProbsTelescope(survprob, k);
  }

  lemma {:induction false} DefaultLegIsSum(paytimes: seq<real>, survprob: seq<real>, discount: real -> real,
                                           recov: real, k: nat)
    requires k <= |paytimes| == |survprob|
    requires forall i :: 0 <= i < |paytimes| ==> discount(paytimes[i]) == 1.0
    ensures DefaultLeg(paytimes, survprob, discount, recov, k) == (1.0 - recov) * SumDefaultProbs(survprob, k)
  {
    if k > 0 {
      DefaultLegIsSum(paytimes, survprob, discount, recov, k - 1);
      assert discount(paytimes[k - 1]) == 1.0;
    }
  }

  /** Every term of the premium leg is non-negative when the payment times
      do not decrease from a non-negative first one, the survival
      probabilities and the discount factors are non-negative. */
  lemma {:induction false} PremiumLegNonNegative(paytimes: seq<real>, survprob: seq<real>, discount: real -> real,
                                                 cdsRate: real, k: nat)
    requires k <= |paytimes| == |survprob| && cdsRate >= 0.0
    requires |paytimes| > 0 ==> paytimes[0] >= 0.0
    requires forall i :: 0 < i < |paytimes| ==> paytimes[i - 1] <= paytimes[i]
    requires forall i :: 0 <= i < |survprob| ==> survprob[i] >= 0.0
    requires forall i :: 0 <= i < |paytimes| ==> discount(paytimes[i]) >= 0.0
    ensures PremiumLeg(paytimes, survprob, discount, cdsRate, k) >= 0.0
  {
    if k > 0 {
      PremiumLegNonNegative(paytimes, survprob, discount, cdsRate, k - 1);
      var p := Period(paytimes, k - 1);
      assert p >= 0.0;
      var d := discount(paytimes[k - 1]);
      assert d >= 0.0;
      assert cdsRate * p >= 0.0;
      assert cdsRate * p * survprob[k - 1] >= 0.0;
      assert cdsRate * p * survprob[k - 1] * d >= 0.0;
    }
  }

  /** For valid arguments and a curve whose discount factors are not
      negative, the premium leg `cdsPV` returns is not negative. */
  lemma CdsPremiumNonNegative(discount: real -> real, credSprd: real, cdsRate: real, recov: real,
                              timeToMat: real, payFreq: nat, exp: Exp)
    requires CdsCheck(credSprd, cdsRate, recov, timeToMat, payFreq).Pass?
    requires forall t :: discount(t) >= 0.0
    ensures CdsLegs(discount, credSprd, cdsRate, recov, timeToMat, payFreq, exp).1 >= 0.0
  {
    var n := NumPayments(timeToMat, payFreq);
    var pt := PayTimes(timeToMat, payFreq, n);
    var sp := SurvProbs(pt, credSprd, recov, exp);
    PayTimesShape(timeToMat, payFreq);
    SurvProbsBounded(pt, credSprd, recov, exp);
    assert forall i :: 0 < i < |pt| ==> pt[i - 1] <= pt[i] by {
      forall i | 0 < i < |pt| ensures pt[i - 1] <= pt[i] {
        assert pt[i] - pt[i - 1] == 1.0 / payFreq as real;
      }
    }
    PremiumLegNonNegative(pt, sp, discount, cdsRate, n);
  }

  /** `cdsPV`: the checks, then the payment times, the survival
      probabilities and the two legs, each in its own loop. */
  method CdsPV(discount: real -> real, credSprd: real, cdsRate: real, recov: real,
               timeToMat: real, payFreq: nat, exp: Exp)
    returns (r: Result<(real, real), PricerError>)
    ensures r.Failure? <==> CdsCheck(credSprd, cdsRate, recov, timeToMat, payFreq).Fail?
    ensures r.Failure? ==> r.error == CdsCheck(credSprd, cdsRate, recov, timeToMat, payFreq).error
    ensures r.Success? ==> r.value == CdsLegs(discount, credSprd, cdsRate, recov, timeToMat, payFreq, exp)
  {
    var check := CdsCheck(credSprd, cdsRate, recov, timeToMat, payFreq);
    if check.Fail? {
      return Failure(check.error);
    }
    var deltaT := 1.0 / payFreq as real;
    var npay := NumPayments(timeToMat, payFreq);
    if npay == 0 {
      return Success((0.0, 0.0));
    }
    var paytimes := FillPayTimes(timeToMat, payFreq, npay, deltaT);
    var survprob := FillSurvProbs(paytimes, credSprd, recov, exp);
    var pvdl, pvpl := AccumulateLegs(paytimes, survprob, discount, cdsRate, recov);
    return Success((pvdl, pvpl));
  }

  /** The loop of `cdsPV` that counts the payment times back from maturity. */
  method FillPayTimes(timeToMat: real, payFreq: nat, npay: nat, deltaT: real) returns (paytimes: array<real>)
    requires payFreq >= 1 && deltaT == 1.0 / payFreq as real
    ensures fresh(paytimes) && paytimes[..] == PayTimes(timeToMat, payFreq, npay)
  {
    ghost var pt := PayTimes(timeToMat, payFreq, npay);
    paytimes := new real[npay](_ => timeToMat);
    var i := 0;
    while i < npay
      invariant 0 <= i <= npay
      invariant forall j :: 0 <= j < npay ==>
                  paytimes[j] == if j >= npay - i then pt[j] else timeToMat
    {
      paytimes[npay - i - 1] := paytimes[npay - i - 1] - i as real * deltaT;
      i := i + 1;
    }
  }

  /** The loop of `cdsPV` that fills the survival probabilities. */
  method FillSurvProbs(paytimes: array<real>, credSprd: real, recov: real, exp: Exp) returns (survprob: array<real>)
    requires recov <= 1.0
    ensures fresh(survprob) && survprob[..] == SurvProbs(paytimes[..], credSprd, recov, exp)
  {
    ghost var sp := SurvProbs(paytimes[..], credSprd, recov, exp);
    survprob := new real[paytimes.Length](_ => 1.0);
    var i := 0;
    while i < paytimes.Length
      invariant 0 <= i <= paytimes.Length
      invariant forall j :: 0 <= j < i ==> survprob[j] == sp[j]
    {
      survprob[i] := exp(-credSprd * paytimes[i]) - recov;
      survprob[i] := if survprob[i] > 0.0 then survprob[i] else 0.0;
      survprob[i] := survprob[i] / (1.0 - recov + Epsilon);
      assert survprob[i] == SurvProb(paytimes[i], credSprd, recov, exp);
      i := i + 1;
    }
  }

  /** The loop of `cdsPV` that sums the two legs. */
  method AccumulateLegs(paytimes: array<real>, survprob: array<real>, discount: real -> real,
                        cdsRate: real, recov: real) returns (pvdl: real, pvpl: real)
    requires paytimes.Length == survprob.Length
    ensures pvdl == DefaultLeg(paytimes[..], survprob[..], discount, recov, paytimes.Length)
    ensures pvpl == PremiumLeg(paytimes[..], survprob[..], discount, cdsRate, paytimes.Length)
  {
    ghost var pt, sp := paytimes[..], survprob[..];
    pvpl := 0.0;
    pvdl := 0.0;
    var i := 0;
    while i < paytimes.Length
      invariant 0 <= i <= paytimes.Length
      invariant pvpl == PremiumLeg(pt, sp, discount, cdsRate, i)
      invariant pvdl == DefaultLeg(pt, sp, discount, recov, i)
    {
      var df := discount(paytimes[i]);
      var period := if i == 0 then paytimes[i] else paytimes[i] - paytimes[i - 1];
      pvpl := pvpl + cdsRate * period * survprob[i] * df;
      var defprob := if i == 0 then 1.0 - survprob[i] else survprob[i - 1] - survprob[i];
      pvdl := pvdl + (1.0 - recov) * defprob * df;
      i := i + 1;
    }
  }
}
