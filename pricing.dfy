/**
 * The valuation engine: implied per-share fundamentals from the current
 * price and multiples, the price each target multiple implies, and the
 * "bottleneck", the lowest of those prices and the method that produced it.
 *
 * Numbers are reals. The engine's guards test JavaScript truthiness, which
 * on a number means "non-zero", and that is how they are written here.
 */
module Pricing {
  import opened Wrappers
  import opened StableSort

  /** Current price and current multiples; `yieldPct` is a percentage (3 means 3%). */
  datatype MarketState = MarketState(price: real, per: real, pbr: real, yieldPct: real)

  /** Implied earnings, book value and dividend per share. */
  datatype Fundamentals = Fundamentals(eps: real, bps: real, dividend: real)

  /** Target multiples; `yieldPct` is a percentage. */
  datatype Targets = Targets(per: real, pbr: real, yieldPct: real)

  /** The three valuation methods, in the order the engine lists them. */
  datatype Method = Per | Pbr | Yield

  datatype TargetPrices = TargetPrices(
    perPrice: Option<real>,
    pbrPrice: Option<real>,
    yieldPrice: Option<real>,
    minPrice: Option<real>,
    bottleneck: Option<Method>)

  /** Position of a method in the engine's candidate list. */
  function Rank(m: Method): nat {
    match m
    case Per => 0
    case Pbr => 1
    case Yield => 2
  }

  /** The candidate price that method `m` produced. */
  function Candidate(r: TargetPrices, m: Method): Option<real> {
    match m
    case Per => r.perPrice
    case Pbr => r.pbrPrice
    case Yield => r.yieldPrice
  }

  /** A candidate may become the bottleneck only when present and positive. */
  predicate IsValid(p: Option<real>) {
    p.Some? && p.value > 0.0
  }

  /**
   * `calculateFundamentals`. Each derived figure reproduces the multiple it
   * came from: the current price over EPS is the current PER, over BPS the
   * current PBR, and the dividend over the price is the current yield. A
   * zero multiple gives a zero figure instead of a division by zero.
   */
  function CalculateFundamentals(s: MarketState): (f: Fundamentals)
    ensures s.per != 0.0 ==> f.eps * s.per == s.price
    ensures s.per == 0.0 ==> f.eps == 0.0
    ensures s.pbr != 0.0 ==> f.bps * s.pbr == s.price
    ensures s.pbr == 0.0 ==> f.bps == 0.0
    ensures f.dividend * 100.0 == s.price * s.yieldPct
  {
    Fundamentals(
      if s.per != 0.0 then s.price / s.per else 0.0,
      if s.pbr != 0.0 then s.price / s.pbr else 0.0,
      s.price * (s.yieldPct / 100.0))
  }

  /**
   * The PER-based price: absent exactly when EPS is zero, and otherwise the
   * price at which the stock trades at the target PER (which is zero, a
   * present but invalid price, when the target PER is zero).
   */
  function PerPrice(f: Fundamentals, t: Targets): (r: Option<real>)
    ensures r.None? <==> f.eps == 0.0
    ensures r.Some? ==> r.value / f.eps == t.per
  {
    if f.eps != 0.0 then Some(f.eps * t.per) else None
  }

  /** The PBR-based price, built like `PerPrice` from BPS and the target PBR. */
  function PbrPrice(f: Fundamentals, t: Targets): (r: Option<real>)
    ensures r.None? <==> f.bps == 0.0
    ensures r.Some? ==> r.value / f.bps == t.pbr
  {
    if f.bps != 0.0 then Some(f.bps * t.pbr) else None
  }

  /**
   * The yield-based price: absent when the dividend or the target yield is
   * zero, and otherwise the price at which the dividend yields exactly the
   * target percentage.
   */
  function YieldPrice(f: Fundamentals, t: Targets): (r: Option<real>)
    ensures r.None? <==> f.dividend == 0.0 || t.yieldPct == 0.0
    ensures r.Some? ==> r.value != 0.0 && f.dividend / r.value * 100.0 == t.yieldPct
  {
    if f.dividend != 0.0 && t.yieldPct != 0.0 then Some(f.dividend / (t.yieldPct / 100.0)) else None
  }

  /** A valid candidate, tagged with the method that produced it. */
  datatype Pick = Pick(kind: Method, val: real)

  function PickValue(p: Pick): real {
    p.val
  }

  function Keep(m: Method, p: Option<real>): seq<Pick> {
    if IsValid(p) then [Pick(m, p.value)] else []
  }

  /**
   * The candidate list `[per, pbr, yield]` filtered to its valid entries:
   * exactly the valid candidates, each with its own price, in method order.
   */
  function ValidPrices(c: TargetPrices): (v: seq<Pick>)
    ensures forall k :: 0 <= k < |v| ==> Candidate(c, v[k].kind) == Some(v[k].val) && v[k].val > 0.0
    ensures forall m :: IsValid(Candidate(c, m)) ==> Pick(m, Candidate(c, m).value) in v
    ensures forall k, l :: 0 <= k < l < |v| ==> Rank(v[k].kind) < Rank(v[l].kind)
  {
    Keep(Per, c.perPrice) + Keep(Pbr, c.pbrPrice) + Keep(Yield, c.yieldPrice)
  }

  /**
   * The first of the lowest valid candidates is the bottleneck: its price is
   * its method's own positive candidate, no valid candidate is lower, and no
   * equally low one comes earlier in method order.
   */
  lemma FirstMinIsBottleneck(c: TargetPrices, i: int)
    requires IsFirstMin(ValidPrices(c), i, PickValue)
    ensures Candidate(c, ValidPrices(c)[i].kind) == Some(ValidPrices(c)[i].val)
    ensures ValidPrices(c)[i].val > 0.0
    ensures forall m :: IsValid(Candidate(c, m)) ==> ValidPrices(c)[i].val <= Candidate(c, m).value
    ensures forall m :: IsValid(Candidate(c, m)) && Candidate(c, m).value == ValidPrices(c)[i].val ==>
              Rank(ValidPrices(c)[i].kind) <= Rank(m)
  {
    var valid := ValidPrices(c);
    forall m | IsValid(Candidate(c, m))
      ensures valid[i].val <= Candidate(c, m).value
      ensures Candidate(c, m).value == valid[i].val ==> Rank(valid[i].kind) <= Rank(m)
    {
      var k :| 0 <= k < |valid| && valid[k] == Pick(m, Candidate(c, m).value);
      assert PickValue(valid[i]) <= PickValue(valid[k]);
      if k < i {
        assert PickValue(valid[i]) < PickValue(valid[k]);
      }
    }
  }

  /**
   * `calculateTargetPrices`. The three candidates are returned as computed;
   * when none is valid there is no minimum and no bottleneck; otherwise the
   * minimum is the bottleneck's own candidate, it is positive, no valid
   * candidate is lower, and among equally low candidates the bottleneck is
   * the first in the order per, pbr, yield.
   */
  method CalculateTargetPrices(f: Fundamentals, t: Targets) returns (r: TargetPrices)
    ensures r.perPrice == PerPrice(f, t)
    ensures r.pbrPrice == PbrPrice(f, t)
    ensures r.yieldPrice == YieldPrice(f, t)
    ensures r.minPrice.None? <==> forall m :: !IsValid(Candidate(r, m))
    ensures r.bottleneck.None? <==> r.minPrice.None?
    ensures r.bottleneck.Some? ==> r.minPrice == Candidate(r, r.bottleneck.value) && IsValid(r.minPrice)
    ensures r.minPrice.Some? ==>
              forall m :: IsValid(Candidate(r, m)) ==> r.minPrice.value <= Candidate(r, m).value
    ensures r.bottleneck.Some? ==>
              forall m :: IsValid(Candidate(r, m)) && Candidate(r, m) == r.minPrice ==>
                Rank(r.bottleneck.value) <= Rank(m)
  {
    var candidates := TargetPrices(PerPrice(f, t), PbrPrice(f, t), YieldPrice(f, t), None, None);
    var valid := ValidPrices(candidates);
    if |valid| == 0 {
      return candidates;
    }
    var a := new Pick[|valid|](k requires 0 <= k < |valid| => valid[k]);
    assert a[..] == valid;
    SortByKey(a, PickValue);
    var best := a[0];
    SortHead(valid, PickValue);
    ghost var i :| IsFirstMin(valid, i, PickValue) && Sort(valid, PickValue)[0] == valid[i];
    FirstMinIsBottleneck(candidates, i);
    r := candidates.(minPrice := Some(best.val), bottleneck := Some(best.kind));
    assert forall m :: Candidate(r, m) == Candidate(candidates, m);
  }

  /**
   * Targets equal to the current multiples give back the current price by
   * every method that applies.
   */
  lemma UnchangedMultiplesGiveCurrentPrice(s: MarketState)
    requires s.price != 0.0
    ensures var f := CalculateFundamentals(s);
            var t := Targets(s.per, s.pbr, s.yieldPct);
            (s.per != 0.0 ==> PerPrice(f, t) == Some(s.price)) &&
            (s.pbr != 0.0 ==> PbrPrice(f, t) == Some(s.price)) &&
            (s.yieldPct != 0.0 ==> YieldPrice(f, t) == Some(s.price))
  {
    var f := CalculateFundamentals(s);
    var t := Targets(s.per, s.pbr, s.yieldPct);
    if s.per != 0.0 {
      PerAtCurrentMultiple(s, f, t);
    }
    if s.pbr != 0.0 {
      PbrAtCurrentMultiple(s, f, t);
    }
    if s.yieldPct != 0.0 {
      YieldAtCurrentMultiple(s, f, t);
    }
  }

  lemma PerAtCurrentMultiple(s: MarketState, f: Fundamentals, t: Targets)
    requires s.price != 0.0 && s.per != 0.0
    requires f == CalculateFundamentals(s) && t.per == s.per
    ensures PerPrice(f, t) == Some(s.price)
  {
    assert f.eps != 0.0;
    assert PerPrice(f, t).value == f.eps * t.per;
    assert f.eps * t.per == s.price;
  }

  lemma PbrAtCurrentMultiple(s: MarketState, f: Fundamentals, t: Targets)
    requires s.price != 0.0 && s.pbr != 0.0
    requires f == CalculateFundamentals(s) && t.pbr == s.pbr
    ensures PbrPrice(f, t) == Some(s.price)
  {
    assert f.bps != 0.0;
    assert PbrPrice(f, t).value == f.bps * t.pbr;
    assert f.bps * t.pbr == s.price;
  }

  lemma YieldAtCurrentMultiple(s: MarketState, f: Fundamentals, t: Targets)
    requires s.price != 0.0 && s.yieldPct != 0.0
    requires f == CalculateFundamentals(s) && t.yieldPct == s.yieldPct
    ensures YieldPrice(f, t) == Some(s.price)
  {
    var q := s.yieldPct / 100.0;
    assert f.dividend == s.price * q;
    assert f.dividend != 0.0;
    assert YieldPrice(f, t).value == f.dividend / q;
    assert (s.price * q) / q == s.price;
  }

  /** The derivations the engine's own tests check. */
  lemma FundamentalsExamples()
    ensures CalculateFundamentals(MarketState(1000.0, 20.0, 2.0, 3.0)) == Fundamentals(50.0, 500.0, 30.0)
    ensures CalculateFundamentals(MarketState(1000.0, 0.0, 0.0, 0.0)) == Fundamentals(0.0, 0.0, 0.0)
  {
  }

  /**
   * The selections the engine's own tests check, derived from the contract of
   * `CalculateTargetPrices` alone: a tie between PER and PBR reports PER.
   */
  method TargetPriceExamples() {
    var r := CalculateTargetPrices(Fundamentals(50.0, 500.0, 30.0), Targets(15.0, 1.5, 2.0));
    assert r.perPrice == Some(750.0) && r.pbrPrice == Some(750.0) && r.yieldPrice == Some(1500.0);
    assert IsValid(Candidate(r, Per));
    assert r.minPrice == Some(750.0);
    assert r.bottleneck == Some(Per);

    r := CalculateTargetPrices(Fundamentals(100.0, 1000.0, 20.0), Targets(10.0, 1.2, 1.0));
    assert r.perPrice == Some(1000.0) && r.pbrPrice == Some(1200.0) && r.yieldPrice == Some(2000.0);
    assert IsValid(Candidate(r, Per));
    assert r.minPrice == Some(1000.0);
    assert r.bottleneck == Some(Per);

    r := CalculateTargetPrices(Fundamentals(0.0, 0.0, 0.0), Targets(15.0, 1.5, 2.0));
    assert r.minPrice == None && r.bottleneck == None;
  }
}
