/** Relayer fees: what a note must hold, or a withdrawal must leave, for the recipient to get the intended amount. */
module Fees {
  import opened Wrappers

  const BPS: int := 10000
  const PRIVATE_SEND_RATE: int := 25

  datatype FeeStructure = FeeStructure(token: string, flatFee: int, variableRate: int)

  /** Division rounding toward zero. */
  function Quo(a: int, b: int): int
    requires b != 0
  {
    var q := Abs(a) / Abs(b);
    if (a < 0) == (b < 0) then q else -q
  }

  function Abs(x: int): nat { if x < 0 then -x else x }

  function CalculateTotalFee(amount: int, fee: FeeStructure): int {
    fee.flatFee + Quo(amount * fee.variableRate, BPS)
  }

  /** The request carries the spent amount as a negative change. A rate of minus the whole amount would divide by zero. */
  function CalculateWithdrawalAmount(amountWithFee: int, fee: FeeStructure): int
    requires fee.variableRate != -BPS
  {
    if fee.variableRate == 0 then -amountWithFee - fee.flatFee
    else Quo((-amountWithFee - fee.flatFee) * BPS, BPS + fee.variableRate)
  }

  function CalculateGrossAmountWithFee(netAmount: int, fee: FeeStructure): int
    requires fee.variableRate != BPS
  {
    if fee.variableRate == 0 then netAmount + fee.flatFee
    else
      var denominator := BPS - fee.variableRate;
      Quo((netAmount + fee.flatFee) * BPS + (denominator - 1), denominator)
  }

  function DivideRoundingUp(dividend: int, divisor: int): int
    requires divisor != 0
  {
    var q := Quo(dividend, divisor);
    if dividend - q * divisor != 0 then q + 1 else q
  }

  function CalculateVariableFeeGrossUp(netAmount: int, rate: int): int
    requires rate != BPS || netAmount <= 0
  {
    if netAmount <= 0 || rate <= 0 then 0 else DivideRoundingUp(netAmount * rate, BPS - rate)
  }

  /** What is left of an amount after the contract's floored cut. */
  function AfterCut(gross: nat, rate: nat): int {
    gross - gross * rate / BPS
  }

  // --- Quotients.

  lemma FloorBounds(a: nat, b: nat)
    requires b > 0
    ensures a / b * b <= a < a / b * b + b
  {
  }

  /** The rounded-up quotient is the least number whose multiple reaches the dividend. */
  lemma CeilingIsLeast(a: nat, b: nat, c: int, g: int)
    requires b > 0 && c == (if a % b == 0 then a / b else a / b + 1)
    ensures g * b >= a <==> g >= c
  {
    var q := a / b;
    assert a == q * b + a % b;
    if g >= c {
      assert g * b >= c * b by { Monotone(c, g, b); }
      assert (q + 1) * b == q * b + b;
    } else if g < q {
      Monotone(g + 1, q, b);
      assert (g + 1) * b == g * b + b;
    }
  }

  lemma Monotone(x: int, y: int, b: nat)
    requires x <= y
    ensures x * b <= y * b
  {
  }

  lemma RoundedUpByOffset(a: nat, b: nat)
    requires b > 0
    ensures (a + (b - 1)) / b == if a % b == 0 then a / b else a / b + 1
  {
    var q, r := a / b, a % b;
    assert a == q * b + r;
    if r == 0 { QuotientIs(a + (b - 1), b, q, b - 1); } else {
      assert (q + 1) * b == q * b + b;
      QuotientIs(a + (b - 1), b, q + 1, r - 1);
    }
  }

  lemma QuotientIs(a: nat, b: nat, q: nat, r: nat)
    requires r < b && a == q * b + r
    ensures a / b == q
  {
    FloorBounds(a, b);
    var p := a / b;
    if p < q { Apart(p, q, b); }
    if p > q { Apart(q, p, b); }
  }

  lemma Apart(x: nat, y: nat, b: nat)
    requires x < y
    ensures x * b + b <= y * b
  {
    Monotone(x + 1, y, b);
    assert (x + 1) * b == x * b + b;
  }

  // --- Withdrawals.

  /** The fee and the amount it leaves use up the input but for at most two units, and no amount larger by more than one fits. */
  lemma WithdrawalFits(input: nat, fee: FeeStructure)
    requires 0 <= fee.variableRate <= BPS && fee.flatFee <= input
    ensures var w := CalculateWithdrawalAmount(0 - input, fee);
            && w >= 0
            && input - 2 <= w + CalculateTotalFee(w, fee) <= input
            && CalculateTotalFee(w, fee) == fee.flatFee + w * fee.variableRate / BPS
            && forall v :: v > w + 1 ==> v + CalculateTotalFee(v, fee) > input
  {
    hide Quo;
    var r, x := fee.variableRate, input - fee.flatFee;
    WithdrawalQuotient(x, r);
    var w: nat := x * BPS / (BPS + r);
    assert CalculateWithdrawalAmount(0 - input, fee) == w;
    RateOf(w, r);
    NearlyAll(x, w, w * r, r);
    forall v | v > w + 1 ensures v + CalculateTotalFee(v, fee) > input {
      RateOf(v, r);
      MoreIsTooMuch(x, w, v, r);
    }
  }

  /** Below the flat fee the formula goes non-positive, and amount plus fee no longer stays within the input. */
  lemma WithdrawalBelowFlatFee(input: nat, fee: FeeStructure)
    requires 0 <= fee.variableRate <= BPS && fee.flatFee > input
    ensures var w := CalculateWithdrawalAmount(0 - input, fee);
            w <= 0 && input <= w + CalculateTotalFee(w, fee) <= input + 2
  {
    hide Quo;
    var r, x := fee.variableRate, fee.flatFee - input;
    WithdrawalQuotient(x, r);
    var m: nat := x * BPS / (BPS + r);
    QuoNegative(x * BPS, BPS + r);
    assert CalculateWithdrawalAmount(0 - input, fee) == 0 - m;
    RateOf(m, r);
    assert (0 - m) * r == 0 - m * r;
    QuoNegative(m * r, BPS);
    NearlyAll(x, m, m * r, r);
  }

  lemma QuoNegative(a: nat, b: nat)
    requires b > 0
    ensures Quo(0 - a, b) == 0 - a / b
  {
  }

  lemma RateOf(w: nat, r: nat)
    ensures w * r >= 0 && Quo(w * r, BPS) == w * r / BPS
  {
  }

  lemma WithdrawalQuotient(x: nat, r: nat)
    ensures var w := x * BPS / (BPS + r);
            && w >= 0
            && w * BPS + w * r <= x * BPS < w * BPS + w * r + BPS + r
            && Quo(x * BPS, BPS + r) == w
            && (r == 0 ==> w == x)
  {
    FloorBounds(x * BPS, BPS + r);
    var w := x * BPS / (BPS + r);
    assert w * (BPS + r) == w * BPS + w * r;
  }

  lemma NearlyAll(x: nat, w: nat, part: nat, r: nat)
    requires r <= BPS && w * BPS + part <= x * BPS < w * BPS + part + BPS + r
    ensures x - 2 <= w + part / BPS <= x
  {
  }

  lemma MoreIsTooMuch(x: nat, w: nat, v: nat, r: nat)
    requires v > w + 1 && x * BPS < w * BPS + w * r + BPS + r
    ensures v + v * r / BPS > x
  {
    Monotone(w + 2, v, r);
    assert (w + 2) * r == w * r + 2 * r;
  }

  // --- Gross-ups.

  /** The kept share of a gross amount, not yet rounded, reaches a net amount. */
  predicate Covers(gross: int, net: int, rate: int) {
    gross * (BPS - rate) >= BPS * net
  }

  /** The least extra amount whose kept share covers the net amount; the recipient gets that amount or one unit over, and never more for less. */
  lemma GrossUpIsLeast(net: nat, rate: nat)
    requires net > 0 && 0 < rate < BPS
    ensures var g := CalculateVariableFeeGrossUp(net, rate);
            && g >= 0
            && (forall gross :: Covers(gross, net, rate) <==> gross >= net + g)
            && net <= AfterCut(net + g, rate) <= net + 1
            && forall gross :: 0 <= gross < net + g ==> AfterCut(gross, rate) <= net
  {
    var g := CalculateVariableFeeGrossUp(net, rate);
    GrossUpIsQuotient(net, rate);
    forall gross ensures Covers(gross, net, rate) <==> gross >= net + g { GrossUpCovers(net, rate, gross); }
    TightCover(net + g, net, rate);
    forall gross | 0 <= gross < net + g ensures AfterCut(gross, rate) <= net {
      assert !Covers(gross, net, rate);
      CutKeeps(gross, rate);
    }
  }

  lemma GrossUpIsQuotient(net: nat, rate: nat)
    requires net > 0 && 0 < rate < BPS
    ensures var q := net * rate / (BPS - rate);
            q >= 0 && CalculateVariableFeeGrossUp(net, rate) == if net * rate % (BPS - rate) == 0 then q else q + 1
  {
    assert net * rate > 0;
    assert Quo(net * rate, BPS - rate) == net * rate / (BPS - rate);
  }

  lemma GrossUpCovers(net: nat, rate: nat, gross: int)
    requires net > 0 && 0 < rate < BPS
    ensures Covers(gross, net, rate) <==> gross >= net + CalculateVariableFeeGrossUp(net, rate)
  {
    hide CalculateVariableFeeGrossUp;
    var b, e := BPS - rate, gross - net;
    GrossUpIsQuotient(net, rate);
    assert net * rate >= 0;
    CeilingIsLeast(net * rate, b, CalculateVariableFeeGrossUp(net, rate), e);
    Spread(net, e, rate);
  }

  lemma Spread(net: int, e: int, rate: int)
    ensures (net + e) * (BPS - rate) == net * BPS - net * rate + e * (BPS - rate)
  {
    assert (net + e) * (BPS - rate) == net * (BPS - rate) + e * (BPS - rate);
  }

  /** After the cut is the kept share rounded up. */
  lemma CutKeeps(gross: nat, rate: nat)
    requires rate <= BPS
    ensures gross * (BPS - rate) <= AfterCut(gross, rate) * BPS < gross * (BPS - rate) + BPS
  {
    assert gross * (BPS - rate) == gross * BPS - gross * rate;
  }

  /** The least covering amount leaves at most one unit over. */
  lemma TightCover(gross: nat, net: nat, rate: nat)
    requires rate < BPS && Covers(gross, net, rate) && !Covers(gross - 1, net, rate)
    ensures net <= AfterCut(gross, rate) <= net + 1
  {
    CutKeeps(gross, rate);
    assert (gross - 1) * (BPS - rate) == gross * (BPS - rate) - (BPS - rate);
  }

  /** The least gross amount whose kept share covers the net amount and the flat fee, with at most one unit over. */
  lemma GrossAmountIsLeast(net: nat, fee: FeeStructure)
    requires 0 <= fee.flatFee && 0 <= fee.variableRate < BPS
    ensures var gross, need := CalculateGrossAmountWithFee(net, fee), net + fee.flatFee;
            && gross >= 0
            && (forall g :: Covers(g, need, fee.variableRate) <==> g >= gross)
            && net <= AfterCut(gross, fee.variableRate) - fee.flatFee <= net + 1
  {
    var need, gross := net + fee.flatFee, CalculateGrossAmountWithFee(net, fee);
    forall g ensures Covers(g, need, fee.variableRate) <==> g >= gross { GrossAmountCovers(net, fee, g); }
    assert gross >= 0 by { assert !Covers(-1, need, fee.variableRate); }
    TightCover(gross, need, fee.variableRate);
  }

  lemma GrossAmountCovers(net: nat, fee: FeeStructure, g: int)
    requires 0 <= fee.flatFee && 0 <= fee.variableRate < BPS
    ensures Covers(g, net + fee.flatFee, fee.variableRate) <==> g >= CalculateGrossAmountWithFee(net, fee)
  {
    var need, b := net + fee.flatFee, BPS - fee.variableRate;
    if fee.variableRate != 0 {
      RoundedUpByOffset(need * BPS, b);
      CeilingIsLeast(need * BPS, b, CalculateGrossAmountWithFee(net, fee), g);
    }
  }

  /** Grossing up the variable part and adding the flat fee never costs more than grossing up their sum. */
  lemma UtxoAmountWithinGross(net: nat, fee: FeeStructure)
    requires 0 <= fee.flatFee && 0 <= fee.variableRate < BPS
    ensures net + CalculateVariableFeeGrossUp(net, fee.variableRate) + fee.flatFee <= CalculateGrossAmountWithFee(net, fee)
  {
    var r, gross := fee.variableRate, CalculateGrossAmountWithFee(net, fee);
    GrossAmountIsLeast(net, fee);
    CoversWithoutFlat(gross, net, fee.flatFee, r);
    if net > 0 && r > 0 {
      GrossUpIsLeast(net, r);
    } else {
      CutIsNoGain(gross, net + fee.flatFee, r);
    }
  }

  lemma CoversWithoutFlat(gross: int, net: int, flat: nat, rate: nat)
    requires Covers(gross, net + flat, rate)
    ensures Covers(gross - flat, net, rate)
  {
    assert (gross - flat) * (BPS - rate) == gross * (BPS - rate) - flat * BPS + flat * rate;
    assert flat * rate >= 0;
  }

  lemma CutIsNoGain(gross: nat, net: int, rate: nat)
    requires Covers(gross, net, rate)
    ensures gross >= net
  {
    assert gross * (BPS - rate) == gross * BPS - gross * rate && gross * rate >= 0;
  }

  // --- Amounts per recipient.

  function Sum(s: seq<int>): int {
    if s == [] then 0 else Sum(s[..|s| - 1]) + s[|s| - 1]
  }

  /** The least amount of which the contract's cut leaves the net amount. */
  ghost predicate IsLeastCover(gross: int, net: int, rate: int) {
    gross * (BPS - rate) >= BPS * net && (gross - 1) * (BPS - rate) < BPS * net
  }

  lemma LeastCover(net: nat, rate: nat)
    requires net > 0 && 0 < rate < BPS
    ensures IsLeastCover(net + CalculateVariableFeeGrossUp(net, rate), net, rate)
  {
    hide CalculateVariableFeeGrossUp;
    GrossUpIsLeast(net, rate);
    var gross := net + CalculateVariableFeeGrossUp(net, rate);
    assert Covers(gross, net, rate) && !Covers(gross - 1, net, rate);
  }

  lemma NothingToGrossUp(net: int, rate: int)
    requires (rate != BPS || net <= 0) && (net <= 0 || rate <= 0)
    ensures CalculateVariableFeeGrossUp(net, rate) == 0
  {
  }

  method CalculateGrossUtxoAmounts(recipientAmounts: seq<int>, fee: FeeStructure) returns (utxoAmounts: array<int>, total: int)
    requires fee.variableRate != BPS
    ensures fresh(utxoAmounts) && utxoAmounts.Length == |recipientAmounts| && total == Sum(utxoAmounts[..])
    ensures forall i :: 0 <= i < |recipientAmounts| ==>
              utxoAmounts[i] == recipientAmounts[i] + CalculateVariableFeeGrossUp(recipientAmounts[i], fee.variableRate) + fee.flatFee
    ensures forall i :: 0 <= i < |recipientAmounts| && (recipientAmounts[i] <= 0 || fee.variableRate <= 0) ==>
              utxoAmounts[i] == recipientAmounts[i] + fee.flatFee
    ensures forall i :: 0 <= i < |recipientAmounts| && recipientAmounts[i] > 0 && 0 < fee.variableRate < BPS ==>
              IsLeastCover(utxoAmounts[i] - fee.flatFee, recipientAmounts[i], fee.variableRate)
    ensures 0 <= fee.flatFee && 0 <= fee.variableRate < BPS ==>
              forall i :: 0 <= i < |recipientAmounts| && recipientAmounts[i] >= 0 ==>
                utxoAmounts[i] <= CalculateGrossAmountWithFee(recipientAmounts[i], fee)
  {
    hide CalculateVariableFeeGrossUp, CalculateGrossAmountWithFee, IsLeastCover;
    utxoAmounts := new int[|recipientAmounts|];
    total := 0;
    for i := 0 to |recipientAmounts|
      invariant total == Sum(utxoAmounts[..i])
      invariant forall k :: 0 <= k < i ==>
                  utxoAmounts[k] == recipientAmounts[k] + CalculateVariableFeeGrossUp(recipientAmounts[k], fee.variableRate) + fee.flatFee
    {
      var grossUp := CalculateVariableFeeGrossUp(recipientAmounts[i], fee.variableRate);
      utxoAmounts[i] := recipientAmounts[i] + grossUp + fee.flatFee;
      total := total + utxoAmounts[i];
      assert utxoAmounts[..i + 1][..i] == utxoAmounts[..i];
    }
    assert utxoAmounts[..|recipientAmounts|] == utxoAmounts[..];
    forall i | 0 <= i < |recipientAmounts| && (recipientAmounts[i] <= 0 || fee.variableRate <= 0)
      ensures CalculateVariableFeeGrossUp(recipientAmounts[i], fee.variableRate) == 0
    {
      NothingToGrossUp(recipientAmounts[i], fee.variableRate);
    }
    forall i | 0 <= i < |recipientAmounts| && recipientAmounts[i] > 0 && 0 < fee.variableRate < BPS
      ensures IsLeastCover(utxoAmounts[i] - fee.flatFee, recipientAmounts[i], fee.variableRate)
    {
      LeastCover(recipientAmounts[i], fee.variableRate);
    }
    forall i | 0 <= i < |recipientAmounts| && recipientAmounts[i] >= 0 && 0 <= fee.flatFee && 0 <= fee.variableRate < BPS
      ensures utxoAmounts[i] <= CalculateGrossAmountWithFee(recipientAmounts[i], fee)
    {
      UtxoAmountWithinGross(recipientAmounts[i], fee);
    }
  }

  // --- Claiming a note.

  datatype ClaimError = InsufficientFunds | RecipientAmountInvalid

  /** The fee charged, as a flat fee, and the recipient's amount; absent parts take defaults. */
  function ClaimFeeParts(source: int, token: string, flatFee: Option<int>, rate: Option<int>): Result<(FeeStructure, int), ClaimError> {
    var flat := if flatFee.None? then 0 else flatFee.value;
    var r := EffectiveRate(rate);
    if source <= flat then Err(InsufficientFunds)
    else
      var transferable := source - flat;
      var variableFee := transferable * r / BPS;
      var recipient := transferable - variableFee;
      if recipient <= 0 then Err(RecipientAmountInvalid)
      else Ok((FeeStructure(token, flat + variableFee, 0), recipient))
  }

  function EffectiveRate(rate: Option<int>): (r: int)
    ensures r > 0
  {
    if rate.None? || rate.value <= 0 then PRIVATE_SEND_RATE else rate.value
  }

  /** The note is split without remainder, the recipient's share is the kept part rounded up, and it fails only for a note within the flat fee or a rate of everything. */
  lemma ClaimSplitsExactly(source: int, token: string, flatFee: Option<int>, rate: Option<int>)
    ensures var parts, flat := ClaimFeeParts(source, token, flatFee, rate), if flatFee.None? then 0 else flatFee.value;
            var r := match rate case Some(given) => (if given > 0 then given else 25) case None => 25;
            && (parts == Err(InsufficientFunds) <==> source <= flat)
            && (parts == Err(RecipientAmountInvalid) <==> source > flat && r >= 10000)
            && (parts.Ok? ==>
                  && parts.value.0.token == token && parts.value.0.variableRate == 0
                  && parts.value.0.flatFee + parts.value.1 == source && parts.value.1 > 0 && parts.value.0.flatFee >= flat
                  && (source - flat) * (10000 - r) <= parts.value.1 * 10000 < (source - flat) * (10000 - r) + 10000)
  {
    var flat, r := if flatFee.None? then 0 else flatFee.value, EffectiveRate(rate);
    if source > flat { ClaimCut(source - flat, r); }
  }

  lemma ClaimCut(t: nat, r: nat)
    requires t > 0 && r > 0
    ensures t * r > 0 && t * (BPS - r) == t * BPS - t * r
    ensures t - t * r / BPS <= 0 <==> r >= BPS
    ensures t * (BPS - r) <= (t - t * r / BPS) * BPS < t * (BPS - r) + BPS
  {
    assert t * (BPS - r) == t * BPS - t * r;
    if r >= BPS {
      assert t * r >= t * BPS by { Monotone(BPS, r, t); assert r * t == t * r; }
    } else {
      assert t * r < t * BPS by { Monotone(r, BPS - 1, t); assert r * t == t * r; }
    }
  }
}
