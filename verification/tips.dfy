/**
 * Tip allocation (`calculateTips`): each partner's share of the pooled tips
 * in proportion to tippable hours, rounded half up to the cent, with the
 * rounding difference handed to the last partner in the list.
 * Money is in integer cents; hours are exact reals.
 */
module Tips {
  import opened Common

  /** The sum of the hours, added left to right from 0. */
  function SumHours(hours: seq<real>): real {
    if |hours| == 0 then 0.0 else SumHours(hours[..|hours| - 1]) + hours[|hours| - 1]
  }

  function SumCents(amounts: seq<int>): int {
    if |amounts| == 0 then 0 else SumCents(amounts[..|amounts| - 1]) + amounts[|amounts| - 1]
  }

  /** `Math.round`: the nearest integer, halves rounded up (towards positive infinity). */
  function RoundHalfUp(x: real): (r: int)
    ensures r as real - 0.5 <= x < r as real + 0.5
  {
    (x + 0.5).Floor
  }

  /** Only one integer lies in the half-open interval `[x - 1/2, x + 1/2)`. */
  lemma RoundHalfUpUnique(x: real, k: int)
    requires k as real - 0.5 <= x < k as real + 0.5
    ensures RoundHalfUp(x) == k
  {
    var r := RoundHalfUp(x);
    assert r as real - 0.5 <= x < r as real + 0.5;
    assert r as real < k as real + 1.0 && k as real < r as real + 1.0;
  }

  /** A partner's exact share of the tips, in cents. */
  function Exact(hours: real, totalHours: real, totalCents: int): real
    requires totalHours != 0.0
  {
    hours / totalHours * totalCents as real
  }

  /** A partner's share in cents: their fraction of the hours times the tips, rounded to the nearest cent, halves up. */
  function ShareCents(hours: real, totalHours: real, totalCents: int): int
    requires totalHours != 0.0
  {
    RoundHalfUp(Exact(hours, totalHours, totalCents))
  }

  /** The rounded proportional share of every partner, in list order. */
  function RoundedShares(hours: seq<real>, totalHours: real, totalCents: int): (r: seq<int>)
    requires totalHours != 0.0
    ensures |r| == |hours|
    ensures forall i :: 0 <= i < |hours| ==> r[i] == ShareCents(hours[i], totalHours, totalCents)
  {
    seq(|hours|, i requires 0 <= i < |hours| => ShareCents(hours[i], totalHours, totalCents))
  }

  /** Why a calculation can stop before assigning anything. */
  datatype CalcError = ZeroTotalHours

  /**
   * `calculateTips` without its I/O: stops when the total hours are zero;
   * otherwise every partner gets the rounded proportional share and the last
   * one also gets the difference between the total and the sum of the shares.
   */
  function Allocate(hours: seq<real>, totalCents: int): (r: Result<seq<int>, CalcError>)
    ensures r.Failure? <==> SumHours(hours) == 0.0
    ensures r.Success? ==> |r.value| == |hours| > 0
    ensures r.Success? ==> SumCents(r.value) == totalCents
    ensures r.Success? ==> forall i :: 0 <= i < |hours| - 1 ==>
              var exact := Exact(hours[i], SumHours(hours), totalCents);
              exact - 0.5 < r.value[i] as real <= exact + 0.5
    ensures r.Success? ==>
              var shares := RoundedShares(hours, SumHours(hours), totalCents);
              r.value[|hours| - 1] == shares[|hours| - 1] + (totalCents - SumCents(shares))
  {
    var totalHours := SumHours(hours);
    if totalHours == 0.0 then Failure(ZeroTotalHours)
    else
      var shares := RoundedShares(hours, totalHours, totalCents);
      var difference := totalCents - SumCents(shares);
      if difference != 0 && |shares| > 0 then
        var n := |shares|;
        var adjusted := shares[..n - 1] + [shares[n - 1] + difference];
        assert adjusted[..n - 1] == shares[..n - 1];
        assert shares == shares[..n - 1] + [shares[n - 1]];
        Success(adjusted)
      else
        Success(shares)
  }

  function SumExact(hours: seq<real>, totalHours: real, totalCents: int): real
    requires totalHours != 0.0
  {
    if |hours| == 0 then 0.0
    else SumExact(hours[..|hours| - 1], totalHours, totalCents) + Exact(hours[|hours| - 1], totalHours, totalCents)
  }

  /** The exact shares of a list of hours add up to that list's part of the total. */
  lemma {:induction false} SumExactShares(hours: seq<real>, totalHours: real, totalCents: int)
    requires totalHours != 0.0
    ensures SumExact(hours, totalHours, totalCents) == SumHours(hours) / totalHours * totalCents as real
    decreases |hours|
  {
    if |hours| > 0 {
      var prefix := hours[..|hours| - 1];
      var h := hours[|hours| - 1];
      SumExactShares(prefix, totalHours, totalCents);
      var c := totalCents as real;
      assert SumHours(prefix) / totalHours * c + h / totalHours * c == (SumHours(prefix) + h) / totalHours * c;
    }
  }

  /** Rounding each share moves the sum of `k` shares by at most half a cent per share. */
  lemma {:induction false} RoundingDrift(hours: seq<real>, totalHours: real, totalCents: int)
    requires totalHours != 0.0
    ensures var drift := SumCents(RoundedShares(hours, totalHours, totalCents)) as real - SumExact(hours, totalHours, totalCents);
            -(|hours| as real) / 2.0 < drift || |hours| == 0
    ensures var drift := SumCents(RoundedShares(hours, totalHours, totalCents)) as real - SumExact(hours, totalHours, totalCents);
            drift <= |hours| as real / 2.0
    decreases |hours|
  {
    if |hours| > 0 {
      var prefix := hours[..|hours| - 1];
      RoundingDrift(prefix, totalHours, totalCents);
      var shares := RoundedShares(hours, totalHours, totalCents);
      assert shares[..|hours| - 1] == RoundedShares(prefix, totalHours, totalCents);
    }
  }

  /** The last partner gets whatever the others leave of the total. */
  lemma AllocateLastGetsRest(hours: seq<real>, totalCents: int)
    requires Allocate(hours, totalCents).Success?
    ensures var r := Allocate(hours, totalCents).value;
            r[|hours| - 1] == totalCents - SumCents(r[..|hours| - 1])
  {
    var r := Allocate(hours, totalCents).value;
    assert r == r[..|hours| - 1] + [r[|hours| - 1]];
  }

  /**
   * The last partner's amount is within half a cent per other partner of
   * their own exact share.
   */
  lemma {:induction false} AllocateLastNearExact(hours: seq<real>, totalCents: int)
    requires Allocate(hours, totalCents).Success?
    ensures var r := Allocate(hours, totalCents).value;
            var n := |hours|;
            var error := r[n - 1] as real - Exact(hours[n - 1], SumHours(hours), totalCents);
            && -((n - 1) as real) <= error * 2.0
            && (n == 1 || error * 2.0 < (n - 1) as real)
  {
    var r := Allocate(hours, totalCents).value;
    var total := SumHours(hours);
    var n := |hours|;
    var prefix := hours[..n - 1];
    AllocateLastGetsRest(hours, totalCents);
    ExactSharesAddUp(hours, totalCents);
    AllocatePrefix(hours, totalCents);
    RoundingDrift(prefix, total, totalCents);
    var paid := SumCents(RoundedShares(prefix, total, totalCents)) as real;
    var owed := SumExact(prefix, total, totalCents);
    assert r[n - 1] as real == totalCents as real - paid;
    assert Exact(hours[n - 1], total, totalCents) == totalCents as real - owed;
  }

  /** The exact shares of all partners add up to the tips. */
  lemma {:induction false} ExactSharesAddUp(hours: seq<real>, totalCents: int)
    requires |hours| > 0 && SumHours(hours) != 0.0
    ensures SumExact(hours[..|hours| - 1], SumHours(hours), totalCents) + Exact(hours[|hours| - 1], SumHours(hours), totalCents)
            == totalCents as real
  {
    var total := SumHours(hours);
    SumExactShares(hours, total, totalCents);
    assert total / total == 1.0;
  }

  /** All amounts but the last are the rounded shares of all partners but the last. */
  lemma AllocatePrefix(hours: seq<real>, totalCents: int)
    requires Allocate(hours, totalCents).Success?
    ensures var r := Allocate(hours, totalCents).value;
            r[..|hours| - 1] == RoundedShares(hours[..|hours| - 1], SumHours(hours), totalCents)
  {
  }

  /** Hours (10, 30) sharing $100.00 give $25.00 and $75.00. */
  lemma AllocateQuarterExample()
    ensures Allocate([10.0, 30.0], 10000) == Success([2500, 7500])
  {
    var h := [10.0, 30.0];
    assert h[..1] == [10.0] && [10.0][..0] == [];
    assert SumHours(h) == 40.0;
    RoundHalfUpUnique(10.0 / 40.0 * 10000.0, 2500);
    RoundHalfUpUnique(30.0 / 40.0 * 10000.0, 7500);
    var shares := RoundedShares(h, 40.0, 10000);
    assert shares == [2500, 7500];
    assert shares[..1] == [2500] && [2500][..0] == [];
  }

  /** Hours (1, 1, 1) sharing $10.00 give $3.33, $3.33 and $3.34: the cent left over goes to the last partner. */
  lemma AllocateThirdsExample()
    ensures Allocate([1.0, 1.0, 1.0], 1000) == Success([333, 333, 334])
  {
    var h := [1.0, 1.0, 1.0];
    assert h[..2] == [1.0, 1.0] && h[..2][..1] == [1.0] && [1.0][..0] == [];
    assert SumHours(h) == 3.0;
    RoundHalfUpUnique(1.0 / 3.0 * 1000.0, 333);
    var shares := RoundedShares(h, 3.0, 1000);
    assert shares == [333, 333, 333];
    assert shares[..2] == [333, 333] && shares[..2][..1] == [333] && [333][..0] == [];
    assert SumCents(shares[..2][..1]) == 333;
    assert SumCents(shares[..2]) == 666;
    assert SumCents(shares) == 999;
    assert shares[..2] + [334] == [333, 333, 334];
  }
}
