/**
 * Denomination distribution (`distributeDenominations`): each partner's
 * amount, in cents, paid out greedily in $20, $10, $5 and $1 bills from a
 * working copy of the cash inventory, partners served in list order.
 */
module Denominations {

  /** Bill counts on hand. Counts come from `parseInt`, so nothing forces them to be non-negative. */
  datatype Inventory = Inventory(twenties: int, tens: int, fives: int, ones: int)

  /** What one partner is handed: the amount owed, in cents, and the bill counts. */
  datatype Denomination = Denomination(total: int, twenties: int, tens: int, fives: int, ones: int)

  /** The result of serving one partner: the bills, the cents still owed and the bills left. */
  datatype Payout = Payout(denomination: Denomination, remaining: int, available: Inventory)

  /** The result of serving every partner: the bills per partner, the warning flag and the bills left. */
  datatype Distribution = Distribution(denominations: seq<Denomination>, insufficientBills: bool, available: Inventory)

  /** The value, in cents, of the bills handed over. */
  function Value(d: Denomination): int {
    2000 * d.twenties + 1000 * d.tens + 500 * d.fives + 100 * d.ones
  }

  predicate NonNegative(inv: Inventory) {
    inv.twenties >= 0 && inv.tens >= 0 && inv.fives >= 0 && inv.ones >= 0
  }

  /** The bill counts of `d` do not exceed those of `inv`. */
  predicate Covers(inv: Inventory, d: Inventory) {
    d.twenties <= inv.twenties && d.tens <= inv.tens && d.fives <= inv.fives && d.ones <= inv.ones
  }

  function Counts(d: Denomination): Inventory {
    Inventory(d.twenties, d.tens, d.fives, d.ones)
  }

  function Plus(a: Inventory, b: Inventory): Inventory {
    Inventory(a.twenties + b.twenties, a.tens + b.tens, a.fives + b.fives, a.ones + b.ones)
  }

  /** The smaller of the bills wanted and the bills available. */
  function Take(wanted: int, available: int): (n: int)
    ensures n <= wanted && n <= available
    ensures n == wanted || n == available
  {
    if wanted <= available then wanted else available
  }

  /**
   * One partner's payout, largest bill first: each count is as many bills of
   * that kind as fit in what is still owed (for ones, the dollars still owed
   * rounded half up), or, when fewer are on hand, all of them.
   *
   * The payout is for the amount owed; no count exceeds the bills on hand; the
   * bills handed over and the bills left add up to the inventory, and none
   * of the latter is negative; what is still owed is the amount less the
   * value handed over, and the value handed over exceeds the amount by at
   * most 50 cents, because the ones are rounded rather than floored. A
   * partner is left more than 50 cents short only when the $1 bills run out.
   */
  function PayOne(amount: int, inv: Inventory): (p: Payout)
    ensures p.denomination.total == amount
    ensures Covers(inv, Counts(p.denomination))
    ensures Plus(Counts(p.denomination), p.available) == inv
    ensures NonNegative(p.available)
    ensures p.remaining == amount - Value(p.denomination)
    ensures Value(p.denomination) <= amount + 50
    ensures var d := p.denomination;
            var afterTwenties := amount - 2000 * d.twenties;
            var afterTens := afterTwenties - 1000 * d.tens;
            var afterFives := afterTens - 500 * d.fives;
            && (d.twenties == amount / 2000 || (d.twenties < amount / 2000 && p.available.twenties == 0))
            && (d.tens == afterTwenties / 1000 || (d.tens < afterTwenties / 1000 && p.available.tens == 0))
            && (d.fives == afterTens / 500 || (d.fives < afterTens / 500 && p.available.fives == 0))
            && (d.ones == (afterFives + 50) / 100 || (d.ones < (afterFives + 50) / 100 && p.available.ones == 0))
    ensures p.remaining > 50 ==> p.available.ones == 0
  {
    var use20 := Take(amount / 2000, inv.twenties);
    PayTens(amount, use20, amount - use20 * 2000, inv)
  }

  function PayTens(amount: int, use20: int, owed: int, inv: Inventory): Payout {
    var use10 := Take(owed / 1000, inv.tens);
    PayFives(amount, use20, use10, owed - use10 * 1000, inv)
  }

  function PayFives(amount: int, use20: int, use10: int, owed: int, inv: Inventory): Payout {
    var use5 := Take(owed / 500, inv.fives);
    PayOnes(amount, use20, use10, use5, owed - use5 * 500, inv)
  }

  /** The ones step uses `Math.round` of the dollars still owed, not the floor. */
  function PayOnes(amount: int, use20: int, use10: int, use5: int, owed: int, inv: Inventory): Payout {
    var use1 := Take((owed + 50) / 100, inv.ones);
    Payout(Denomination(amount, use20, use10, use5, use1), owed - use1 * 100,
           Inventory(inv.twenties - use20, inv.tens - use10, inv.fives - use5, inv.ones - use1))
  }

  /** Total bill counts handed out over a list of payouts. */
  function Used(ds: seq<Denomination>): Inventory {
    if |ds| == 0 then Inventory(0, 0, 0, 0) else Plus(Counts(ds[0]), Used(ds[1..]))
  }

  /** `distributeDenominations`: serves the partners in list order from a working copy of the inventory. */
  function Distribute(amounts: seq<int>, inv: Inventory): (d: Distribution)
    ensures |d.denominations| == |amounts|
    decreases |amounts|
  {
    if |amounts| == 0 then Distribution([], false, inv)
    else
      var p := PayOne(amounts[0], inv);
      var rest := Distribute(amounts[1..], p.available);
      Distribution([p.denomination] + rest.denominations, p.remaining > 50 || rest.insufficientBills, rest.available)
  }

  /**
   * Every partner's payout is for the amount owed and worth at most 50 cents
   * more; the warning is raised exactly when some partner is left owed more
   * than 50 cents.
   */
  lemma DistributePayouts(amounts: seq<int>, inv: Inventory)
    ensures var d := Distribute(amounts, inv);
            && (forall i :: 0 <= i < |amounts| ==> d.denominations[i].total == amounts[i])
            && (forall i :: 0 <= i < |amounts| ==> Value(d.denominations[i]) <= amounts[i] + 50)
            && (d.insufficientBills <==>
                  exists i :: 0 <= i < |amounts| && amounts[i] - Value(d.denominations[i]) > 50)
  {
    DistributeEach(amounts, inv);
    DistributeWarning(amounts, inv);
  }

  /** Each breakdown records its partner's tip and is worth at most 50 cents more. */
  lemma {:induction false} DistributeEach(amounts: seq<int>, inv: Inventory)
    ensures var d := Distribute(amounts, inv);
            forall i :: 0 <= i < |amounts| ==>
              d.denominations[i].total == amounts[i] && Value(d.denominations[i]) <= amounts[i] + 50
    decreases |amounts|
  {
    if |amounts| > 0 {
      var p := PayOne(amounts[0], inv);
      DistributeEach(amounts[1..], p.available);
      var rest := Distribute(amounts[1..], p.available);
      var d := Distribute(amounts, inv);
      assert d.denominations == [p.denomination] + rest.denominations;
      forall i | 1 <= i < |amounts|
        ensures d.denominations[i] == rest.denominations[i - 1] && amounts[i] == amounts[1..][i - 1]
      {
      }
    }
  }

  /** The warning is raised exactly when some partner is more than 50 cents short. */
  lemma {:induction false} DistributeWarning(amounts: seq<int>, inv: Inventory)
    ensures var d := Distribute(amounts, inv);
            d.insufficientBills <==> exists i :: 0 <= i < |amounts| && amounts[i] - Value(d.denominations[i]) > 50
    decreases |amounts|
  {
    if |amounts| > 0 {
      var p := PayOne(amounts[0], inv);
      DistributeWarning(amounts[1..], p.available);
      var rest := Distribute(amounts[1..], p.available);
      var d := Distribute(amounts, inv);
      assert d.denominations == [p.denomination] + rest.denominations;
      assert d.insufficientBills == (p.remaining > 50 || rest.insufficientBills);
      assert p.remaining == amounts[0] - Value(d.denominations[0]);
      if rest.insufficientBills {
        var j :| 0 <= j < |amounts[1..]| && amounts[1..][j] - Value(rest.denominations[j]) > 50;
        assert amounts[j + 1] - Value(d.denominations[j + 1]) > 50;
      }
      if exists i :: 0 <= i < |amounts| && amounts[i] - Value(d.denominations[i]) > 50 {
        var i :| 0 <= i < |amounts| && amounts[i] - Value(d.denominations[i]) > 50;
        if i > 0 {
          assert amounts[1..][i - 1] - Value(rest.denominations[i - 1]) > 50;
        }
      }
    }
  }

  /**
   * With no negative amounts, the warning is raised only when the $1 bills
   * have run out: nobody is left more than 50 cents short while a $1 bill
   * remains.
   */
  lemma {:induction false} DistributeShortOfOnes(amounts: seq<int>, inv: Inventory)
    requires forall i :: 0 <= i < |amounts| ==> amounts[i] >= 0
    ensures Distribute(amounts, inv).insufficientBills ==> Distribute(amounts, inv).available.ones == 0
    decreases |amounts|
  {
    if |amounts| > 0 {
      var p := PayOne(amounts[0], inv);
      assert forall i :: 0 <= i < |amounts[1..]| ==> amounts[1..][i] == amounts[i + 1];
      DistributeShortOfOnes(amounts[1..], p.available);
      if p.remaining > 50 {
        DistributeOnesStayEmpty(amounts[1..], p.available);
      }
    }
  }

  /** Once the $1 bills are gone, paying non-negative amounts leaves none. */
  lemma {:induction false} DistributeOnesStayEmpty(amounts: seq<int>, inv: Inventory)
    requires forall i :: 0 <= i < |amounts| ==> amounts[i] >= 0
    requires inv.ones == 0
    ensures Distribute(amounts, inv).available.ones == 0
    decreases |amounts|
  {
    if |amounts| > 0 {
      var p := PayOne(amounts[0], inv);
      assert amounts[0] >= 0;
      assert p.available.ones == 0;
      assert forall i :: 0 <= i < |amounts[1..]| ==> amounts[1..][i] == amounts[i + 1];
      DistributeOnesStayEmpty(amounts[1..], p.available);
    }
  }

  lemma DistributeConservesBills(amounts: seq<int>, inv: Inventory)
    ensures var d := Distribute(amounts, inv);
            && Plus(Used(d.denominations), d.available) == inv
            && (|amounts| > 0 || NonNegative(inv) ==> NonNegative(d.available) && Covers(inv, Used(d.denominations)))
  {
    DistributeSumsBills(amounts, inv);
    DistributeLeavesNonNegative(amounts, inv);
  }

  /** The bills handed out plus the bills left are the bills there were. */
  lemma {:induction false} DistributeSumsBills(amounts: seq<int>, inv: Inventory)
    ensures var d := Distribute(amounts, inv);
            Plus(Used(d.denominations), d.available) == inv
    decreases |amounts|
  {
    if |amounts| > 0 {
      var p := PayOne(amounts[0], inv);
      DistributeSumsBills(amounts[1..], p.available);
      var rest := Distribute(amounts[1..], p.available);
      var d := Distribute(amounts, inv);
      assert d.denominations[1..] == rest.denominations;
      assert d.available == rest.available;
      assert Used(d.denominations) == Plus(Counts(p.denomination), Used(rest.denominations));
    }
  }

  /** After paying anyone, no bill count is left negative. */
  lemma {:induction false} DistributeLeavesNonNegative(amounts: seq<int>, inv: Inventory)
    ensures |amounts| > 0 || NonNegative(inv) ==> NonNegative(Distribute(amounts, inv).available)
    decreases |amounts|
  {
    if |amounts| > 0 {
      var p := PayOne(amounts[0], inv);
      DistributeLeavesNonNegative(amounts[1..], p.available);
      assert Distribute(amounts, inv).available == Distribute(amounts[1..], p.available).available;
    }
  }


  // ---------------------------------------------------------------------
  // Ample inventory
  // ---------------------------------------------------------------------

  /**
   * The bills for `amount` cents when no count is capped: floor of the amount
   * over $20, of the amount modulo $20 over $10, of the amount modulo $10 over
   * $5, and the amount modulo $5 rounded to whole dollars.
   */
  function Greedy(amount: int): Denomination {
    Denomination(amount, amount / 2000, (amount % 2000) / 1000, (amount % 1000) / 500, (amount % 500 + 50) / 100)
  }

  function GreedyAll(amounts: seq<int>): (r: seq<Denomination>)
    ensures |r| == |amounts|
    ensures forall i :: 0 <= i < |amounts| ==> r[i] == Greedy(amounts[i])
  {
    seq(|amounts|, i requires 0 <= i < |amounts| => Greedy(amounts[i]))
  }

  /** Taking away a multiple of $20 leaves the remainder modulo $10 alone. */
  lemma ModTwentyThenTen(a: int)
    ensures (a % 2000) % 1000 == a % 1000
  {
    var q := a / 2000;
    var r := a % 2000;
    var k := r / 1000;
    var s := r % 1000;
    assert a == 1000 * (2 * q + k) + s;
    assert 0 <= s < 1000;
  }

  /** Taking away a multiple of $10 leaves the remainder modulo $5 alone. */
  lemma ModTenThenFive(a: int)
    ensures (a % 1000) % 500 == a % 500
  {
    var q := a / 1000;
    var r := a % 1000;
    var k := r / 500;
    var s := r % 500;
    assert a == 500 * (2 * q + k) + s;
    assert 0 <= s < 500;
  }

  /** With enough bills of every kind, a partner gets exactly the uncapped greedy counts and is not short. */
  lemma PayOneAmple(amount: int, inv: Inventory)
    requires Covers(inv, Counts(Greedy(amount)))
    ensures PayOne(amount, inv).denomination == Greedy(amount)
    ensures -50 <= PayOne(amount, inv).remaining <= 50
  {
    var afterTwenties := amount - (amount / 2000) * 2000;
    assert afterTwenties == amount % 2000;
    var afterTens := afterTwenties - (afterTwenties / 1000) * 1000;
    ModTwentyThenTen(amount);
    assert afterTens == amount % 1000;
    var afterFives := afterTens - (afterTens / 500) * 500;
    ModTenThenFive(amount);
    assert afterFives == amount % 500;
  }

  /**
   * When the inventory holds at least the bills the uncapped greedy split
   * needs for all partners together, every partner gets that split and the
   * warning is not raised.
   */
  lemma {:induction false} DistributeAmple(amounts: seq<int>, inv: Inventory)
    requires forall i :: 0 <= i < |amounts| ==> amounts[i] >= 0
    requires Covers(inv, Used(GreedyAll(amounts)))
    ensures Distribute(amounts, inv).denominations == GreedyAll(amounts)
    ensures !Distribute(amounts, inv).insufficientBills
    decreases |amounts|
  {
    if |amounts| > 0 {
      var g := GreedyAll(amounts);
      assert g[1..] == GreedyAll(amounts[1..]);
      UsedNonNegative(g[1..]);
      PayOneAmple(amounts[0], inv);
      var p := PayOne(amounts[0], inv);
      DistributeAmple(amounts[1..], p.available);
      var d := Distribute(amounts, inv);
      assert d.denominations == [g[0]] + g[1..] == g;
    }
  }

  lemma {:induction false} UsedNonNegative(ds: seq<Denomination>)
    requires forall i :: 0 <= i < |ds| ==> NonNegative(Counts(ds[i]))
    ensures NonNegative(Used(ds))
    decreases |ds|
  {
    if |ds| > 0 {
      assert NonNegative(Counts(ds[0]));
      UsedNonNegative(ds[1..]);
    }
  }

  /** A single partner is paid by `PayOne` and raises the warning exactly when left owed more than 50 cents. */
  lemma DistributeSingle(amount: int, inv: Inventory)
    ensures var p := PayOne(amount, inv);
            Distribute([amount], inv) == Distribution([p.denomination], p.remaining > 50, p.available)
  {
    assert [amount][1..] == [];
  }

  /** $37 with one bill each of $20, $10 and $5 and ten $1 bills: 1, 1, 1 and 2 bills, no warning. */
  lemma DistributeAmpleExample()
    ensures Distribute([3700], Inventory(1, 1, 1, 10)) == Distribution([Denomination(3700, 1, 1, 1, 2)], false, Inventory(0, 0, 0, 8))
  {
    var inv := Inventory(1, 1, 1, 10);
    var paid := Payout(Denomination(3700, 1, 1, 1, 2), 0, Inventory(0, 0, 0, 8));
    assert PayOnes(3700, 1, 1, 1, 200, inv) == paid;
    assert PayFives(3700, 1, 1, 700, inv) == paid;
    assert PayTens(3700, 1, 1700, inv) == paid;
    assert PayOne(3700, inv) == paid;
    DistributeSingle(3700, Inventory(1, 1, 1, 10));
  }

  /** $37 with only five $1 bills: five ones are handed out and the warning is raised. */
  lemma DistributeShortExample()
    ensures Distribute([3700], Inventory(0, 0, 0, 5)) == Distribution([Denomination(3700, 0, 0, 0, 5)], true, Inventory(0, 0, 0, 0))
  {
    var inv := Inventory(0, 0, 0, 5);
    var paid := Payout(Denomination(3700, 0, 0, 0, 5), 3200, Inventory(0, 0, 0, 0));
    assert PayOnes(3700, 0, 0, 0, 3700, inv) == paid;
    assert PayFives(3700, 0, 0, 3700, inv) == paid;
    assert PayTens(3700, 0, 3700, inv) == paid;
    assert PayOne(3700, inv) == paid;
    DistributeSingle(3700, Inventory(0, 0, 0, 5));
  }
}
