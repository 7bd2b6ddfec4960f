/**
 * The browser session: the partner list the user reviews and edits, the
 * counter that hands out partner ids, and the calculation that fills in
 * every partner's tip and bills.
 */
module Session {
  import opened Common
  import Text
  import Tips
  import opened Denominations
  import Tables

  /** The three editable columns of the partner table. */
  datatype Field = PartnerName | PartnerNumber | TippableHours

  /**
   * One row of the partner list. The id `p<n>` is kept as its number `n`;
   * `tipAmount` is in cents and `denomination` is absent until calculated.
   */
  datatype Partner = Partner(id: nat, partnerName: string, partnerNumber: string, tippableHours: real,
                             tipAmount: int, denomination: Option<Denomination>)

  /** The session state together with the id counter, which lives beside it. */
  datatype State = State(partners: seq<Partner>, nextPartnerId: nat, totalTips: int, totalHours: real,
                         cashInventory: Inventory)

  /** What a calculation shows the user. */
  datatype Status = ZeroHoursAlert | Paid(insufficientBills: bool)

  datatype Outcome = Outcome(state: State, status: Status)

  /** The state on page load: no partners, no totals, ids starting at 1. */
  const Initial: State := State([], 1, 0, 0.0, Inventory(0, 0, 0, 0))

  predicate UniqueIds(ps: seq<Partner>) {
    forall i, j :: 0 <= i < j < |ps| ==> ps[i].id != ps[j].id
  }

  /** Ids are distinct and all below the counter, so the counter's next id is fresh. */
  predicate Valid(s: State) {
    UniqueIds(s.partners) && forall i :: 0 <= i < |s.partners| ==> s.partners[i].id < s.nextPartnerId
  }

  lemma InitialValid()
    ensures Valid(Initial) && |Initial.partners| == 0 && Initial.nextPartnerId == 1
  {
  }

  function Blank(id: nat): Partner {
    Partner(id, "", "", 0.0, 0, None)
  }

  predicate HasId(ps: seq<Partner>, id: nat) {
    exists i :: 0 <= i < |ps| && ps[i].id == id
  }

  // ---------------------------------------------------------------------
  // Importing, adding and deleting partners
  // ---------------------------------------------------------------------

  /**
   * Replaces the list by the partners read from a schedule:
   * they are numbered from the counter on, in order; an empty result leaves
   * an empty list and the counter as it was.
   */
  function Import(s: State, extracted: seq<Tables.ExtractedPartner>): (r: State)
    ensures Valid(r)
    ensures |r.partners| == |extracted|
    ensures r.nextPartnerId == s.nextPartnerId + |extracted|
    ensures forall i :: 0 <= i < |extracted| ==>
              && r.partners[i].id == s.nextPartnerId + i
              && r.partners[i].partnerName == extracted[i].partnerName
              && r.partners[i].partnerNumber == extracted[i].partnerNumber
              && r.partners[i].tippableHours == extracted[i].tippableHours
              && r.partners[i].tipAmount == 0 && r.partners[i].denomination.None?
    ensures r.totalTips == s.totalTips && r.totalHours == s.totalHours && r.cashInventory == s.cashInventory
  {
    if |extracted| > 0 then
      var n := |extracted|;
      var numbered := seq(n, i requires 0 <= i < n =>
        Partner(s.nextPartnerId + i, extracted[i].partnerName, extracted[i].partnerNumber,
                extracted[i].tippableHours, 0, None));
      s.(partners := numbered, nextPartnerId := s.nextPartnerId + n)
    else
      s.(partners := [])
  }

  /** Appends a blank partner under a fresh id. */
  function Add(s: State): (r: State)
    ensures r.partners == s.partners + [Blank(s.nextPartnerId)]
    ensures r.nextPartnerId == s.nextPartnerId + 1
    ensures Valid(s) ==> Valid(r) && !HasId(s.partners, s.nextPartnerId)
    ensures r.totalTips == s.totalTips && r.totalHours == s.totalHours && r.cashInventory == s.cashInventory
  {
    s.(partners := s.partners + [Blank(s.nextPartnerId)], nextPartnerId := s.nextPartnerId + 1)
  }

  /** The partners whose id is not `id`, in their original order. */
  function Without(ps: seq<Partner>, id: nat): (r: seq<Partner>)
    ensures |r| <= |ps|
    ensures forall p :: p in r ==> p in ps && p.id != id
  {
    if |ps| == 0 then []
    else (if ps[0].id == id then [] else [ps[0]]) + Without(ps[1..], id)
  }

  /** Filtering keeps exactly the partners with another id. */
  lemma {:induction false} WithoutMembers(ps: seq<Partner>, id: nat)
    ensures forall p :: p in Without(ps, id) <==> p in ps && p.id != id
    decreases |ps|
  {
    if |ps| > 0 {
      WithoutMembers(ps[1..], id);
      assert forall p :: p in ps <==> p == ps[0] || p in ps[1..];
    }
  }

  /** Removes the partner with the given id. */
  function Delete(s: State, id: nat): (r: State)
    ensures forall p :: p in r.partners <==> p in s.partners && p.id != id
    ensures !HasId(r.partners, id)
    ensures Valid(s) ==> Valid(r)
    ensures r.nextPartnerId == s.nextPartnerId
    ensures r == s.(partners := r.partners)
  {
    var r := s.(partners := Without(s.partners, id));
    WithoutMembers(s.partners, id);
    WithoutUnique(s.partners, id);
    assert forall i :: 0 <= i < |r.partners| ==> r.partners[i] in s.partners;
    r
  }

  /** Filtering keeps ids distinct. */
  lemma {:induction false} WithoutUnique(ps: seq<Partner>, id: nat)
    ensures UniqueIds(ps) ==> UniqueIds(Without(ps, id))
    decreases |ps|
  {
    if |ps| > 0 {
      WithoutUnique(ps[1..], id);
      WithoutMembers(ps[1..], id);
      var rest := Without(ps[1..], id);
      assert forall k :: 0 <= k < |rest| ==> rest[k] in ps[1..];
      if UniqueIds(ps) {
        assert forall k :: 0 <= k < |ps[1..]| ==> ps[1..][k].id != ps[0].id;
      }
    }
  }

  /** Filtering out an id that no partner has changes nothing. */
  lemma {:induction false} WithoutAbsent(ps: seq<Partner>, id: nat)
    requires !HasId(ps, id)
    ensures Without(ps, id) == ps
    decreases |ps|
  {
    if |ps| > 0 {
      assert ps[0].id != id;
      assert forall k :: 0 <= k < |ps[1..]| ==> ps[1..][k] == ps[k + 1];
      WithoutAbsent(ps[1..], id);
      assert ps == [ps[0]] + ps[1..];
    }
  }

  lemma {:induction false} WithoutAppend(a: seq<Partner>, b: seq<Partner>, id: nat)
    ensures Without(a + b, id) == Without(a, id) + Without(b, id)
    decreases |a|
  {
    if |a| == 0 {
      assert a + b == b;
    } else {
      assert (a + b)[0] == a[0];
      assert (a + b)[1..] == a[1..] + b;
      WithoutAppend(a[1..], b, id);
      var head := if a[0].id == id then [] else [a[0]];
      calc {
        Without(a + b, id);
        head + Without(a[1..] + b, id);
        head + (Without(a[1..], id) + Without(b, id));
        (head + Without(a[1..], id)) + Without(b, id);
        Without(a, id) + Without(b, id);
      }
    }
  }

  /** With distinct ids, filtering out the id at position `k` removes exactly that entry. */
  lemma WithoutAt(ps: seq<Partner>, k: nat)
    requires UniqueIds(ps) && k < |ps|
    ensures Without(ps, ps[k].id) == ps[..k] + ps[k + 1..]
  {
    var id := ps[k].id;
    var before, after := ps[..k], ps[k + 1..];
    assert !HasId(before, id) by {
      assert forall j :: 0 <= j < |before| ==> before[j] == ps[j];
    }
    assert !HasId(after, id) by {
      assert forall j :: 0 <= j < |after| ==> after[j] == ps[k + 1 + j];
    }
    SplitAt(ps, k);
    WithoutAround(before, ps[k], after);
  }

  /** A list is the part before position `k`, the entry at `k`, and the part after. */
  lemma SplitAt(ps: seq<Partner>, k: nat)
    requires k < |ps|
    ensures ps == ps[..k] + ([ps[k]] + ps[k + 1..])
  {
  }

  /** Filtering out the id of the one partner that has it removes that partner alone. */
  lemma WithoutAround(before: seq<Partner>, p: Partner, after: seq<Partner>)
    requires !HasId(before, p.id) && !HasId(after, p.id)
    ensures Without(before + ([p] + after), p.id) == before + after
  {
    var tail := [p] + after;
    WithoutAbsent(before, p.id);
    WithoutAbsent(after, p.id);
    assert tail[1..] == after;
    assert Without(tail, p.id) == Without(after, p.id);
    WithoutAppend(before, tail, p.id);
  }

  /** In a valid state, deleting a partner that is present shortens the list by exactly one. */
  lemma DeleteRemovesOne(s: State, id: nat)
    requires Valid(s)
    ensures |Delete(s, id).partners| == if HasId(s.partners, id) then |s.partners| - 1 else |s.partners|
    ensures !HasId(s.partners, id) ==> Delete(s, id) == s
  {
    if HasId(s.partners, id) {
      var k :| 0 <= k < |s.partners| && s.partners[k].id == id;
      WithoutAt(s.partners, k);
    } else {
      WithoutAbsent(s.partners, id);
    }
  }

  /** Deleting the partner just added gives back the list as it was. */
  lemma AddThenDelete(s: State)
    requires Valid(s)
    ensures Delete(Add(s), s.nextPartnerId).partners == s.partners
  {
    var id := s.nextPartnerId;
    assert !HasId(s.partners, id);
    WithoutAbsent(s.partners, id);
    WithoutAppend(s.partners, [Blank(id)], id);
    assert [Blank(id)][1..] == [];
  }

  // ---------------------------------------------------------------------
  // Editing a cell
  // ---------------------------------------------------------------------

  /** The index of the first partner with the id (`Array.prototype.find`). */
  function FindIndex(ps: seq<Partner>, id: nat): (r: Option<nat>)
    ensures r.None? <==> !HasId(ps, id)
    ensures r.Some? ==> r.value < |ps| && ps[r.value].id == id
                        && forall j :: 0 <= j < r.value ==> ps[j].id != id
    decreases |ps|
  {
    if |ps| == 0 then None
    else if ps[0].id == id then Some(0)
    else
      match FindIndex(ps[1..], id)
      case None =>
        assert forall k :: 1 <= k < |ps| ==> ps[k] == ps[1..][k - 1];
        None
      case Some(k) =>
        assert forall j :: 1 <= j < k + 1 ==> ps[j] == ps[1..][j - 1];
        Some(k + 1)
  }

  /** The hours typed into the hours input: the number it starts with, or 0 when it starts with none. */
  function HoursInput(value: string): (r: real)
    ensures r != 0.0 ==> Text.ParseDecimalPrefix(value) == Some(r)
    ensures r < 0.0 ==> value[0] == '-'
  {
    match Text.ParseDecimalPrefix(value)
    case None => 0.0
    case Some(v) => v
  }

  function SetField(p: Partner, field: Field, value: string): Partner {
    match field
    case PartnerName => p.(partnerName := value)
    case PartnerNumber => p.(partnerNumber := value)
    case TippableHours => p.(tippableHours := HoursInput(value))
  }

  /**
   * A changed cell: the first partner with the id gets the
   * new value, text fields as typed and hours parsed; an unknown id changes
   * nothing.
   */
  function Edit(s: State, id: nat, field: Field, value: string): (r: State)
    ensures !HasId(s.partners, id) ==> r == s
    ensures |r.partners| == |s.partners|
    ensures r.nextPartnerId == s.nextPartnerId
    ensures forall i :: 0 <= i < |s.partners| ==> r.partners[i].id == s.partners[i].id
    ensures forall i :: 0 <= i < |s.partners| && s.partners[i].id != id ==> r.partners[i] == s.partners[i]
    ensures Valid(s) ==> Valid(r)
    ensures r == s.(partners := r.partners)
  {
    match FindIndex(s.partners, id)
    case None => s
    case Some(k) =>
      var edited := SetField(s.partners[k], field, value);
      var ps := s.partners[k := edited];
      assert edited.id == s.partners[k].id;
      assert forall i :: 0 <= i < |ps| && i != k ==> ps[i] == s.partners[i];
      s.(partners := ps)
  }

  /**
   * In a valid state the partner with the id changes only in the edited
   * field: names and numbers are stored as typed, hours are parsed, and the
   * tip and bills are left as they were.
   */
  lemma EditField(s: State, id: nat, field: Field, value: string)
    requires Valid(s)
    ensures var r := Edit(s, id, field, value);
            forall i :: 0 <= i < |s.partners| && s.partners[i].id == id ==>
              && r.partners[i].partnerName == (if field == PartnerName then value else s.partners[i].partnerName)
              && r.partners[i].partnerNumber == (if field == PartnerNumber then value else s.partners[i].partnerNumber)
              && r.partners[i].tippableHours == (if field == TippableHours then HoursInput(value) else s.partners[i].tippableHours)
              && r.partners[i].tipAmount == s.partners[i].tipAmount
              && r.partners[i].denomination == s.partners[i].denomination
  {
    if HasId(s.partners, id) {
      var k := FindIndex(s.partners, id).value;
      assert Edit(s, id, field, value).partners[k] == SetField(s.partners[k], field, value);
      assert forall i :: 0 <= i < |s.partners| && s.partners[i].id == id ==> i == k;
    }
  }

  /** Hours typed as plain digits are read back as their value. */
  lemma EditHoursDigits(s: State, id: nat, d: string)
    requires Valid(s) && HasId(s.partners, id)
    requires |d| > 0 && forall i :: 0 <= i < |d| ==> Text.IsDigit(d[i])
    ensures exists i :: 0 <= i < |s.partners| && s.partners[i].id == id
                        && Edit(s, id, TippableHours, d).partners[i].tippableHours == Text.DigitsValue(d) as real
  {
    Text.ParseDigits(d);
    var k := FindIndex(s.partners, id).value;
    assert Edit(s, id, TippableHours, d).partners[k] == SetField(s.partners[k], TippableHours, d);
  }

  // ---------------------------------------------------------------------
  // Calculating
  // ---------------------------------------------------------------------

  function HoursOf(ps: seq<Partner>): (r: seq<real>)
    ensures |r| == |ps| && forall i :: 0 <= i < |ps| ==> r[i] == ps[i].tippableHours
  {
    seq(|ps|, i requires 0 <= i < |ps| => ps[i].tippableHours)
  }

  function TipsOf(ps: seq<Partner>): (r: seq<int>)
    ensures |r| == |ps| && forall i :: 0 <= i < |ps| ==> r[i] == ps[i].tipAmount
  {
    seq(|ps|, i requires 0 <= i < |ps| => ps[i].tipAmount)
  }

  /** Writes each partner's tip and bills, leaving the rest of the row alone. */
  function Pay(ps: seq<Partner>, amounts: seq<int>, ds: seq<Denomination>): (r: seq<Partner>)
    requires |amounts| == |ps| && |ds| == |ps|
    ensures |r| == |ps|
    ensures forall i :: 0 <= i < |ps| ==> r[i] == ps[i].(tipAmount := amounts[i], denomination := Some(ds[i]))
  {
    seq(|ps|, i requires 0 <= i < |ps| => ps[i].(tipAmount := amounts[i], denomination := Some(ds[i])))
  }

  /**
   * The Calculate button. The tips (in cents) and the
   * counted bills are recorded and the hours summed; zero total hours raises
   * the alert and leaves the partners as they were. Otherwise every partner
   * gets a tip in proportion to hours and the tips add up to the total
   * exactly; the bills are described by `CalculateBills`.
   */
  function Calculate(s: State, tipsCents: int, cash: Inventory): (r: Outcome)
    ensures r.state.totalTips == tipsCents && r.state.cashInventory == cash
    ensures r.state.totalHours == Tips.SumHours(HoursOf(s.partners))
    ensures r.state.nextPartnerId == s.nextPartnerId
    ensures |r.state.partners| == |s.partners|
    ensures forall i :: 0 <= i < |s.partners| ==>
              && r.state.partners[i].id == s.partners[i].id
              && r.state.partners[i].partnerName == s.partners[i].partnerName
              && r.state.partners[i].partnerNumber == s.partners[i].partnerNumber
              && r.state.partners[i].tippableHours == s.partners[i].tippableHours
    ensures Valid(s) ==> Valid(r.state)
    ensures r.status == ZeroHoursAlert <==> Tips.SumHours(HoursOf(s.partners)) == 0.0
    ensures r.status == ZeroHoursAlert ==> r.state.partners == s.partners
    ensures r.status.Paid? ==> |s.partners| > 0 && Tips.SumCents(TipsOf(r.state.partners)) == tipsCents
  {
    var hours := HoursOf(s.partners);
    var recorded := s.(totalTips := tipsCents, cashInventory := cash, totalHours := Tips.SumHours(hours));
    match Tips.Allocate(hours, tipsCents)
    case Failure(_) => Outcome(recorded, ZeroHoursAlert)
    case Success(amounts) =>
      var d := Distribute(amounts, cash);
      var paid := Pay(s.partners, amounts, d.denominations);
      assert TipsOf(paid) == amounts;
      Outcome(recorded.(partners := paid), Paid(d.insufficientBills))
  }

  /**
   * The bills of a calculation (`distributeDenominations`):
   * each partner's bills record the tip and are worth at most 50 cents
   * more, the warning shows exactly when some partner is more than 50 cents
   * short, and when no count is negative the bills of all partners together
   * fit in the counted cash.
   */
  lemma CalculateBills(s: State, tipsCents: int, cash: Inventory)
    requires Calculate(s, tipsCents, cash).status.Paid?
    ensures var r := Calculate(s, tipsCents, cash);
            var ps := r.state.partners;
            && (forall i :: 0 <= i < |ps| ==>
                  && ps[i].denomination.Some?
                  && ps[i].denomination.value.total == ps[i].tipAmount
                  && Value(ps[i].denomination.value) <= ps[i].tipAmount + 50)
            && (r.status.insufficientBills <==>
                  exists i :: 0 <= i < |ps| && ps[i].tipAmount - Value(ps[i].denomination.value) > 50)
            && (NonNegative(cash) ==> Covers(cash, Used(DenominationsOf(ps))))
  {
    var amounts := Tips.Allocate(HoursOf(s.partners), tipsCents).value;
    var d := Distribute(amounts, cash);
    CalculatePaysFromDistribution(s, tipsCents, cash);
    DistributePayouts(amounts, cash);
    DistributeConservesBills(amounts, cash);
  }

  /** A calculation writes the allocated tips and the distributed bills into the partners, in order. */
  lemma CalculatePaysFromDistribution(s: State, tipsCents: int, cash: Inventory)
    requires Calculate(s, tipsCents, cash).status.Paid?
    ensures var amounts := Tips.Allocate(HoursOf(s.partners), tipsCents).value;
            var d := Distribute(amounts, cash);
            var r := Calculate(s, tipsCents, cash);
            && |amounts| == |r.state.partners|
            && r.status.insufficientBills == d.insufficientBills
            && DenominationsOf(r.state.partners) == d.denominations
            && forall i :: 0 <= i < |amounts| ==>
                 r.state.partners[i].tipAmount == amounts[i] && r.state.partners[i].denomination == Some(d.denominations[i])
  {
  }

  /** The bills of every partner, absent ones counted as none. */
  function DenominationsOf(ps: seq<Partner>): (r: seq<Denomination>)
    ensures |r| == |ps|
    ensures forall i :: 0 <= i < |ps| && ps[i].denomination.Some? ==> r[i] == ps[i].denomination.value
  {
    seq(|ps|, i requires 0 <= i < |ps| =>
      if ps[i].denomination.Some? then ps[i].denomination.value else Denomination(0, 0, 0, 0, 0))
  }
}
