/** Queries on the denomination table for the configured currency:
    `lowestBill`, `highestBill` and `hasDenominations`. The table itself
    is external; it is a map from currency code to the bill values. */
module Denominations {
  import opened Wrappers
  import opened Bytes

  type Table = map<seq<byte>, seq<real>>

  /** Every currency in the table lists at least one bill. */
  predicate WellFormedTable(table: Table)
  {
    forall code :: code in table ==> |table[code]| > 0
  }

  /** `_denominations`: the table entry for the configured code, `undefined`
      (here `None`) when there is no code or no entry. */
  function Bills(table: Table, fiatCode: Option<seq<byte>>): (r: Option<seq<real>>)
    ensures r.Some? <==> fiatCode.Some? && fiatCode.value in table
    ensures r.Some? ==> r.value == table[fiatCode.value]
  {
    if fiatCode.Some? && fiatCode.value in table then Some(table[fiatCode.value]) else None
  }

  /** `hasDenominations`: whether the configured code has a table entry. */
  function HasDenominations(table: Table, fiatCode: Option<seq<byte>>): (r: bool)
    ensures r <==> fiatCode.Some? && fiatCode.value in table
  {
    Bills(table, fiatCode).Some?
  }

  /** The smallest value of a non-empty list (`_.min`). */
  function Min(s: seq<real>): (m: real)
    requires |s| > 0
    ensures m in s
    ensures forall x :: x in s ==> m <= x
  {
    if |s| == 1 then s[0]
    else
      var rest := Min(s[1..]);
      assert forall x :: x in s ==> x == s[0] || x in s[1..];
      if s[0] <= rest then s[0] else rest
  }

  /** The largest value of a non-empty list (`_.max`). */
  function Max(s: seq<real>): (m: real)
    requires |s| > 0
    ensures m in s
    ensures forall x :: x in s ==> x <= m
  {
    if |s| == 1 then s[0]
    else
      var rest := Max(s[1..]);
      assert forall x :: x in s ==> x == s[0] || x in s[1..];
      if s[0] >= rest then s[0] else rest
  }

  /** The bills of at least `amount`, in table order. */
  function AtLeast(s: seq<real>, amount: real): (r: seq<real>)
    ensures forall x :: x in r <==> x in s && amount <= x
  {
    if |s| == 0 then []
    else
      assert forall x :: x in s ==> x == s[0] || x in s[1..];
      (if amount <= s[0] then [s[0]] else []) + AtLeast(s[1..], amount)
  }

  /** The bills of at most `amount`, in table order. */
  function AtMost(s: seq<real>, amount: real): (r: seq<real>)
    ensures forall x :: x in r <==> x in s && x <= amount
  {
    if |s| == 0 then []
    else
      assert forall x :: x in s ==> x == s[0] || x in s[1..];
      (if s[0] <= amount then [s[0]] else []) + AtMost(s[1..], amount)
  }

  /** `lowestBill(fiat)`: the smallest bill worth at least `fiat`, or the
      smallest bill of all when every bill is worth less. Without a table
      entry the driver throws (here `None`). */
  function LowestBill(table: Table, fiatCode: Option<seq<byte>>, fiat: real): (r: Option<real>)
    requires WellFormedTable(table)
    ensures r.Some? <==> HasDenominations(table, fiatCode)
    ensures r.Some? ==> r.value in table[fiatCode.value]
    ensures r.Some? && (exists b :: b in table[fiatCode.value] && fiat <= b) ==>
              && fiat <= r.value
              && forall b :: b in table[fiatCode.value] && fiat <= b ==> r.value <= b
    ensures r.Some? && (forall b :: b in table[fiatCode.value] ==> b < fiat) ==>
              forall b :: b in table[fiatCode.value] ==> r.value <= b
  {
    match Bills(table, fiatCode)
    case None => None
    case Some(bills) =>
      var filtered := AtLeast(bills, fiat);
      if |filtered| == 0 then Some(Min(bills)) else Some(Min(filtered))
  }

  /** The result of `highestBill`, which may be negative infinity. */
  datatype Bound = NegativeInfinity | Finite(value: real)

  /** `highestBill(fiat)`: the largest bill worth at most `fiat`, or negative
      infinity when no bill is. The driver filters with `lodash/fp`, whose
      `filter` treats a missing table entry as an empty list, so without an
      entry the result is negative infinity too; nothing throws. */
  function HighestBill(table: Table, fiatCode: Option<seq<byte>>, fiat: real): (r: Bound)
    ensures !HasDenominations(table, fiatCode) ==> r == NegativeInfinity
    ensures r.Finite? ==>
              && HasDenominations(table, fiatCode)
              && r.value in table[fiatCode.value]
              && r.value <= fiat
              && forall b :: b in table[fiatCode.value] && b <= fiat ==> b <= r.value
    ensures HasDenominations(table, fiatCode) ==>
              (r == NegativeInfinity <==> forall b :: b in table[fiatCode.value] ==> fiat < b)
  {
    var bills := match Bills(table, fiatCode) case None => [] case Some(bills) => bills;
    var filtered := AtMost(bills, fiat);
    if |filtered| == 0 then
      assert forall b :: b in bills ==> b !in filtered;
      NegativeInfinity
    else
      assert filtered[0] in filtered;
      Finite(Max(filtered))
  }
}
