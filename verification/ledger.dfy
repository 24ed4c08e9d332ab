/**
 * The effect of one transfer on the map of balances, as a value: the
 * reference the in-place transfer is proved against, and its conservation,
 * non-negativity and reversal properties.
 */
module Ledger {
  import opened Wrappers
  import opened Exceptions

  /** Some key of a non-empty map. */
  ghost function Pick(m: map<string, real>): (k: string)
    requires m != map[]
    ensures k in m
  {
    var k :| k in m; k
  }

  /** The sum of all balances in the map. */
  ghost function Sum(m: map<string, real>): real
    decreases |m|
  {
    if m == map[] then 0.0 else var k := Pick(m); m[k] + Sum(m - {k})
  }

  /** Every balance is at least zero. */
  ghost predicate NonNegative(m: map<string, real>)
  {
    forall id :: id in m ==> m[id] >= 0.0
  }

  /** The sum can be split at any key, not only at the one Sum picks. */
  lemma {:induction false} SumSplit(m: map<string, real>, k: string)
    requires k in m
    ensures Sum(m) == m[k] + Sum(m - {k})
    decreases |m|
  {
    var j := Pick(m);
    if j != k {
      SumSplit(m - {j}, k);
      SumSplit(m - {k}, j);
      assert m - {j} - {k} == m - {k} - {j};
    }
  }

  /** Replacing one balance changes the sum by exactly the difference. */
  lemma SumUpdate(m: map<string, real>, k: string, v: real)
    requires k in m
    ensures Sum(m[k := v]) == Sum(m) - m[k] + v
  {
    SumSplit(m, k);
    SumSplit(m[k := v], k);
    assert m[k := v] - {k} == m - {k};
  }

  /** The amount is present and strictly positive. */
  predicate ValidAmount(amount: Option<real>)
  {
    amount.Some? && amount.value > 0.0
  }

  /**
   * One transfer over the balances: the checks in the order the service makes
   * them, then the debit of the source followed by the credit of the
   * destination, the credit reading the balance the debit left.
   */
  function TransferBalances(b: map<string, real>, fromId: string, toId: string, amount: Option<real>)
    : (r: Result<map<string, real>, Error>)
    ensures !ValidAmount(amount) ==> r == Failure(InvalidAmount)
    ensures ValidAmount(amount) && fromId !in b ==> r == Failure(ResourceNotFound(fromId))
    ensures ValidAmount(amount) && fromId in b && toId !in b ==> r == Failure(ResourceNotFound(toId))
    ensures ValidAmount(amount) && fromId in b && toId in b && b[fromId] < amount.value ==> r == Failure(LowBalance)
    ensures r.Success? <==> ValidAmount(amount) && fromId in b && toId in b && b[fromId] >= amount.value
    ensures r.Success? ==> r.value.Keys == b.Keys
    ensures r.Success? ==> forall id :: id in b && id != fromId && id != toId ==> r.value[id] == b[id]
  {
    if amount.None? || amount.value <= 0.0 then Failure(InvalidAmount)
    else if fromId !in b then Failure(ResourceNotFound(fromId))
    else if toId !in b then Failure(ResourceNotFound(toId))
    else if b[fromId] < amount.value then Failure(LowBalance)
    else
      var debited := b[fromId := b[fromId] - amount.value];
      Success(debited[toId := debited[toId] + amount.value])
  }

  /** Between two distinct accounts the source loses and the destination gains the amount. */
  lemma TransferMovesAmount(b: map<string, real>, fromId: string, toId: string, amount: Option<real>)
    requires fromId != toId
    requires TransferBalances(b, fromId, toId, amount).Success?
    ensures TransferBalances(b, fromId, toId, amount).value[fromId] == b[fromId] - amount.value
    ensures TransferBalances(b, fromId, toId, amount).value[toId] == b[toId] + amount.value
  {
  }

  /** A transfer from an account to itself succeeds exactly when the balance covers the amount, and changes nothing. */
  lemma SelfTransferUnchanged(b: map<string, real>, id: string, amount: Option<real>)
    requires ValidAmount(amount) && id in b
    ensures TransferBalances(b, id, id, amount).Success? <==> b[id] >= amount.value
    ensures TransferBalances(b, id, id, amount).Success? ==> TransferBalances(b, id, id, amount).value == b
  {
  }

  /** A successful transfer leaves the total of all balances unchanged. */
  lemma TransferConservesTotal(b: map<string, real>, fromId: string, toId: string, amount: Option<real>)
    requires TransferBalances(b, fromId, toId, amount).Success?
    ensures Sum(TransferBalances(b, fromId, toId, amount).value) == Sum(b)
  {
    var x := amount.value;
    var debited := b[fromId := b[fromId] - x];
    SumUpdate(b, fromId, b[fromId] - x);
    SumUpdate(debited, toId, debited[toId] + x);
  }

  /** Balances that were all non-negative stay non-negative. */
  lemma TransferKeepsNonNegative(b: map<string, real>, fromId: string, toId: string, amount: Option<real>)
    requires NonNegative(b)
    requires TransferBalances(b, fromId, toId, amount).Success?
    ensures NonNegative(TransferBalances(b, fromId, toId, amount).value)
  {
  }

  /** The same amount sent back the other way restores every balance. */
  lemma TransferReversed(b: map<string, real>, fromId: string, toId: string, amount: Option<real>)
    requires NonNegative(b)
    requires TransferBalances(b, fromId, toId, amount).Success?
    ensures TransferBalances(TransferBalances(b, fromId, toId, amount).value, toId, fromId, amount) == Success(b)
  {
    var after := TransferBalances(b, fromId, toId, amount).value;
    var back := TransferBalances(after, toId, fromId, amount);
    assert back.Success?;
    assert back.value == b;
  }
}
