/**
 * The order in which a transfer takes the monitors of its two accounts:
 * the account whose id compares larger is locked first.
 */
module LockOrdering {

  /**
   * Java's String.compareTo: the difference of the first differing
   * characters, or of the lengths when one string is a prefix of the other.
   */
  function CompareTo(a: string, b: string): (r: int)
    ensures a <= b || b <= a ==> r == |a| - |b|
  {
    if |a| == 0 || |b| == 0 then |a| - |b|
    else if a[0] != b[0] then a[0] as int - b[0] as int
    else
      assert a <= b ==> a[1..] <= b[1..];
      assert b <= a ==> b[1..] <= a[1..];
      CompareTo(a[1..], b[1..])
  }

  /** Where the strings first differ, the result is the difference of those two characters. */
  lemma {:induction false} CompareToFirstDifference(a: string, b: string, k: nat)
    requires k < |a| && k < |b| && a[..k] == b[..k] && a[k] != b[k]
    ensures CompareTo(a, b) == a[k] as int - b[k] as int
  {
    if k > 0 {
      assert a[0] == a[..k][0] && b[0] == b[..k][0];
      assert a[1..][..k - 1] == a[..k][1..] && b[1..][..k - 1] == b[..k][1..];
      CompareToFirstDifference(a[1..], b[1..], k - 1);
    }
  }

  lemma {:induction false} CompareToAntisymmetric(a: string, b: string)
    ensures CompareTo(a, b) == -CompareTo(b, a)
  {
    if |a| != 0 && |b| != 0 && a[0] == b[0] {
      CompareToAntisymmetric(a[1..], b[1..]);
    }
  }

  lemma {:induction false} CompareToZeroIffEqual(a: string, b: string)
    ensures CompareTo(a, b) == 0 <==> a == b
  {
    if |a| != 0 && |b| != 0 && a[0] == b[0] {
      CompareToZeroIffEqual(a[1..], b[1..]);
      assert a == [a[0]] + a[1..] && b == [b[0]] + b[1..];
    }
  }

  lemma {:induction false} CompareToTransitive(a: string, b: string, c: string)
    requires CompareTo(a, b) > 0 && CompareTo(b, c) > 0
    ensures CompareTo(a, c) > 0
  {
    if |a| != 0 && |b| != 0 && |c| != 0 && a[0] == b[0] && b[0] == c[0] {
      CompareToTransitive(a[1..], b[1..], c[1..]);
    }
  }

  /** The pair (first lock, second lock) for a transfer between the two ids. */
  function LockOrder(fromId: string, toId: string): (order: (string, string))
    ensures multiset{order.0, order.1} == multiset{fromId, toId}
    ensures CompareTo(order.0, order.1) >= 0
  {
    CompareToAntisymmetric(fromId, toId);
    if CompareTo(fromId, toId) > 0 then (fromId, toId) else (toId, fromId)
  }

  /** The lock order depends on the unordered pair of ids, not on the direction. */
  lemma LockOrderIgnoresDirection(fromId: string, toId: string)
    ensures LockOrder(fromId, toId) == LockOrder(toId, fromId)
  {
    CompareToAntisymmetric(fromId, toId);
    CompareToZeroIffEqual(fromId, toId);
  }

  /** A pair whose first id compares strictly larger than its second. */
  ghost predicate Descending(pair: (string, string))
  {
    CompareTo(pair.0, pair.1) > 0
  }

  /** For two distinct ids, the first lock is strictly larger than the second. */
  lemma LockOrderStrict(fromId: string, toId: string)
    requires fromId != toId
    ensures Descending(LockOrder(fromId, toId))
  {
    CompareToZeroIffEqual(LockOrder(fromId, toId).0, LockOrder(fromId, toId).1);
  }

  /**
   * A chain of transfers in which each one holds its first lock and waits for
   * its second, which the next transfer in the chain holds. Along such a chain
   * the held locks strictly descend, so the last transfer never waits for the
   * lock the first one holds: no wait-for cycle can close.
   */
  lemma {:induction false} WaitChainDescends(chain: seq<(string, string)>)
    requires |chain| > 0
    requires forall i :: 0 <= i < |chain| ==> Descending(chain[i])
    requires forall i :: 0 <= i < |chain| - 1 ==> chain[i].1 == chain[i + 1].0
    ensures CompareTo(chain[0].0, chain[|chain| - 1].1) > 0
    ensures chain[|chain| - 1].1 != chain[0].0
  {
    if |chain| > 1 {
      WaitChainDescends(chain[1..]);
      assert chain[1..][0] == chain[1];
      CompareToTransitive(chain[0].0, chain[0].1, chain[|chain| - 1].1);
    }
    CompareToZeroIffEqual(chain[0].0, chain[|chain| - 1].1);
  }
}
