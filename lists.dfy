/** Positional list operations of `java.util.List`, stated over sequences of
 *  keys: `indexOf`, `remove` at an index, and distinctness. */
module Lists {

  /** `List.indexOf`: the first position of `x`, or -1. */
  function IndexOf<T(==)>(s: seq<T>, x: T): (k: int)
    ensures -1 <= k < |s|
    ensures k == -1 <==> x !in s
    ensures 0 <= k ==> s[k] == x && x !in s[..k]
  {
    IndexFrom(s, x, 0)
  }

  /** The first position at or after `i` holding `x`, or -1. */
  function IndexFrom<T(==)>(s: seq<T>, x: T, i: nat): (k: int)
    requires i <= |s|
    requires forall j :: 0 <= j < i ==> s[j] != x
    ensures -1 <= k < |s|
    ensures k == -1 <==> x !in s
    ensures 0 <= k ==> s[k] == x && x !in s[..k]
    decreases |s| - i
  {
    if i == |s| then -1
    else if s[i] == x then i
    else IndexFrom(s, x, i + 1)
  }

  /** `List.remove(int)`: the list without position `k`, the rest in order. */
  function RemoveAt<T>(s: seq<T>, k: nat): (r: seq<T>)
    requires k < |s|
    ensures |r| == |s| - 1
    ensures forall i :: 0 <= i < k ==> r[i] == s[i]
    ensures forall i :: k <= i < |r| ==> r[i] == s[i + 1]
  {
    seq(|s| - 1, i requires 0 <= i < |s| - 1 => if i < k then s[i] else s[i + 1])
  }

  /** A non-empty prefix is the one before it followed by its last element. */
  lemma TakeLast<T>(s: seq<T>, k: nat)
    requires 0 < k <= |s|
    ensures s[..k] == s[..k - 1] + [s[k - 1]]
  {
  }

  /** The prefix as long as the list is the list. */
  lemma TakeAll<T>(s: seq<T>)
    ensures s[..|s|] == s
  {
  }

  /** No value occurs twice. */
  predicate Distinct<T(==)>(s: seq<T>)
  {
    forall i, j :: 0 <= i < j < |s| ==> s[i] != s[j]
  }

  /** Appending a value that is absent keeps a list duplicate-free. */
  lemma DistinctAppend<T>(s: seq<T>, x: T)
    requires x !in s
    ensures Distinct(s) ==> Distinct(s + [x])
  {
  }

  /** Removing a position keeps a list duplicate-free, and the removed value
   *  is then absent. */
  lemma DistinctRemoveAt<T>(s: seq<T>, k: nat)
    requires k < |s| && Distinct(s)
    ensures Distinct(RemoveAt(s, k))
    ensures s[k] !in RemoveAt(s, k)
  {
    var r := RemoveAt(s, k);
    forall i, j | 0 <= i < j < |r| ensures r[i] != r[j] {
      var i' := if i < k then i else i + 1;
      var j' := if j < k then j else j + 1;
      assert r[i] == s[i'] && r[j] == s[j'] && i' < j';
    }
  }

  /** Every value other than the removed one is kept. */
  lemma InRemoveAt<T>(s: seq<T>, k: nat, x: T)
    requires k < |s| && x in s && x != s[k]
    ensures x in RemoveAt(s, k)
  {
    var i :| 0 <= i < |s| && s[i] == x;
    var r := RemoveAt(s, k);
    if i < k { assert r[i] == x; } else { assert r[i - 1] == x; }
  }

  /** In a duplicate-free list, `indexOf` of an element finds that element's position. */
  lemma IndexOfDistinct<T>(s: seq<T>, i: nat)
    requires i < |s| && Distinct(s)
    ensures IndexOf(s, s[i]) == i
  {
  }

  /** How many times `x` occurs in `s`. */
  function Count<T(==)>(s: seq<T>, x: T): (n: nat)
    ensures n <= |s|
    ensures n == 0 <==> x !in s
  {
    if s == [] then 0
    else
      assert s == s[..|s| - 1] + [s[|s| - 1]];
      Count(s[..|s| - 1], x) + (if s[|s| - 1] == x then 1 else 0)
  }

  lemma CountAppend<T>(s: seq<T>, y: T, x: T)
    ensures Count(s + [y], x) == Count(s, x) + (if y == x then 1 else 0)
  {
    assert (s + [y])[..|s|] == s;
  }

  /** Removing a position removes one occurrence of the value there. */
  lemma {:induction false} CountRemoveAt<T>(s: seq<T>, k: nat, x: T)
    requires k < |s|
    ensures Count(RemoveAt(s, k), x) == Count(s, x) - (if s[k] == x then 1 else 0)
    decreases |s|
  {
    var n := |s| - 1;
    if k == n {
      assert RemoveAt(s, k) == s[..n];
    } else {
      CountRemoveAt(s[..n], k, x);
      assert RemoveAt(s, k) == RemoveAt(s[..n], k) + [s[n]];
      CountAppend(RemoveAt(s[..n], k), s[n], x);
    }
  }
}
