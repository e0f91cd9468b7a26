/** The three .NET collection operations the controller relies on. */
module Collections {
  import opened Wrappers

  /** `Where(p).FirstOrDefault()`: the position of the first element satisfying `p`, if any. */
  function FirstIndexWhere<T>(s: seq<T>, p: T -> bool): (r: Option<nat>)
    ensures r.Some? ==> r.value < |s| && p(s[r.value])
    ensures r.Some? ==> forall j :: 0 <= j < r.value ==> !p(s[j])
    ensures r.None? <==> forall j :: 0 <= j < |s| ==> !p(s[j])
  {
    if s == [] then None
    else if p(s[0]) then Some(0)
    else
      match FirstIndexWhere(s[1..], p)
      case None => None
      case Some(k) => Some(k + 1)
  }

  /** `Select(f)`: `f` applied to every element, in order. */
  function Select<T, U>(s: seq<T>, f: T -> U): (r: seq<U>)
    ensures |r| == |s|
    ensures forall k :: 0 <= k < |s| ==> r[k] == f(s[k])
  {
    if s == [] then [] else [f(s[0])] + Select(s[1..], f)
  }

  /** `List<T>.Remove(x)`: drops the first occurrence of `x`; the list is unchanged when `x` is absent. */
  function ListRemove<T(==)>(s: seq<T>, x: T): (r: seq<T>)
    ensures x !in s ==> r == s
    ensures x in s ==> |r| == |s| - 1
  {
    if s == [] then []
    else if s[0] == x then s[1..]
    else [s[0]] + ListRemove(s[1..], x)
  }

  /** `Remove` takes away exactly one occurrence of `x`, when there is one, and nothing else. */
  lemma {:induction false} ListRemoveOneFewer<T>(s: seq<T>, x: T)
    ensures multiset(ListRemove(s, x)) == multiset(s) - multiset{x}
  {
    if s != [] {
      assert s == [s[0]] + s[1..];
      if s[0] != x {
        ListRemoveOneFewer(s[1..], x);
      }
    }
  }

  /** When `x` first occurs at position `i`, `Remove` leaves the elements before and after `i`, in order. */
  lemma {:induction false} ListRemoveAt<T>(s: seq<T>, x: T, i: nat)
    requires i < |s| && s[i] == x
    requires forall j :: 0 <= j < i ==> s[j] != x
    ensures ListRemove(s, x) == s[..i] + s[i + 1..]
  {
    if i == 0 {
      assert s[0] == x;
      assert s[..0] + s[1..] == s[1..];
    } else {
      var t := s[1..];
      assert s[0] != x;
      assert ListRemove(s, x) == [s[0]] + ListRemove(t, x);
      ListRemoveAt(t, x, i - 1);
      assert t[..i - 1] == s[1..i] && t[i..] == s[i + 1..];
      assert [s[0]] + s[1..i] == s[..i];
    }
  }

  /** Taking one element out of a list without repeats leaves a list without repeats. */
  lemma DistinctWithout<T>(s: seq<T>, k: nat)
    requires k < |s|
    requires forall i, j :: 0 <= i < j < |s| ==> s[i] != s[j]
    ensures var t := s[..k] + s[k + 1..]; forall i, j :: 0 <= i < j < |t| ==> t[i] != t[j]
  {
  }
}
