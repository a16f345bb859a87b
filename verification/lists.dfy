/** The two Swift array operations the editors' remove buttons rely on:
    `firstIndex(of:)` and removing the element found there. */
module Lists {
  import opened Records

  /** No element occurs twice. */
  ghost predicate Distinct<T>(s: seq<T>) {
    forall i, j | 0 <= i < j < |s| :: s[i] != s[j]
  }

  /** `s.firstIndex(of: x)`: the position of the first occurrence of `x`. */
  function FirstIndex<T(==)>(s: seq<T>, x: T): (r: Option<nat>)
    ensures r.None? <==> x !in s
    ensures r.Some? ==> r.value < |s| && s[r.value] == x
    ensures r.Some? ==> forall j | 0 <= j < r.value :: s[j] != x
  {
    if s == [] then None
    else if s[0] == x then Some(0)
    else
      match FirstIndex(s[1..], x)
      case None => None
      case Some(i) => Some(i + 1)
  }

  /** `if let index = s.firstIndex(of: x) { s.remove(at: index) }`. */
  function RemoveFirst<T(==)>(s: seq<T>, x: T): seq<T> {
    match FirstIndex(s, x)
    case None => s
    case Some(i) => s[..i] + s[i + 1..]
  }

  /** Removal takes out the first occurrence of `x` and keeps every other
      element in its order; without an occurrence nothing changes. */
  lemma RemoveFirstOrder<T>(s: seq<T>, x: T)
    ensures x !in s ==> RemoveFirst(s, x) == s
    ensures x in s ==> |RemoveFirst(s, x)| == |s| - 1
    ensures x in s ==>
              var i := FirstIndex(s, x).value;
              forall k | 0 <= k < |s| - 1 :: RemoveFirst(s, x)[k] == if k < i then s[k] else s[k + 1]
  {
    if x in s {
      var i := FirstIndex(s, x).value;
      var r := s[..i] + s[i + 1..];
      assert RemoveFirst(s, x) == r;
      forall k | 0 <= k < |s| - 1
        ensures r[k] == if k < i then s[k] else s[k + 1]
      {
        if k >= i {
          assert r[k] == s[i + 1..][k - i];
        }
      }
    }
  }

  /** Removal takes out exactly one occurrence of `x` when there is one. */
  lemma RemoveFirstMultiset<T>(s: seq<T>, x: T)
    ensures x in s ==> multiset(RemoveFirst(s, x)) == multiset(s) - multiset{x}
  {
    if x in s {
      var i := FirstIndex(s, x).value;
      assert s == s[..i] + [x] + s[i + 1..];
    }
  }

  /** From a list without duplicates, removal leaves `x` out altogether and
      creates no duplicate. */
  lemma RemoveFromDistinct<T>(s: seq<T>, x: T)
    requires Distinct(s)
    ensures Distinct(RemoveFirst(s, x)) && x !in RemoveFirst(s, x)
  {
    if x in s {
      var i := FirstIndex(s, x).value;
      var r := RemoveFirst(s, x);
      RemoveFirstOrder(s, x);
      forall k | 0 <= k < |r|
        ensures r[k] != x
      {
        if k >= i {
          assert r[k] == s[k + 1] && s[i] == x;
        }
      }
    }
  }

  lemma DistinctSnoc<T>(s: seq<T>, x: T)
    requires Distinct(s) && x !in s
    ensures Distinct(s + [x])
  {
  }
}
