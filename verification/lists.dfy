/** The list operations every service shares. */
module Lists {
  predicate Distinct<T(==)>(s: seq<T>) {
    forall i, j :: 0 <= i < j < |s| ==> s[i] != s[j]
  }

  function Elems<T(==)>(s: seq<T>): set<T> {
    set x | x in s
  }

  /** A list without repeats fits into any list holding its members. */
  lemma {:induction false} DistinctFits<T>(s: seq<T>, t: seq<T>)
    requires Distinct(s) && forall x :: x in s ==> x in t
    ensures |s| <= |t|
  {
    if s != [] {
      var g := s[|s| - 1];
      assert g in s;
      var k :| 0 <= k < |t| && t[k] == g;
      var init, rest := s[..|s| - 1], t[..k] + t[k + 1..];
      forall h | h in init ensures h in rest {
        var i :| 0 <= i < |init| && init[i] == h;
        assert s[i] == h && h in t && h != g;
        var j :| 0 <= j < |t| && t[j] == h;
        assert j < k ==> rest[j] == h;
        assert j > k ==> rest[j - 1] == h;
      }
      assert |rest| == |t| - 1;
      DistinctFits(init, rest);
    }
  }

  /** `ArrayHelper.arrDifferenceElements`: the members of `a1` that are not in `a2`, repeats kept. */
  function Difference<T(==,!new)>(a1: seq<T>, a2: seq<T>): (r: seq<T>)
    ensures forall x :: x in r <==> x in a1 && x !in a2
    ensures Distinct(a1) ==> Distinct(r)
  {
    if a1 == [] then []
    else
      var rest := Difference(a1[1..], a2);
      if a1[0] in a2 then rest else [a1[0]] + rest
  }

  /** Filtering keeps order and repeats: a further last member is kept, last, unless `a2` has it. */
  lemma {:induction false} DifferenceAppend<T(!new)>(a: seq<T>, x: T, a2: seq<T>)
    ensures Difference(a + [x], a2) == Difference(a, a2) + if x in a2 then [] else [x]
  {
    if a == [] {
      assert a + [x] == [x] && [x][1..] == [];
    } else {
      assert (a + [x])[1..] == a[1..] + [x];
      DifferenceAppend(a[1..], x, a2);
    }
  }

  /** The members of `s` that are in `keep`, in order. */
  function Restrict<T(==,!new)>(s: seq<T>, keep: set<T>): (r: seq<T>)
    ensures forall x :: x in r <==> x in s && x in keep
  {
    if s == [] then []
    else if s[0] in keep then [s[0]] + Restrict(s[1..], keep) else Restrict(s[1..], keep)
  }

  /** Restricting keeps order and repeats too. */
  lemma {:induction false} RestrictAppend<T(!new)>(a: seq<T>, x: T, keep: set<T>)
    ensures Restrict(a + [x], keep) == Restrict(a, keep) + if x in keep then [x] else []
  {
    if a == [] {
      assert a + [x] == [x] && [x][1..] == [];
    } else {
      assert (a + [x])[1..] == a[1..] + [x];
      RestrictAppend(a[1..], x, keep);
    }
  }

  /** SQL `LIMIT n`. */
  function Take<T>(s: seq<T>, n: nat): (r: seq<T>)
    ensures |r| == if |s| <= n then |s| else n
    ensures r <= s
  {
    if |s| <= n then s else s[..n]
  }

  /** SQL `MAX`, with 0 for no rows (the code adds 1 to `null` there). */
  ghost function MaxOf(s: set<nat>): (m: nat)
    ensures forall x :: x in s ==> x <= m
    ensures s != {} ==> m in s
    ensures s == {} ==> m == 0
  {
    if s == {} then 0
    else
      var x :| x in s;
      var rest := MaxOf(s - {x});
      assert forall y :: y in s ==> y == x || y in s - {x};
      if rest < x then x else rest
  }

  method Maximum(s: set<nat>) returns (m: nat)
    ensures m == MaxOf(s)
  {
    var left := s;
    m := 0;
    while left != {}
      invariant left <= s
      invariant forall x :: x in s && x !in left ==> x <= m
      invariant m in s || m == 0
      decreases left
    {
      var x :| x in left;
      if m < x {
        m := x;
      }
      left := left - {x};
    }
  }
}
