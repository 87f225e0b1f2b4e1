/** Ascending enumeration of finite integer sets (the iteration order of a
    Kotlin `SortedSet`) and sequence reversal. */
module Ordered {

  predicate StrictlyIncreasing(q: seq<int>) {
    forall i, j :: 0 <= i < j < |q| ==> q[i] < q[j]
  }

  /** The least element of a nonempty finite set. */
  function Least(s: set<int>): (m: int)
    requires s != {}
    ensures m in s
    ensures forall y :: y in s ==> m <= y
  {
    LeastExists(s);
    var m :| m in s && forall y :: y in s ==> m <= y;
    m
  }

  lemma {:induction false} LeastExists(s: set<int>)
    requires s != {}
    ensures exists m :: m in s && forall y :: y in s ==> m <= y
    decreases |s|
  {
    var x := PickOne(s);
    if s == {x} {
      assert forall y :: y in s ==> x <= y;
    } else {
      var rest := s - {x};
      LeastExists(rest);
      var m :| m in rest && forall y :: y in rest ==> m <= y;
      var least := if x < m then x else m;
      forall y | y in s
        ensures least <= y
      {
        if y != x {
          assert y in rest;
        }
      }
      assert least in s;
    }
  }

  /** Some element of a nonempty set. */
  lemma PickOne(s: set<int>) returns (x: int)
    requires s != {}
    ensures x in s
  {
    MembersDetermineSet(s);
    x :| x in s;
  }

  lemma MembersDetermineSet(s: set<int>)
    ensures (forall y :: y !in s) ==> s == {}
  {
    if forall y :: y !in s {
      assert forall y :: y in s <==> y in {};
    }
  }

  /** The elements of `s` in ascending order: no duplicates, nothing missing. */
  function Ascending(s: set<int>): (q: seq<int>)
    ensures |q| == |s|
    ensures forall i :: 0 <= i < |q| ==> q[i] in s
    ensures forall x :: x in s ==> x in q
    ensures StrictlyIncreasing(q)
    decreases |s|
  {
    if s == {} then []
    else
      var m := Least(s);
      var rest := Ascending(s - {m});
      LeastFirst(s, m, rest);
      [m] + rest
  }

  /** The least element followed by the ascending rest is ascending. */
  lemma LeastFirst(s: set<int>, m: int, rest: seq<int>)
    requires m in s && forall y :: y in s ==> m <= y
    requires |rest| == |s - {m}| && StrictlyIncreasing(rest)
    requires forall i :: 0 <= i < |rest| ==> rest[i] in s - {m}
    requires forall x :: x in s - {m} ==> x in rest
    ensures var q := [m] + rest; |q| == |s| && StrictlyIncreasing(q)
    ensures var q := [m] + rest; forall i :: 0 <= i < |q| ==> q[i] in s
    ensures var q := [m] + rest; forall x :: x in s ==> x in q
  {
    var q := [m] + rest;
    forall i, j | 0 <= i < j < |q|
      ensures q[i] < q[j]
    {
      if i == 0 {
        assert q[j] == rest[j - 1] && rest[j - 1] in s - {m};
      } else {
        assert q[i] == rest[i - 1] && q[j] == rest[j - 1];
      }
    }
    forall x | x in s
      ensures x in q
    {
      if x != m {
        assert x in rest;
      }
    }
  }

  lemma AscendingCons(s: set<int>)
    requires s != {}
    ensures Ascending(s) == [Least(s)] + Ascending(s - {Least(s)})
  {
  }

  /** A strictly increasing sequence is the ascending enumeration of its elements. */
  lemma {:induction false} AscendingUnique(s: set<int>, q: seq<int>)
    requires StrictlyIncreasing(q)
    requires forall i :: 0 <= i < |q| ==> q[i] in s
    requires forall x :: x in s ==> x in q
    ensures q == Ascending(s)
    decreases |q|
  {
    if |q| == 0 {
      assert s == {} by {
        MembersDetermineSet(s);
      }
    } else {
      var m := q[0];
      var s' := s - {m};
      var q' := q[1..];
      assert m == Least(s) by {
        HeadIsLeast(s, q);
      }
      assert q' == Ascending(s') by {
        TailEnumerates(s, q);
        AscendingUnique(s', q');
      }
      Reassemble(s, q, m, q');
    }
  }

  lemma Reassemble(s: set<int>, q: seq<int>, m: int, q': seq<int>)
    requires s != {} && |q| > 0 && m == q[0] && q' == q[1..]
    requires m == Least(s) && q' == Ascending(s - {m})
    ensures q == Ascending(s)
  {
    AscendingCons(s);
    assert q == [m] + q';
  }

  lemma HeadIsLeast(s: set<int>, q: seq<int>)
    requires StrictlyIncreasing(q)
    requires 0 < |q|
    requires forall i :: 0 <= i < |q| ==> q[i] in s
    requires forall x :: x in s ==> x in q
    ensures s != {} && q[0] == Least(s)
  {
    assert q[0] in s;
    var m := Least(s);
    assert m in q;
    var k :| 0 <= k < |q| && q[k] == m;
    assert q[0] <= q[k];
  }

  lemma TailEnumerates(s: set<int>, q: seq<int>)
    requires StrictlyIncreasing(q)
    requires 0 < |q|
    requires forall i :: 0 <= i < |q| ==> q[i] in s
    requires forall x :: x in s ==> x in q
    ensures StrictlyIncreasing(q[1..])
    ensures forall i :: 0 <= i < |q[1..]| ==> q[1..][i] in s - {q[0]}
    ensures forall x :: x in s - {q[0]} ==> x in q[1..]
  {
    var q' := q[1..];
    forall i | 0 <= i < |q'|
      ensures q'[i] in s - {q[0]}
    {
      assert q[0] < q[i + 1];
    }
    forall x | x in s - {q[0]}
      ensures x in q'
    {
      assert x in q;
      var k :| 0 <= k < |q| && q[k] == x;
      assert q'[k - 1] == x;
    }
  }

  /** In a strictly increasing sequence, values compare as their indices do. */
  lemma IndexOrder(q: seq<int>, i: int, j: int)
    requires StrictlyIncreasing(q) && 0 <= i < |q| && 0 <= j < |q|
    ensures q[i] < q[j] <==> i < j
    ensures q[i] == q[j] <==> i == j
  {
    if i < j {
      assert q[i] < q[j];
    } else if j < i {
      assert q[j] < q[i];
    }
  }

  /** A sequence without duplicates has as many distinct elements as entries. */
  lemma {:induction false} DistinctCard(q: seq<int>)
    requires StrictlyIncreasing(q)
    ensures |set i | 0 <= i < |q| :: q[i]| == |q|
    decreases |q|
  {
    if |q| > 0 {
      var last := |q| - 1;
      var init := q[..last];
      DistinctCard(init);
      var a := set i | 0 <= i < |init| :: init[i];
      var b := set i | 0 <= i < |q| :: q[i];
      assert b == a + {q[last]};
      assert q[last] !in a by {
        forall i | 0 <= i < |init|
          ensures init[i] != q[last]
        {
          assert q[i] < q[last];
        }
      }
    }
  }

  /** Reversal of a sequence. */
  function Rev<T>(s: seq<T>): (r: seq<T>)
    ensures |r| == |s|
    ensures forall i :: 0 <= i < |s| ==> r[i] == s[|s| - 1 - i]
  {
    if |s| == 0 then [] else Rev(s[1..]) + [s[0]]
  }

  lemma RevRev<T>(s: seq<T>)
    ensures Rev(Rev(s)) == s
  {
  }

  lemma RevAppendOne<T>(s: seq<T>, x: T)
    ensures Rev([x] + s) == Rev(s) + [x]
  {
  }

  lemma RevSnoc<T>(s: seq<T>, x: T)
    ensures Rev(s + [x]) == [x] + Rev(s)
  {
    assert forall i :: 0 <= i < |s| + 1 ==> Rev(s + [x])[i] == ([x] + Rev(s))[i];
  }
}
