/**
 * The character pools the generator exposes (PasswordGenerator.cs, lines 10-14): each is
 * a sequence of code points, and its order fixes which index picks which character.
 */
module Pools {

  /** `Enumerable.Range(start, count)`: `count` consecutive integers from `start`. */
  function Range(start: int, count: nat): seq<int>
  {
    seq(count, i => start + i)
  }

  /** Lower-case ASCII letters, `a` to `z`. */
  function Lowers(): (pool: seq<int>)
    ensures |pool| == 26 && NoDuplicates(pool)
    ensures forall x :: x in pool <==> 'a' as int <= x <= 'z' as int
  {
    RangeMembers('a' as int, 'z' as int - 'a' as int + 1);
    Range('a' as int, 'z' as int - 'a' as int + 1)
  }

  /** Upper-case ASCII letters, `A` to `Z`. */
  function Uppers(): (pool: seq<int>)
    ensures |pool| == 26 && NoDuplicates(pool)
    ensures forall x :: x in pool <==> 'A' as int <= x <= 'Z' as int
  {
    RangeMembers('A' as int, 'Z' as int - 'A' as int + 1);
    Range('A' as int, 'Z' as int - 'A' as int + 1)
  }

  /** Decimal digits, `0` to `9`. */
  function Numbers(): (pool: seq<int>)
    ensures |pool| == 10 && NoDuplicates(pool)
    ensures forall x :: x in pool <==> '0' as int <= x <= '9' as int
  {
    RangeMembers('0' as int, '9' as int - '0' as int + 1);
    Range('0' as int, '9' as int - '0' as int + 1)
  }

  /** `Lowers.Union(Uppers).Union(Numbers).ToList()`. */
  function Alphanumerics(): (pool: seq<int>)
    ensures NoDuplicates(pool)
    ensures forall x :: x in pool <==>
      'a' as int <= x <= 'z' as int || 'A' as int <= x <= 'Z' as int || '0' as int <= x <= '9' as int
  {
    Union(Union(Lowers(), Uppers()), Numbers())
  }

  predicate NoDuplicates(s: seq<int>)
  {
    forall i, j :: 0 <= i < j < |s| ==> s[i] != s[j]
  }

  /** The position of the first occurrence of `x` in `s`. */
  function FirstIndex(s: seq<int>, x: int): (k: nat)
    requires x in s
    ensures k < |s| && s[k] == x
    ensures forall j :: 0 <= j < k ==> s[j] != x
  {
    if s[0] == x then 0 else 1 + FirstIndex(s[1..], x)
  }

  /**
   * Dropping the last element keeps the first occurrence of every element that is still
   * there, and an element that occurs only last first occurs last.
   */
  lemma FirstIndexInit(s: seq<int>)
    requires |s| >= 1
    ensures forall x :: x in s[..|s| - 1] ==> FirstIndex(s[..|s| - 1], x) == FirstIndex(s, x)
    ensures s[|s| - 1] !in s[..|s| - 1] ==> FirstIndex(s, s[|s| - 1]) == |s| - 1
  {
    var init := s[..|s| - 1];
    forall x | x in init
      ensures FirstIndex(init, x) == FirstIndex(s, x)
    {
      var k := FirstIndex(init, x);
      assert s[k] == x;
      assert forall j :: 0 <= j < k ==> s[j] != x by {
        forall j | 0 <= j < k ensures s[j] != x { assert s[j] == init[j]; }
      }
    }
    if s[|s| - 1] !in init {
      assert forall j :: 0 <= j < |s| - 1 ==> s[j] != s[|s| - 1] by {
        forall j | 0 <= j < |s| - 1 ensures s[j] != s[|s| - 1] { assert s[j] == init[j]; }
      }
    }
  }

  /** LINQ's `Distinct`: the elements of `s` in order of first occurrence, each once. */
  function Distinct(s: seq<int>): (r: seq<int>)
    ensures NoDuplicates(r)
    ensures forall x :: x in r <==> x in s
    ensures forall i, j {:trigger FirstIndex(s, r[i]), FirstIndex(s, r[j])} ::
      0 <= i < j < |r| ==> FirstIndex(s, r[i]) < FirstIndex(s, r[j])
    ensures |r| <= |s|
  {
    if |s| == 0 then []
    else
      var d := Distinct(s[..|s| - 1]);
      FirstIndexInit(s);
      if s[|s| - 1] in d then d else d + [s[|s| - 1]]
  }

  /** LINQ's `Union`: the distinct elements of `a`, then those of `b` not already seen. */
  function Union(a: seq<int>, b: seq<int>): (r: seq<int>)
    ensures NoDuplicates(r)
    ensures forall x :: x in r <==> x in a || x in b
    ensures forall i, j {:trigger FirstIndex(a + b, r[i]), FirstIndex(a + b, r[j])} ::
      0 <= i < j < |r| ==> FirstIndex(a + b, r[i]) < FirstIndex(a + b, r[j])
  {
    Distinct(a + b)
  }

  /** On a sequence without repetitions, `Distinct` changes nothing. */
  lemma {:induction false} DistinctKeepsDistinct(s: seq<int>)
    requires NoDuplicates(s)
    ensures Distinct(s) == s
  {
    if |s| > 0 {
      var init := s[..|s| - 1];
      assert NoDuplicates(init);
      DistinctKeepsDistinct(init);
      assert s[|s| - 1] !in init;
      assert init + [s[|s| - 1]] == s;
    }
  }

  lemma RangeMembers(start: int, count: nat)
    ensures |Range(start, count)| == count
    ensures NoDuplicates(Range(start, count))
    ensures forall x :: x in Range(start, count) <==> start <= x < start + count
  {
    var r := Range(start, count);
    forall x | start <= x < start + count ensures x in r {
      assert r[x - start] == x;
    }
  }

  lemma NoDuplicatesAppend(a: seq<int>, b: seq<int>)
    requires NoDuplicates(a) && NoDuplicates(b)
    requires forall x :: x in a ==> x !in b
    ensures NoDuplicates(a + b)
  {
    var ab := a + b;
    forall i, j | 0 <= i < j < |ab| ensures ab[i] != ab[j] {
      if i < |a| && j >= |a| {
        assert ab[i] in a && ab[j] == b[j - |a|];
      }
    }
  }

  /**
   * The default pool holds 62 distinct code points: `a`-`z`, then `A`-`Z`, then `0`-`9`,
   * the union never dropping anything because the three ranges are disjoint.
   */
  lemma AlphanumericsLayout()
    ensures |Lowers()| == 26 && |Uppers()| == 26 && |Numbers()| == 10
    ensures Alphanumerics() == Lowers() + Uppers() + Numbers()
    ensures |Alphanumerics()| == 62 && NoDuplicates(Alphanumerics())
    ensures forall i :: 0 <= i < 62 ==>
      Alphanumerics()[i] == if i < 26 then 'a' as int + i else if i < 52 then 'A' as int + (i - 26) else '0' as int + (i - 52)
    ensures forall x :: x in Alphanumerics() <==>
      'a' as int <= x <= 'z' as int || 'A' as int <= x <= 'Z' as int || '0' as int <= x <= '9' as int
  {
    RangeMembers('a' as int, 26);
    RangeMembers('A' as int, 26);
    RangeMembers('0' as int, 10);
    NoDuplicatesAppend(Lowers(), Uppers());
    DistinctKeepsDistinct(Lowers() + Uppers());
    assert Union(Lowers(), Uppers()) == Lowers() + Uppers();
    NoDuplicatesAppend(Lowers() + Uppers(), Numbers());
    DistinctKeepsDistinct(Lowers() + Uppers() + Numbers());
  }
}
