/** Sequence helpers shared by the cleaning stage and the archive walk. */
module Seqs {

  /** Sum of a column (pandas `sum`). */
  function Sum(s: seq<int>): int {
    if s == [] then 0 else s[0] + Sum(s[1..])
  }

  lemma {:induction false} SumConcat(a: seq<int>, b: seq<int>)
    ensures Sum(a + b) == Sum(a) + Sum(b)
  {
    if a == [] {
      assert a + b == b;
    } else {
      assert (a + b)[1..] == a[1..] + b;
      SumConcat(a[1..], b);
    }
  }

  lemma {:induction false} SumNonNegative(s: seq<int>)
    requires forall i :: 0 <= i < |s| ==> s[i] >= 0
    ensures Sum(s) >= 0
  {
    if s != [] {
      SumNonNegative(s[1..]);
    }
  }

  /** The order-preserving selection of the elements that pass `p` (a boolean row mask). */
  function Filter<T>(s: seq<T>, p: T -> bool): (r: seq<T>)
    ensures |r| <= |s|
    ensures forall i :: 0 <= i < |r| ==> r[i] in s && p(r[i])
    ensures forall i :: 0 <= i < |s| && p(s[i]) ==> s[i] in r
  {
    if s == [] then []
    else (if p(s[0]) then [s[0]] else []) + Filter(s[1..], p)
  }

  /** Filtering commutes with concatenation: the survivors keep their relative order. */
  lemma {:induction false} FilterConcat<T>(a: seq<T>, b: seq<T>, p: T -> bool)
    ensures Filter(a + b, p) == Filter(a, p) + Filter(b, p)
  {
    if a == [] {
      assert a + b == b;
    } else {
      assert (a + b)[0] == a[0];
      assert (a + b)[1..] == a[1..] + b;
      FilterConcat(a[1..], b, p);
    }
  }

  /** The number of occurrences of `x` in `s`. */
  function Count<T(==)>(s: seq<T>, x: T): nat {
    if s == [] then 0 else Count(s[..|s| - 1], x) + if s[|s| - 1] == x then 1 else 0
  }

  lemma {:induction false} CountConcat<T>(a: seq<T>, b: seq<T>, x: T)
    ensures Count(a + b, x) == Count(a, x) + Count(b, x)
    decreases |b|
  {
    if b == [] {
      assert a + b == a;
    } else {
      assert (a + b)[..|a + b| - 1] == a + b[..|b| - 1];
      CountConcat(a, b[..|b| - 1], x);
    }
  }

  /** An element that does not occur is counted zero times. */
  lemma {:induction false} CountAbsent<T>(s: seq<T>, x: T)
    requires x !in s
    ensures Count(s, x) == 0
  {
    if s != [] {
      assert s[..|s| - 1] <= s;
      CountAbsent(s[..|s| - 1], x);
    }
  }

  /** `Count` is the multiplicity of the sequence's multiset. */
  lemma {:induction false} CountMultiset<T>(s: seq<T>, x: T)
    ensures Count(s, x) == multiset(s)[x]
  {
    if s != [] {
      CountMultiset(s[..|s| - 1], x);
      assert s == s[..|s| - 1] + [s[|s| - 1]];
    }
  }

  /** Concatenation of a list of tables, in order (`pd.concat`). */
  function Concat<T>(ss: seq<seq<T>>): seq<T> {
    if ss == [] then [] else Concat(ss[..|ss| - 1]) + ss[|ss| - 1]
  }

  lemma {:induction false} ConcatMember<T>(ss: seq<seq<T>>, x: T)
    ensures x in Concat(ss) <==> exists k :: 0 <= k < |ss| && x in ss[k]
  {
    if ss != [] {
      var init := ss[..|ss| - 1];
      ConcatMember(init, x);
      if x in Concat(ss) && x !in ss[|ss| - 1] {
        var k :| 0 <= k < |init| && x in init[k];
        assert ss[k] == init[k];
      }
      if x !in Concat(ss) {
        forall k | 0 <= k < |ss| ensures x !in ss[k] {
          if k < |init| {
            assert init[k] == ss[k];
          }
        }
      }
    }
  }

  /** Concatenating `m` blocks of `n` rows each gives `m * n` rows, and row `b * n + r`
      is row `r` of block `b`. */
  lemma {:induction false} ConcatUniform<T>(bs: seq<seq<T>>, n: nat, b: nat, r: nat)
    requires forall i :: 0 <= i < |bs| ==> |bs[i]| == n
    requires b < |bs| && r < n
    ensures |Concat(bs)| == |bs| * n
    ensures b * n + r < |Concat(bs)|
    ensures Concat(bs)[b * n + r] == bs[b][r]
  {
    var m := |bs|;
    var init := bs[..m - 1];
    ConcatLength(bs, n);
    ConcatLength(init, n);
    BlockIndex(b, r, m, n);
    if b == m - 1 {
      assert b * n == |Concat(init)|;
    } else {
      BlockIndex(b, r, m - 1, n);
      ConcatUniform(init, n, b, r);
      assert init[b] == bs[b];
    }
  }

  /** Offset `r` of block `b` lies before the end of `m` blocks of `n`. */
  lemma BlockIndex(b: nat, r: nat, m: nat, n: nat)
    requires b < m && r < n
    ensures b * n + r < m * n
  {
    assert b * n + r < b * n + n == (b + 1) * n <= m * n;
  }

  lemma {:induction false} ConcatLength<T>(bs: seq<seq<T>>, n: nat)
    requires forall i :: 0 <= i < |bs| ==> |bs[i]| == n
    ensures |Concat(bs)| == |bs| * n
  {
    if bs != [] {
      ConcatLength(bs[..|bs| - 1], n);
      assert (|bs| - 1) * n + n == |bs| * n;
    }
  }
}
