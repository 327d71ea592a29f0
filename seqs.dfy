/** The array operations the components use (`filter`, `find`, `flat`),
    stated once over sequences. */
module Seqs {

  datatype Option<+T> = None | Some(value: T)

  /** `s.filter(p)`: the elements of `s` that satisfy `p`, in their original order. */
  function Filter<T>(s: seq<T>, p: T -> bool): (r: seq<T>)
    ensures |r| <= |s|
    ensures forall x :: x in r ==> x in s && p(x)
    ensures forall x :: x in s && p(x) ==> x in r
  {
    if |s| == 0 then []
    else if p(s[0]) then [s[0]] + Filter(s[1..], p)
    else Filter(s[1..], p)
  }

  /** Filtering distributes over concatenation: the filter keeps the input order. */
  lemma {:induction false} FilterConcat<T>(a: seq<T>, b: seq<T>, p: T -> bool)
    ensures Filter(a + b, p) == Filter(a, p) + Filter(b, p)
  {
    if |a| == 0 {
      assert a + b == b;
    } else {
      assert (a + b)[0] == a[0];
      assert (a + b)[1..] == a[1..] + b;
      FilterConcat(a[1..], b, p);
    }
  }

  /** Each element is kept exactly as many times as it occurs, or dropped entirely. */
  lemma {:induction false} FilterCount<T>(s: seq<T>, p: T -> bool, x: T)
    ensures multiset(Filter(s, p))[x] == if p(x) then multiset(s)[x] else 0
  {
    if |s| > 0 {
      FilterCount(s[1..], p, x);
      assert s == [s[0]] + s[1..];
      assert multiset(s) == multiset{s[0]} + multiset(s[1..]);
    }
  }

  /** When every element satisfies `p`, the filter keeps everything. */
  lemma {:induction false} FilterAll<T>(s: seq<T>, p: T -> bool)
    requires forall i :: 0 <= i < |s| ==> p(s[i])
    ensures Filter(s, p) == s
  {
    if |s| > 0 {
      assert p(s[0]);
      FilterAll(s[1..], p);
    }
  }

  /** Filtering twice with the same predicate is filtering once. */
  lemma {:induction false} FilterIdempotent<T>(s: seq<T>, p: T -> bool)
    ensures Filter(Filter(s, p), p) == Filter(s, p)
  {
    if |s| > 0 {
      FilterIdempotent(s[1..], p);
      if p(s[0]) {
        var t := Filter(s[1..], p);
        assert ([s[0]] + t)[0] == s[0];
        assert ([s[0]] + t)[1..] == t;
      }
    }
  }

  /** Two predicates that agree on the elements of `s` filter it alike. */
  lemma {:induction false} FilterCongruent<T>(s: seq<T>, p: T -> bool, q: T -> bool)
    requires forall i :: 0 <= i < |s| ==> p(s[i]) == q(s[i])
    ensures Filter(s, p) == Filter(s, q)
  {
    if |s| > 0 {
      assert p(s[0]) == q(s[0]);
      FilterCongruent(s[1..], p, q);
    }
  }

  /** `s.find(p)`: the first element of `s` that satisfies `p`, if any. */
  function Find<T>(s: seq<T>, p: T -> bool): (r: Option<T>)
    ensures r.None? <==> forall i :: 0 <= i < |s| ==> !p(s[i])
    ensures r.Some? ==> exists i :: 0 <= i < |s| && s[i] == r.value && p(s[i]) && forall j :: 0 <= j < i ==> !p(s[j])
  {
    if |s| == 0 then None
    else if p(s[0]) then Some(s[0])
    else
      var r := Find(s[1..], p);
      assert r.Some? ==> exists i :: 1 <= i < |s| && s[i] == r.value && p(s[i]) && forall j :: 0 <= j < i ==> !p(s[j]) by {
        if r.Some? {
          var i :| 0 <= i < |s| - 1 && s[1..][i] == r.value && p(s[1..][i]) && forall j :: 0 <= j < i ==> !p(s[1..][j]);
          assert s[i + 1] == r.value;
          forall j | 0 <= j < i + 1 ensures !p(s[j]) {
            if j > 0 { assert s[j] == s[1..][j - 1]; }
          }
        }
      }
      r
  }

  /** `weeks.flat()`: the rows laid end to end. */
  function Flatten<T>(rows: seq<seq<T>>): (cells: seq<T>)
    ensures forall k, j :: 0 <= k < |rows| && 0 <= j < |rows[k]| ==> rows[k][j] in cells
    ensures forall x :: x in cells ==> exists k :: 0 <= k < |rows| && x in rows[k]
  {
    if |rows| == 0 then [] else Flatten(rows[..|rows| - 1]) + rows[|rows| - 1]
  }

  lemma FlattenAppend<T>(rows: seq<seq<T>>, row: seq<T>)
    ensures Flatten(rows + [row]) == Flatten(rows) + row
  {
    assert (rows + [row])[..|rows|] == rows;
  }

  /** When every row has `w` cells, the flattened sequence has `w` cells per row. */
  lemma {:induction false} FlattenUniformLength<T>(rows: seq<seq<T>>, w: nat)
    requires forall k :: 0 <= k < |rows| ==> |rows[k]| == w
    ensures |Flatten(rows)| == w * |rows|
  {
    if |rows| > 0 {
      FlattenUniformLength(rows[..|rows| - 1], w);
    }
  }

  /** When every row has `w` cells, row `k`'s cell `j` sits at position `k * w + j` of the
      flattened sequence. */
  lemma {:induction false} FlattenUniformAt<T>(rows: seq<seq<T>>, w: nat, k: nat, j: nat)
    requires forall k :: 0 <= k < |rows| ==> |rows[k]| == w
    requires k < |rows| && j < w
    ensures |Flatten(rows)| == w * |rows| && k * w + j < w * |rows|
    ensures Flatten(rows)[k * w + j] == rows[k][j]
  {
    FlattenUniformLength(rows, w);
    RowBound(k, |rows|, w, j);
    var last := |rows| - 1;
    var init := rows[..last];
    FlattenUniformLength(init, w);
    if k < last {
      FlattenUniformAt(init, w, k, j);
      RowBound(k, last, w, j);
    } else {
      MulCommutes(k, w);
    }
  }

  /** A cell of an earlier row lies before the start of a later one. */
  lemma RowBound(k: nat, last: nat, w: nat, j: nat)
    requires k < last && j < w
    ensures k * w + j < w * last
  {
    MulMonotone(k + 1, last, w);
    assert (k + 1) * w == k * w + w;
    MulCommutes(last, w);
  }

  lemma MulMonotone(a: nat, b: nat, c: nat)
    requires a <= b
    ensures a * c <= b * c
  {
  }

  lemma MulCommutes(a: int, b: int)
    ensures a * b == b * a
  {
  }
}
