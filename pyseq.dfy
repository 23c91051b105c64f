/** Python list indexing and slicing (`s[i]`, `s[:t]`, `s[::k]`) and the order-keeping sub-list relation. */
module PySeq {
  import opened Wrappers

  /** `s[i]`: negative indices count from the end; anything outside `-|s| .. |s| - 1` raises IndexError. */
  function PyIndex<T>(s: seq<T>, i: int): (r: Option<T>)
    ensures r.Some? <==> -|s| <= i < |s|
  {
    if 0 <= i < |s| then Some(s[i]) else if -|s| <= i < 0 then Some(s[|s| + i]) else None
  }

  /** `s[:t] if t > 0 else s`, the guarded truncation every indexer applies. */
  function Truncate<T>(s: seq<T>, t: int): (r: seq<T>)
    ensures |r| == if 0 < t < |s| then t else |s|
    ensures r == s[..|r|]
  {
    if 0 < t < |s| then s[..t] else s
  }

  function Abs(k: int): nat {
    if k < 0 then -k else k
  }

  /** The number of `k`-sized steps needed to cover `n` items: the least `c` with `c * k >= n`. */
  function CeilDiv(n: nat, k: nat): (c: nat)
    requires k > 0
    ensures c * k >= n
    ensures c == 0 || (c - 1) * k < n
  {
    if n == 0 then 0 else if n <= k then 1 else 1 + CeilDiv(n - k, k)
  }

  function Reverse<T>(s: seq<T>): (r: seq<T>)
    ensures |r| == |s|
    ensures forall i :: 0 <= i < |s| ==> r[i] == s[|s| - 1 - i]
  {
    if |s| == 0 then [] else Reverse(s[1..]) + [s[0]]
  }

  /** `s[::k]` for a positive step: the items at 0, k, 2k, ... */
  function StrideForward<T>(s: seq<T>, k: nat): seq<T>
    requires k > 0
  {
    if |s| == 0 then []
    else if |s| <= k then [s[0]]
    else [s[0]] + StrideForward(s[k..], k)
  }

  /** `s[::k]`: a negative step walks back from the last item; a zero step raises ValueError. */
  function Stride<T>(s: seq<T>, k: int): (r: Result<seq<T>>)
    ensures r.Err? <==> k == 0
    ensures r.Err? ==> r.error == SliceStepZero
  {
    if k == 0 then Err(SliceStepZero)
    else if k > 0 then Ok(StrideForward(s, k))
    else Ok(StrideForward(Reverse(s), -k))
  }

  /** The position in `s` of the `j`-th item of `s[::k]` when `|s| == n`. */
  function SliceIndex(n: nat, k: int, j: nat): int {
    if k > 0 then j * k else n - 1 + j * k
  }

  lemma {:induction false} StrideForwardLength<T>(s: seq<T>, k: nat)
    requires k > 0
    ensures |StrideForward(s, k)| == CeilDiv(|s|, k)
  {
    if |s| > k {
      StrideForwardLength(s[k..], k);
    }
  }

  lemma MulStep(j: int, k: int)
    ensures (j - 1) * k + k == j * k
  {
  }

  lemma {:induction false} StrideForwardAt<T>(s: seq<T>, k: nat, j: nat)
    requires k > 0 && j < |StrideForward(s, k)|
    ensures j * k < |s| && StrideForward(s, k)[j] == s[j * k]
  {
    if j > 0 {
      StrideForwardAt(s[k..], k, j - 1);
      MulStep(j, k);
    }
  }

  lemma StrideForwardSpec<T>(s: seq<T>, k: nat)
    requires k > 0
    ensures |StrideForward(s, k)| == CeilDiv(|s|, k)
    ensures forall j :: 0 <= j < |StrideForward(s, k)| ==> j * k < |s| && StrideForward(s, k)[j] == s[j * k]
  {
    StrideForwardLength(s, k);
    forall j | 0 <= j < |StrideForward(s, k)| ensures j * k < |s| && StrideForward(s, k)[j] == s[j * k] {
      StrideForwardAt(s, k, j);
    }
  }

  /**
   * `s[::k]` has `ceil(|s| / |k|)` items and its `j`-th item is `s[SliceIndex(|s|, k, j)]`:
   * `s[j * k]` for a positive step, `s[|s| - 1 + j * k]` for a negative one.
   */
  lemma StrideSpec<T>(s: seq<T>, k: int)
    requires k != 0
    ensures |Stride(s, k).value| == CeilDiv(|s|, Abs(k))
    ensures forall j :: 0 <= j < |Stride(s, k).value| ==>
      0 <= SliceIndex(|s|, k, j) < |s| && Stride(s, k).value[j] == s[SliceIndex(|s|, k, j)]
  {
    StrideLength(s, k);
    forall j | 0 <= j < |Stride(s, k).value|
      ensures 0 <= SliceIndex(|s|, k, j) < |s| && Stride(s, k).value[j] == s[SliceIndex(|s|, k, j)]
    {
      StrideAt(s, k, j);
    }
  }

  lemma StrideLength<T>(s: seq<T>, k: int)
    requires k != 0
    ensures |Stride(s, k).value| == CeilDiv(|s|, Abs(k))
  {
    if k > 0 {
      StrideForwardLength(s, k);
    } else {
      StrideBackwardLength(s, k);
    }
  }

  lemma StrideBackwardLength<T>(s: seq<T>, k: int)
    requires k < 0
    ensures |Stride(s, k).value| == CeilDiv(|s|, Abs(k))
  {
    var rs := Reverse(s);
    assert Stride(s, k).value == StrideForward(rs, -k);
    StrideForwardLength(rs, -k);
  }

  lemma StrideAt<T>(s: seq<T>, k: int, j: nat)
    requires k != 0 && j < |Stride(s, k).value|
    ensures 0 <= SliceIndex(|s|, k, j) < |s| && Stride(s, k).value[j] == s[SliceIndex(|s|, k, j)]
  {
    if k > 0 {
      StrideForwardAt(s, k, j);
    } else {
      StrideBackwardAt(s, k, j);
    }
  }

  lemma StrideBackwardAt<T>(s: seq<T>, k: int, j: nat)
    requires k < 0 && j < |StrideForward(Reverse(s), -k)|
    ensures 0 <= |s| - 1 + j * k < |s| && StrideForward(Reverse(s), -k)[j] == s[|s| - 1 + j * k]
  {
    StrideForwardAt(Reverse(s), -k, j);
    assert j * (-k) == -(j * k);
  }

  /** `r` is `s` with some items left out, the rest in their order. */
  predicate IsSubsequence<T(==)>(r: seq<T>, s: seq<T>) {
    |r| == 0 || (|s| > 0 && if r[0] == s[0] then IsSubsequence(r[1..], s[1..]) else IsSubsequence(r, s[1..]))
  }

  lemma {:induction false} SubsequenceOfSelf<T>(s: seq<T>)
    ensures IsSubsequence(s, s)
  {
    if |s| > 0 {
      SubsequenceOfSelf(s[1..]);
    }
  }

  /** Keeping more of `s` keeps a sub-list: `r` is a sub-list of `s[1..]` so of `s`, and `[s[0]] + r` is one of `s`. */
  lemma {:induction false} SubsequenceSkip<T>(r: seq<T>, s: seq<T>)
    requires |s| > 0 && IsSubsequence(r, s[1..])
    ensures IsSubsequence(r, s)
  {
    if |r| > 0 && r[0] == s[0] {
      SubsequenceDrop(r, s[1..]);
    }
  }

  lemma {:induction false} SubsequenceDrop<T>(r: seq<T>, s: seq<T>)
    requires |r| > 0 && IsSubsequence(r, s)
    ensures IsSubsequence(r[1..], s)
  {
    if |s| > 0 {
      if r[0] == s[0] {
        SubsequenceSkip(r[1..], s);
      } else {
        SubsequenceDrop(r, s[1..]);
        SubsequenceSkip(r[1..], s);
      }
    }
  }

  lemma {:induction false} SubsequenceKeep<T>(r: seq<T>, s: seq<T>)
    requires |s| > 0 && IsSubsequence(r, s[1..])
    ensures IsSubsequence([s[0]] + r, s)
  {
    assert ([s[0]] + r)[1..] == r;
  }

  /** The items of `s` that `keep` accepts, in their order: a list comprehension with an `if`. */
  function Filter<T>(s: seq<T>, keep: T -> bool): (r: seq<T>)
    ensures |r| <= |s|
    ensures forall i :: 0 <= i < |r| ==> keep(r[i])
  {
    if |s| == 0 then []
    else (if keep(s[0]) then [s[0]] else []) + Filter(s[1..], keep)
  }

  /** The filter keeps the order of `s`, every occurrence of an accepted item, and nothing else. */
  lemma FilterSpec<T>(s: seq<T>, keep: T -> bool)
    ensures IsSubsequence(Filter(s, keep), s)
    ensures forall x :: multiset(Filter(s, keep))[x] == if keep(x) then multiset(s)[x] else 0
    ensures forall x :: x in Filter(s, keep) <==> x in s && keep(x)
  {
    FilterKeepsOrder(s, keep);
    FilterCounts(s, keep);
    forall x ensures x in Filter(s, keep) <==> x in s && keep(x) {
      assert x in Filter(s, keep) <==> x in multiset(Filter(s, keep));
      assert x in s <==> x in multiset(s);
    }
  }

  lemma {:induction false} FilterKeepsOrder<T>(s: seq<T>, keep: T -> bool)
    ensures IsSubsequence(Filter(s, keep), s)
  {
    if |s| > 0 {
      var rest := Filter(s[1..], keep);
      FilterKeepsOrder(s[1..], keep);
      if keep(s[0]) {
        assert Filter(s, keep) == [s[0]] + rest;
        SubsequenceKeep(rest, s);
      } else {
        assert Filter(s, keep) == rest;
        SubsequenceSkip(rest, s);
      }
    }
  }

  lemma {:induction false} FilterCounts<T>(s: seq<T>, keep: T -> bool)
    ensures forall x :: multiset(Filter(s, keep))[x] == if keep(x) then multiset(s)[x] else 0
  {
    if |s| > 0 {
      var head := if keep(s[0]) then [s[0]] else [];
      var rest := Filter(s[1..], keep);
      FilterCounts(s[1..], keep);
      assert s == [s[0]] + s[1..];
      assert multiset(s) == multiset{s[0]} + multiset(s[1..]);
      assert multiset(Filter(s, keep)) == multiset(head) + multiset(rest);
    }
  }

  /** Filtering a concatenation filters each part. */
  lemma {:induction false} FilterAppend<T>(a: seq<T>, b: seq<T>, keep: T -> bool)
    ensures Filter(a + b, keep) == Filter(a, keep) + Filter(b, keep)
  {
    if |a| == 0 {
      assert a + b == b;
    } else {
      assert (a + b)[0] == a[0] && (a + b)[1..] == a[1..] + b;
      FilterAppend(a[1..], b, keep);
    }
  }

  /** Concatenation is associative; stated once so that callers need not rediscover it. */
  lemma AppendAssoc<T>(a: seq<T>, b: seq<T>, c: seq<T>)
    ensures a + (b + c) == (a + b) + c
  {
  }
}
