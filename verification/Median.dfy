/**
 The quickselect behind `median` (tsdb/functions.go): an in-place partition
 around a random pivot, two loops that discard the lower and the upper part of
 the data without sorting it, and the median built from what is left.

 A Go slice `data[lo:hi]` is the stretch `a[lo..hi]` of an array; the random
 pivot is an arbitrary choice.
 */
module Median {
  import opened Values
  import opened Sorting

  ghost predicate Below(low: multiset<real>, high: multiset<real>) {
    forall x, y :: x in low && y in high ==> x <= y
  }

  method Swap(a: array<real>, lo: nat, hi: nat, i: nat, j: nat)
    requires lo <= i < hi <= a.Length && lo <= j < hi
    modifies a
    ensures a[i] == old(a[j]) && a[j] == old(a[i])
    ensures forall k :: 0 <= k < a.Length && k != i && k != j ==> a[k] == old(a[k])
    ensures multiset(a[lo..hi]) == old(multiset(a[lo..hi]))
  {
    ghost var s := a[lo..hi];
    var x, y := a[i], a[j];
    a[i] := y;
    a[j] := x;
    Exchanged(s, i - lo, j - lo, a[lo..hi]);
  }

  lemma Exchanged(s: seq<real>, i: nat, j: nat, t: seq<real>)
    requires i < |s| == |t| && j < |s| && t[i] == s[j] && t[j] == s[i]
    requires forall k :: 0 <= k < |s| && k != i && k != j ==> t[k] == s[k]
    ensures multiset(t) == multiset(s)
  {
    assert t == s[i := s[j]][j := s[i]];
  }

  /** A stretch split around a pivot, as multisets. */
  ghost predicate Parted(whole: multiset<real>, lows: multiset<real>, pivot: real, highs: multiset<real>) {
    && whole == lows + multiset{pivot} + highs
    && (forall x :: x in lows ==> x <= pivot)
    && (forall x :: x in highs ==> pivot <= x)
  }

  lemma PartedStretch(s: seq<real>, mid: nat)
    requires 0 < mid <= |s|
    requires forall i :: 0 < i < mid ==> s[i] <= s[0]
    requires forall i :: mid <= i < |s| ==> s[0] <= s[i]
    ensures Parted(multiset(s), multiset(s[1..mid]), s[0], multiset(s[mid..]))
  {
    var lows, highs := s[1..mid], s[mid..];
    assert s == [s[0]] + lows + highs;
    forall x | x in multiset(lows) ensures x <= s[0] {
      assert x in lows;
    }
    forall x | x in multiset(highs) ensures s[0] <= x {
      assert x in highs;
    }
  }

  lemma PartitionStretch(a: array<real>, lo: nat, hi: nat, mid: nat)
    requires lo < mid <= hi <= a.Length
    requires forall i :: lo < i < mid ==> a[i] <= a[lo]
    requires forall i :: mid <= i < hi ==> a[lo] <= a[i]
    ensures Parted(multiset(a[lo..hi]), multiset(a[lo + 1..mid]), a[lo], multiset(a[mid..hi]))
  {
    hide *;
    var s := a[lo..hi];
    assert forall i :: 0 <= i < |s| ==> s[i] == a[lo + i];
    PartedStretch(s, mid - lo);
    assert s[1..mid - lo] == a[lo + 1..mid];
    assert s[mid - lo..] == a[mid..hi];
  }

  /** `partition`: rearranges a[lo..hi] in place into pivot, lows, highs. */
  method Partition(a: array<real>, lo: nat, hi: nat) returns (pivot: real, mid: nat)
    requires lo < hi <= a.Length
    modifies a
    ensures lo < mid <= hi
    ensures a[lo] == pivot
    ensures Parted(old(multiset(a[lo..hi])), multiset(a[lo + 1..mid]), pivot, multiset(a[mid..hi]))
    ensures forall k :: 0 <= k < lo || hi <= k < a.Length ==> a[k] == old(a[k])
  {
    var pivotIndex :| lo <= pivotIndex < hi;
    pivot := a[pivotIndex];
    var low, high := lo + 1, hi - 1;
    Swap(a, lo, hi, pivotIndex, lo);
    while low <= high
      invariant lo < low <= high + 1 <= hi
      invariant a[lo] == pivot
      invariant forall i :: lo < i < low ==> a[i] <= pivot
      invariant forall i :: high < i < hi ==> pivot <= a[i]
      invariant multiset(a[lo..hi]) == old(multiset(a[lo..hi]))
      invariant forall k :: 0 <= k < lo || hi <= k < a.Length ==> a[k] == old(a[k])
      decreases high + 1 - low, if low <= high && a[low] > pivot then 1 else 0
    {
      low := SkipLow(a, pivot, low, high);
      high := SkipHigh(a, pivot, low, high, hi);
      if low < high {
        Swap(a, lo, hi, low, high);
      }
    }
    mid := low;
    PartitionStretch(a, lo, hi, mid);
  }

  method SkipLow(a: array<real>, pivot: real, start: nat, high: int) returns (low: nat)
    requires start <= high + 1 <= a.Length
    ensures start <= low <= high + 1
    ensures forall i :: start <= i < low ==> a[i] <= pivot
    ensures low <= high ==> a[low] > pivot
  {
    low := start;
    while low <= high && a[low] <= pivot
      invariant start <= low <= high + 1
      invariant forall i :: start <= i < low ==> a[i] <= pivot
    {
      low := low + 1;
    }
  }

  method SkipHigh(a: array<real>, pivot: real, low: nat, start: int, ghost hi: nat) returns (high: int)
    requires low <= start + 1 <= hi <= a.Length
    ensures low <= high + 1 <= start + 1
    ensures forall i :: high < i <= start ==> pivot <= a[i]
    ensures low <= high ==> a[high] < pivot
  {
    high := start;
    while high >= low && a[high] >= pivot
      invariant low <= high + 1 <= start + 1
      invariant forall i :: high < i <= start ==> pivot <= a[i]
    {
      high := high - 1;
    }
  }

  /** Go's `copy(out[at:], a[lo:hi])`. */
  method CopyInto(out: array<real>, at: nat, a: array<real>, lo: nat, hi: nat)
    requires out != a && lo <= hi <= a.Length && at + (hi - lo) <= out.Length
    modifies out
    ensures out[..at + (hi - lo)] == old(out[..at]) + a[lo..hi]
  {
    for i := 0 to hi - lo
      invariant out[..at + i] == old(out[..at]) + a[lo..lo + i]
    {
      out[at + i] := a[lo + i];
    }
  }

  /** `kept` is `data` without `n` of its least (or greatest) elements. */
  ghost predicate KeepsUpper(data: multiset<real>, kept: multiset<real>, dropped: multiset<real>, n: nat) {
    data == kept + dropped && |dropped| == n && Below(dropped, kept)
  }

  ghost predicate KeepsLower(data: multiset<real>, kept: multiset<real>, dropped: multiset<real>, n: nat) {
    data == kept + dropped && |dropped| == n && Below(kept, dropped)
  }

  /** What the lower discard knows of the data: dropped, undecided or kept. */
  ghost predicate LowerState(data: multiset<real>, dropped: multiset<real>, undecided: multiset<real>,
                             kept: multiset<real>, k: nat, start: nat)
  {
    && data == dropped + undecided + kept
    && |dropped| + k == start
    && Below(dropped, undecided + kept)
    && (k > 0 ==> Below(undecided, kept))
  }

  ghost predicate UpperState(data: multiset<real>, dropped: multiset<real>, undecided: multiset<real>,
                             kept: multiset<real>, k: nat, start: nat)
  {
    && data == dropped + undecided + kept
    && |dropped| + k == start
    && Below(undecided + kept, dropped)
    && (k > 0 ==> Below(kept, undecided))
  }

  lemma LowerInit(data: multiset<real>, k: nat)
    ensures LowerState(data, multiset{}, data, multiset{}, k, k)
  {
  }

  lemma LowerDone(data: multiset<real>, dropped: multiset<real>, undecided: multiset<real>, kept: multiset<real>, start: nat)
    requires LowerState(data, dropped, undecided, kept, 0, start)
    ensures KeepsUpper(data, undecided + kept, dropped, start)
  {
  }

  /** One turn of the lower discard, in its three outcomes. */
  lemma LowerStep(data: multiset<real>, dropped: multiset<real>, undecided: multiset<real>, kept: multiset<real>,
                  k: nat, start: nat, lows: multiset<real>, pivot: real, highs: multiset<real>)
    requires k > 0 && LowerState(data, dropped, undecided, kept, k, start)
    requires Parted(undecided, lows, pivot, highs)
    ensures |lows| > k ==> LowerState(data, dropped, lows, kept + multiset{pivot} + highs, k, start)
    ensures |lows| == k ==> LowerState(data, dropped + lows, highs, kept + multiset{pivot}, 0, start)
    ensures |lows| < k ==> LowerState(data, dropped + lows + multiset{pivot}, highs, kept, k - |lows| - 1, start)
  {
    assert pivot in undecided;
    assert forall x :: x in lows || x in highs ==> x in undecided;
    assert forall x :: x in undecided || x in kept ==> x in undecided + kept;
  }

  lemma UpperInit(data: multiset<real>, k: nat)
    ensures UpperState(data, multiset{}, data, multiset{}, k, k)
  {
  }

  lemma UpperDone(data: multiset<real>, dropped: multiset<real>, undecided: multiset<real>, kept: multiset<real>, start: nat)
    requires UpperState(data, dropped, undecided, kept, 0, start)
    ensures KeepsLower(data, undecided + kept, dropped, start)
  {
  }

  /** One turn of the upper discard, in its three outcomes. */
  lemma UpperStep(data: multiset<real>, dropped: multiset<real>, undecided: multiset<real>, kept: multiset<real>,
                  k: nat, start: nat, lows: multiset<real>, pivot: real, highs: multiset<real>)
    requires k > 0 && UpperState(data, dropped, undecided, kept, k, start)
    requires Parted(undecided, lows, pivot, highs)
    ensures |highs| > k ==> UpperState(data, dropped, highs, kept + multiset{pivot} + lows, k, start)
    ensures |highs| == k ==> UpperState(data, dropped + highs, lows, kept + multiset{pivot}, 0, start)
    ensures |highs| < k ==> UpperState(data, dropped + highs + multiset{pivot}, lows, kept, k - |highs| - 1, start)
  {
    assert pivot in undecided;
    assert forall x :: x in lows || x in highs ==> x in undecided;
    assert forall x :: x in undecided || x in kept ==> x in undecided + kept;
  }

  method Put(out: array<real>, i: nat, x: real) returns (j: nat)
    requires i < out.Length
    modifies out
    ensures j == i + 1
    ensures multiset(out[..j]) == old(multiset(out[..i])) + multiset{x}
  {
    out[i] := x;
    j := i + 1;
    assert out[..j] == old(out[..i]) + [x];
  }

  /** Keeps the pivot and one side of the partition: out[i] = pivot, then the copy. */
  method Keep(out: array<real>, i: nat, pivot: real, a: array<real>, lo: nat, hi: nat) returns (j: nat)
    requires out != a && lo <= hi <= a.Length && i + 1 + (hi - lo) <= out.Length
    modifies out
    ensures j == i + 1 + (hi - lo)
    ensures multiset(out[..j]) == old(multiset(out[..i])) + multiset{pivot} + multiset(a[lo..hi])
  {
    j := Put(out, i, pivot);
    CopyInto(out, j, a, lo, hi);
    j := j + (hi - lo);
  }

  /** One turn of the loop of `discardLowerRange`. */
  method LowerTurn(a: array<real>, lo: nat, hi: nat, out: array<real>, i: nat, k: nat,
                   ghost data: multiset<real>, ghost dropped: multiset<real>, ghost start: nat)
    returns (lo': nat, hi': nat, i': nat, k': nat, ghost dropped': multiset<real>)
    requires a != out && k > 0
    requires lo <= hi <= a.Length && k <= hi - lo && i + (hi - lo) - k == out.Length
    requires LowerState(data, dropped, multiset(a[lo..hi]), multiset(out[..i]), k, start)
    modifies a, out
    ensures lo' <= hi' <= a.Length && k' <= hi' - lo' && i' + (hi' - lo') - k' == out.Length
    ensures LowerState(data, dropped', multiset(a[lo'..hi']), multiset(out[..i']), k', start)
    ensures hi' - lo' < hi - lo
  {
    hide *;
    ghost var undecided, kept := multiset(a[lo..hi]), multiset(out[..i]);
    var pivot, mid := Partition(a, lo, hi);
    ghost var all := a[..];
    ghost var lows, highs := multiset(all[lo + 1..mid]), multiset(all[mid..hi]);
    assert a[lo + 1..mid] == all[lo + 1..mid] && a[mid..hi] == all[mid..hi];
    assert multiset(out[..i]) == kept;
    LowerStep(data, dropped, undecided, kept, k, start, lows, pivot, highs);
    var lowLength := mid - (lo + 1);
    assert |lows| == lowLength;
    if lowLength > k {
      i' := Keep(out, i, pivot, a, mid, hi);
      lo', hi' := lo + 1, mid;
      k', dropped' := k, dropped;
    } else {
      lo', hi' := mid, hi;
      k' := k - lowLength;
      dropped' := dropped + lows;
      if k' == 0 {
        i' := Put(out, i, pivot);
      } else {
        k', i' := k' - 1, i;
        dropped' := dropped' + multiset{pivot};
      }
    }
    assert a[..] == all;
    assert a[lo'..hi'] == all[lo'..hi'];
  }

  /** `discardLowerRange`: what is left after dropping the k least elements. */
  method DiscardLowerRange(a: array<real>, start: nat) returns (out: array<real>, ghost dropped: multiset<real>)
    requires start <= a.Length
    modifies a
    ensures fresh(out) && out.Length == a.Length - start
    ensures KeepsUpper(old(multiset(a[..])), multiset(out[..]), dropped, start)
  {
    hide *;
    ghost var data := multiset(a[..]);
    var lo, hi, k, i := 0, a.Length, start, 0;
    out := new real[a.Length - k];
    dropped := multiset{};
    assert a[lo..hi] == a[..] && out[..i] == [];
    LowerInit(data, k);
    while k > 0
      invariant 0 <= lo <= hi <= a.Length && 0 <= k <= hi - lo && 0 <= i && i + (hi - lo) - k == out.Length
      invariant LowerState(data, dropped, multiset(a[lo..hi]), multiset(out[..i]), k, start)
      decreases hi - lo
    {
      lo, hi, i, k, dropped := LowerTurn(a, lo, hi, out, i, k, data, dropped, start);
    }
    ghost var kept := multiset(out[..i]);
    LowerDone(data, dropped, multiset(a[lo..hi]), kept, start);
    CopyInto(out, i, a, lo, hi);
    assert out[..] == out[..i + (hi - lo)];
    assert multiset(out[..]) == multiset(a[lo..hi]) + kept;
  }

  /** One turn of the loop of `discardUpperRange`. */
  method UpperTurn(a: array<real>, lo: nat, hi: nat, out: array<real>, i: nat, k: nat,
                   ghost data: multiset<real>, ghost dropped: multiset<real>, ghost count: nat)
    returns (lo': nat, hi': nat, i': nat, k': nat, ghost dropped': multiset<real>)
    requires a != out && k > 0
    requires lo <= hi <= a.Length && k <= hi - lo && i + (hi - lo) - k == out.Length
    requires UpperState(data, dropped, multiset(a[lo..hi]), multiset(out[..i]), k, count)
    modifies a, out
    ensures lo' <= hi' <= a.Length && k' <= hi' - lo' && i' + (hi' - lo') - k' == out.Length
    ensures UpperState(data, dropped', multiset(a[lo'..hi']), multiset(out[..i']), k', count)
    ensures hi' - lo' < hi - lo
  {
    hide *;
    ghost var undecided, kept := multiset(a[lo..hi]), multiset(out[..i]);
    var pivot, mid := Partition(a, lo, hi);
    ghost var all := a[..];
    ghost var lows, highs := multiset(all[lo + 1..mid]), multiset(all[mid..hi]);
    assert a[lo + 1..mid] == all[lo + 1..mid] && a[mid..hi] == all[mid..hi];
    assert multiset(out[..i]) == kept;
    UpperStep(data, dropped, undecided, kept, k, count, lows, pivot, highs);
    var highLength := hi - mid;
    assert |highs| == highLength;
    if highLength > k {
      i' := Keep(out, i, pivot, a, lo + 1, mid);
      lo', hi' := mid, hi;
      k', dropped' := k, dropped;
    } else {
      lo', hi' := lo + 1, mid;
      k' := k - highLength;
      dropped' := dropped + highs;
      if k' == 0 {
        i' := Put(out, i, pivot);
      } else {
        k', i' := k' - 1, i;
        dropped' := dropped' + multiset{pivot};
      }
    }
    assert a[..] == all;
    assert a[lo'..hi'] == all[lo'..hi'];
  }

  /** `discardUpperRange`: what is left after dropping the k greatest elements. */
  method DiscardUpperRange(a: array<real>, count: nat) returns (out: array<real>, ghost dropped: multiset<real>)
    requires count <= a.Length
    modifies a
    ensures fresh(out) && out.Length == a.Length - count
    ensures KeepsLower(old(multiset(a[..])), multiset(out[..]), dropped, count)
  {
    hide *;
    ghost var data := multiset(a[..]);
    var lo, hi, k, i := 0, a.Length, count, 0;
    out := new real[a.Length - k];
    dropped := multiset{};
    assert a[lo..hi] == a[..] && out[..i] == [];
    UpperInit(data, k);
    while k > 0
      invariant 0 <= lo <= hi <= a.Length && 0 <= k <= hi - lo && 0 <= i && i + (hi - lo) - k == out.Length
      invariant UpperState(data, dropped, multiset(a[lo..hi]), multiset(out[..i]), k, count)
      decreases hi - lo
    {
      lo, hi, i, k, dropped := UpperTurn(a, lo, hi, out, i, k, data, dropped, count);
    }
    ghost var kept := multiset(out[..i]);
    UpperDone(data, dropped, multiset(a[lo..hi]), kept, count);
    CopyInto(out, i, a, lo, hi);
    assert out[..] == out[..i + (hi - lo)];
    assert multiset(out[..]) == multiset(a[lo..hi]) + kept;
  }

  /** Dropping `n` least elements leaves the sorted data without its first `n`. */
  lemma UpperIsSuffix(data: seq<real>, kept: seq<real>, dropped: multiset<real>, n: nat)
    requires KeepsUpper(multiset(data), multiset(kept), dropped, n)
    ensures n <= |data| && Sorted(kept) == Sorted(data)[n..]
  {
    var d := Listed(dropped);
    SortSplit(data, d, kept);
  }

  /** Dropping `n` greatest elements leaves the sorted data without its last `n`. */
  lemma LowerIsPrefix(data: seq<real>, kept: seq<real>, dropped: multiset<real>, n: nat)
    requires KeepsLower(multiset(data), multiset(kept), dropped, n)
    ensures n <= |data| && Sorted(kept) == Sorted(data)[..|data| - n]
  {
    var d := Listed(dropped);
    SortSplit(data, kept, d);
  }

  lemma Listed(m: multiset<real>) returns (s: seq<real>)
    ensures multiset(s) == m && |s| == |m|
  {
    if forall x :: m[x] == 0 {
      assert m == multiset{};
      s := [];
    } else {
      var x :| x in m;
      var t := Listed(m - multiset{x});
      s := t + [x];
    }
  }

  /**
   `getSortedRange`: the stretch [start, start+count) of the sorted data, for
   every pivot the partitions happen to choose.
   */
  method GetSortedRange(a: array<real>, start: nat, count: nat) returns (out: seq<real>)
    requires start + count <= a.Length
    modifies a
    ensures out == Sorted(old(a[..]))[start..start + count]
  {
    ghost var data := a[..];
    var upper, low := DiscardLowerRange(a, start);
    UpperIsSuffix(data, upper[..], low, start);
    var k := upper.Length - count;
    ghost var kept := upper[..];
    if k > 0 {
      var both, high := DiscardUpperRange(upper, k);
      LowerIsPrefix(kept, both[..], high, k);
      out := SortFloat64s(both[..]);
    } else {
      out := SortFloat64s(upper[..]);
    }
  }

  /** The textbook median: the middle of the sorted data, or the mean of the two middles. */
  ghost function TextbookMedian(data: seq<real>): Option<real> {
    var s, n := Sorted(data), |data|;
    if n == 0 then None
    else if n % 2 == 1 then Some(s[n / 2])
    else Some((s[n / 2 - 1] + s[n / 2]) / 2.0)
  }

  /** The samples of all shards; a shard without data sends nothing. */
  ghost function Collected(values: seq<Option<seq<real>>>): seq<real> {
    if values == [] then []
    else Collected(values[..|values| - 1]) + (if values[|values| - 1].Some? then values[|values| - 1].value else [])
  }

  method Collect(values: seq<Option<seq<real>>>) returns (data: seq<real>)
    ensures data == Collected(values)
  {
    data := [];
    for i := 0 to |values|
      invariant data == Collected(values[..i])
    {
      assert values[..i + 1][..i] == values[..i];
      if values[i].Some? {
        data := data + values[i].value;
      }
    }
    assert values[..|values|] == values;
  }

  /** `ReduceMedian`: the median of everything the mappers sent, for every pivot choice. */
  method ReduceMedian(values: seq<Option<seq<real>>>) returns (median: Option<real>)
    ensures median == TextbookMedian(Collected(values))
  {
    var data := Collect(values);
    var length := |data|;
    if length < 2 {
      if length == 0 {
        return None;
      }
      SortedUnique(data, Sorted(data));
      return Some(data[0]);
    }
    var a := new real[length](i requires 0 <= i < length => data[i]);
    assert a[..] == data;
    var middle := length / 2;
    if length % 2 == 0 {
      var range := GetSortedRange(a, middle - 1, 2);
      var low, high := range[0], range[1];
      return Some(low + (high - low) / 2.0);
    }
    var range := GetSortedRange(a, middle, 1);
    return Some(range[0]);
  }

  /** The median does not depend on how the samples are spread or ordered over shards. */
  lemma MedianIgnoresSharding(v: seq<Option<seq<real>>>, w: seq<Option<seq<real>>>)
    requires multiset(Collected(v)) == multiset(Collected(w))
    ensures TextbookMedian(Collected(v)) == TextbookMedian(Collected(w))
  {
    SameMedian(Collected(v), Collected(w));
  }

  lemma SameMedian(a: seq<real>, b: seq<real>)
    requires multiset(a) == multiset(b)
    ensures TextbookMedian(a) == TextbookMedian(b)
  {
    assert |a| == |multiset(a)| == |multiset(b)| == |b|;
    SortedUnique(Sorted(a), Sorted(b));
    assert Sorted(a) == Sorted(b);
  }

  /** No more than half the samples lie strictly below the median, and no more than half above. */
  lemma MedianSplitsData(data: seq<real>)
    requires data != []
    ensures var m := TextbookMedian(data).value;
            && (forall i :: 0 <= i < (|data| + 1) / 2 ==> Sorted(data)[i] <= m)
            && (forall i :: |data| / 2 <= i < |data| ==> m <= Sorted(data)[i])
  {
  }

  /** Of an odd number of samples the median is one of them; of an even number it is as far from the lower middle as from the upper. */
  lemma MedianBetween(data: seq<real>)
    requires data != []
    ensures var m, n, s := TextbookMedian(data).value, |data|, Sorted(data);
      && (n % 2 == 1 ==> m in multiset(data) && m == s[n / 2])
      && (n % 2 == 0 ==> m - s[n / 2 - 1] == s[n / 2] - m)
  {
    var m, n, s := TextbookMedian(data).value, |data|, Sorted(data);
    if n % 2 == 1 {
      assert m in s;
      assert m in multiset(s);
    }
  }
}
