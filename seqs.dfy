/** Sequence shapes shared by the chunker and the ingestion path: a list
    comprehension with a condition, and the sliding windows of a loop that
    slices `s[start:min(start + size, len(s))]` and then advances `start` by `step`. */
module Seqs {

  function Min(a: int, b: int): int {
    if a <= b then a else b
  }

  /** `[x for x in s if p(x)]`. */
  function Filter<T(!new)>(s: seq<T>, p: T -> bool): (r: seq<T>)
    ensures |r| <= |s|
    ensures forall x :: x in r ==> x in s && p(x)
  {
    if s == [] then [] else (if p(s[0]) then [s[0]] else []) + Filter(s[1..], p)
  }

  /** Nothing that satisfies the condition is dropped. */
  lemma {:induction false} FilterKeeps<T(!new)>(s: seq<T>, p: T -> bool, x: T)
    requires x in s && p(x)
    ensures x in Filter(s, p)
    decreases |s|
  {
    if s[0] != x {
      FilterKeeps(s[1..], p, x);
    }
  }

  lemma {:induction false} FilterAppend<T(!new)>(s: seq<T>, x: T, p: T -> bool)
    ensures Filter(s + [x], p) == Filter(s, p) + (if p(x) then [x] else [])
    decreases |s|
  {
    if s == [] {
      assert [] + [x] == [x];
    } else {
      assert (s + [x])[0] == s[0] && (s + [x])[1..] == s[1..] + [x];
      FilterAppend(s[1..], x, p);
    }
  }

  /** The positions of `s` that the comprehension keeps, in increasing order. */
  function FilterIndices<T>(s: seq<T>, p: T -> bool): (ix: seq<nat>) {
    if s == [] then []
    else
      var rest := Shift(FilterIndices(s[1..], p));
      if p(s[0]) then [0] + rest else rest
  }

  function Shift(ix: seq<nat>): (r: seq<nat>)
    ensures |r| == |ix| && forall k :: 0 <= k < |ix| ==> r[k] == ix[k] + 1
  {
    seq(|ix|, k requires 0 <= k < |ix| => ix[k] + 1)
  }

  /** The k-th element the comprehension keeps is `s[FilterIndices(s, p)[k]]`. */
  lemma {:induction false} FilterAt<T(!new)>(s: seq<T>, p: T -> bool)
    ensures |FilterIndices(s, p)| == |Filter(s, p)|
    ensures forall k :: 0 <= k < |FilterIndices(s, p)| ==>
      FilterIndices(s, p)[k] < |s| && Filter(s, p)[k] == s[FilterIndices(s, p)[k]]
    decreases |s|
  {
    if s != [] {
      var inner := FilterIndices(s[1..], p);
      var g := Filter(s[1..], p);
      FilterAt(s[1..], p);
      var rest := Shift(inner);
      forall k | 0 <= k < |rest| ensures rest[k] < |s| && g[k] == s[rest[k]] {
        assert g[k] == s[1..][inner[k]];
      }
      if p(s[0]) {
        var ix := [0] + rest;
        var f := [s[0]] + g;
        assert FilterIndices(s, p) == ix && Filter(s, p) == f;
        forall k | 0 <= k < |ix| ensures ix[k] < |s| && f[k] == s[ix[k]] {
          if k > 0 {
            assert ix[k] == rest[k - 1] && f[k] == g[k - 1];
          }
        }
      } else {
        assert FilterIndices(s, p) == rest && Filter(s, p) == [] + g;
      }
    }
  }

  /** The kept positions strictly increase, so the kept elements keep their order. */
  lemma {:induction false} FilterIndicesIncrease<T>(s: seq<T>, p: T -> bool)
    ensures forall k :: 0 < k < |FilterIndices(s, p)| ==> FilterIndices(s, p)[k - 1] < FilterIndices(s, p)[k]
    decreases |s|
  {
    if s != [] {
      FilterIndicesIncrease(s[1..], p);
      var inner := FilterIndices(s[1..], p);
      var rest := Shift(inner);
      forall k | 0 < k < |rest| ensures rest[k - 1] < rest[k] {
        assert inner[k - 1] < inner[k];
      }
      if p(s[0]) {
        var ix := [0] + rest;
        forall k | 0 < k < |ix| ensures ix[k - 1] < ix[k] {
          assert ix[k] == rest[k - 1];
          if k > 1 { assert ix[k - 1] == rest[k - 2]; }
        }
      }
    }
  }

  /** A position is kept exactly when its element satisfies the condition. */
  lemma {:induction false} FilterIndicesExact<T>(s: seq<T>, p: T -> bool)
    ensures forall j :: 0 <= j < |s| ==> (p(s[j]) <==> j in FilterIndices(s, p))
    decreases |s|
  {
    if s != [] {
      FilterIndicesExact(s[1..], p);
      var inner := FilterIndices(s[1..], p);
      var rest := Shift(inner);
      forall j | 0 < j < |s| ensures p(s[j]) <==> j in rest {
        assert s[j] == s[1..][j - 1];
        if j - 1 in inner {
          var k :| 0 <= k < |inner| && inner[k] == j - 1;
          assert rest[k] == j;
        }
        if j in rest {
          var k :| 0 <= k < |rest| && rest[k] == j;
          assert inner[k] == j - 1;
        }
      }
      assert 0 !in rest;
      if p(s[0]) {
        assert FilterIndices(s, p) == [0] + rest;
      } else {
        assert FilterIndices(s, p) == rest;
      }
    }
  }

  /** The windows `s[start:min(start + size, len(s))]` for `start`, `start + step`,
      ... while `start < len(s)`. */
  function Windows<T>(s: seq<T>, size: nat, step: nat, start: nat): (ws: seq<seq<T>>)
    requires 0 < size && 0 < step
    ensures forall w :: w in ws ==> 0 < |w| <= size
    decreases |s| - start
  {
    if start >= |s| then []
    else [s[start..Min(start + size, |s|)]] + Windows(s, size, step, start + step)
  }

  /** One step of the loop: the window at `start`, then the windows from `start + step` on. */
  lemma WindowsUnfold<T>(s: seq<T>, size: nat, step: nat, start: nat)
    requires 0 < size && 0 < step && start < |s|
    ensures Windows(s, size, step, start) ==
      [s[start..Min(start + size, |s|)]] + Windows(s, size, step, start + step)
  {
  }

  /** Taking the next element off what remains extends the prefix done so far. */
  lemma PrefixStep<T>(all: seq<T>, done: seq<T>, x: T, rest: seq<T>)
    requires done + ([x] + rest) == all
    ensures (done + [x]) + rest == all
    ensures |done| + 1 <= |all| && all[..|done| + 1] == done + [x]
  {
    assert (done + [x]) + rest == done + ([x] + rest);
    assert all[..|done| + 1] == (done + [x] + rest)[..|done| + 1];
  }

  /** The loop runs `ceil((len(s) - start) / step)` times: the least `n` with
      `n * step >= len(s) - start`. */
  lemma {:induction false} WindowsCount<T>(s: seq<T>, size: nat, step: nat, start: nat)
    requires 0 < size && 0 < step
    ensures var n := |Windows(s, size, step, start)|;
      if start < |s| then (n - 1) * step < |s| - start <= n * step else n == 0
    decreases |s| - start
  {
    if start < |s| {
      var m := |Windows(s, size, step, start + step)|;
      WindowsCount(s, size, step, start + step);
      WindowsUnfold(s, size, step, start);
      CountStep(m, step, |s| - start);
    }
  }

  /** One more window covers `step` more elements. */
  lemma CountStep(m: nat, b: nat, r: int)
    requires 0 < b && 0 < r
    requires if b < r then (m - 1) * b < r - b <= m * b else m == 0
    ensures (m + 1 - 1) * b < r <= (m + 1) * b
  {
    assert (m + 1) * b == m * b + b;
    if b < r {
      assert (m - 1) * b == m * b - b;
    }
  }

  /** The k-th window starts at `start + k * step`. */
  lemma {:induction false} WindowAt<T>(s: seq<T>, size: nat, step: nat, start: nat, k: nat)
    requires 0 < size && 0 < step && k < |Windows(s, size, step, start)|
    ensures 0 <= k * step
    ensures start + k * step < |s|
    ensures Windows(s, size, step, start)[k] == s[start + k * step..Min(start + k * step + size, |s|)]
    decreases k
  {
    MulNonNegative(k, step);
    if k > 0 {
      WindowsUnfold(s, size, step, start);
      WindowAt(s, size, step, start + step, k - 1);
      StepOffset(start, step, k);
    }
  }

  lemma MulNonNegative(k: nat, step: nat)
    ensures 0 <= k * step
  {
  }

  lemma StepOffset(start: nat, step: nat, k: nat)
    requires k > 0
    ensures start + step + (k - 1) * step == start + k * step
  {
  }

  /** Every window is a slice `s[a..b]` of the sequence. */
  lemma WindowIsSlice<T>(s: seq<T>, size: nat, step: nat, start: nat, k: nat) returns (a: nat, b: nat)
    requires 0 < size && 0 < step && k < |Windows(s, size, step, start)|
    ensures a < b <= |s| && Windows(s, size, step, start)[k] == s[a..b]
  {
    WindowAt(s, size, step, start, k);
    a := start + k * step;
    b := Min(a + size, |s|);
  }

  /** A window starting at `start + k * step` exists for every k whose start
      lies inside `s`. */
  lemma {:induction false} WindowExists<T>(s: seq<T>, size: nat, step: nat, start: nat, k: nat)
    requires 0 < size && 0 < step && start + k * step < |s|
    ensures k < |Windows(s, size, step, start)|
    decreases k
  {
    if k > 0 {
      StepOffset(start, step, k);
      WindowExists(s, size, step, start + step, k - 1);
      WindowsUnfold(s, size, step, start);
    }
  }

  /** With `step <= size` (a non-negative overlap) every position from `start`
      on lies inside some window: window number `(j - start) / step`. */
  lemma WindowsCover<T>(s: seq<T>, size: nat, step: nat, start: nat, j: nat)
    requires 0 < step <= size && start <= j < |s|
    ensures var ws := Windows(s, size, step, start);
      var k := (j - start) / step;
      var first := start + k * step;
      k < |ws| && first <= j < first + |ws[k]| && ws[k][j - first] == s[j]
  {
    var k := (j - start) / step;
    var first := start + k * step;
    DivBounds(j - start, step);
    WindowExists(s, size, step, start, k);
    WindowAt(s, size, step, start, k);
    var end := Min(first + size, |s|);
    assert first <= j < end;
    assert s[first..end][j - first] == s[j];
  }

  /** When the step is at most the size, each window but the last ends with
      the start of the next one: the two share their `size - step` characters,
      or fewer only where the sequence runs out. */
  lemma ConsecutiveWindows<T>(s: seq<T>, size: nat, step: nat, start: nat, k: nat)
    requires 0 < step <= size && k + 1 < |Windows(s, size, step, start)|
    ensures var w := Windows(s, size, step, start)[k];
      var v := Windows(s, size, step, start)[k + 1];
      step <= |w| && |w| - step <= |v| && w[step..] == v[..|w| - step] &&
      (|v| >= size - step ==> |w| == size)
  {
    var ws := Windows(s, size, step, start);
    WindowAt(s, size, step, start, k);
    WindowAt(s, size, step, start, k + 1);
    StepOffset(start, step, k + 1);
    var p := start + k * step;
    var q := start + (k + 1) * step;
    assert q == p + step;
    var e := Min(p + size, |s|);
    var f := Min(q + size, |s|);
    assert ws[k] == s[p..e] && ws[k + 1] == s[q..f];
    SliceOfSlice(s, p, e, step, e - p);
    SliceOfSlice(s, q, f, 0, e - q);
  }

  lemma SliceOfSlice<T>(s: seq<T>, a: nat, b: nat, i: nat, j: nat)
    requires a <= b <= |s| && i <= j <= b - a
    ensures s[a..b][i..j] == s[a + i..a + j]
  {
    forall k | 0 <= k < j - i ensures s[a..b][i..j][k] == s[a + i..a + j][k] {
      assert s[a..b][i..j][k] == s[a..b][i + k];
    }
  }

  lemma DivBounds(a: nat, b: nat)
    requires 0 < b
    ensures (a / b) * b <= a < (a / b) * b + b
  {
  }

  function Flatten<T>(ss: seq<seq<T>>): seq<T> {
    if ss == [] then [] else ss[0] + Flatten(ss[1..])
  }

  /** With `step == size` the windows do not overlap: they partition `s[start..]`. */
  lemma {:induction false} WindowsPartition<T>(s: seq<T>, size: nat, start: nat)
    requires 0 < size && start <= |s|
    ensures Flatten(Windows(s, size, size, start)) == s[start..]
    decreases |s| - start
  {
    if start < |s| {
      var ws := Windows(s, size, size, start);
      var end := Min(start + size, |s|);
      WindowsPartition(s, size, end);
      if end < start + size {
        assert Windows(s, size, size, start + size) == [];
      }
      assert ws[1..] == Windows(s, size, size, start + size);
      assert s[start..] == s[start..end] + s[end..];
    }
  }
}
