/** Anagrams.sortWords, mergeSort and merge: a top-down merge sort of the signature
    array that moves a parallel array of original positions in lockstep.

    The two arrays are specified through a ghost view that pairs them position by
    position (Tagged). Merge and MergeSort are proved to compute the pure functions
    MergeRuns and MergeSorted on that view; the lemmas below prove those functions
    are stable sorts that only rearrange their input. */
module IndexedSorter {
  import opened JavaStrings

  /** A signature together with the position of its word in the unsorted array. */
  datatype Tagged = Tagged(sig: string, index: int)

  /** The parallel arrays `sigs` and `indexes`, read as one sequence of pairs. */
  ghost function Zip(sigs: seq<string>, indexes: seq<int>): (r: seq<Tagged>)
    requires |sigs| == |indexes|
    ensures |r| == |sigs|
  {
    seq(|sigs|, k requires 0 <= k < |sigs| => Tagged(sigs[k], indexes[k]))
  }

  /** Position k of the paired view pairs position k of both arrays. */
  lemma {:induction false} ZipAt(sigs: seq<string>, indexes: seq<int>)
    requires |sigs| == |indexes|
    ensures forall k :: 0 <= k < |sigs| ==> Zip(sigs, indexes)[k] == Tagged(sigs[k], indexes[k])
  {
  }

  /** 0, 1, ..., n-1: the indexes array as sortWords first fills it. */
  ghost function Identity(n: nat): (r: seq<int>)
    ensures |r| == n && forall k :: 0 <= k < n ==> r[k] == k
  {
    seq(n, k => k)
  }

  /** Merge of two runs that takes the head of the left run whenever its signature
      compares <= 0 to the head of the right run. */
  ghost function MergeRuns(xs: seq<Tagged>, ys: seq<Tagged>): (r: seq<Tagged>)
    ensures |r| == |xs| + |ys|
    decreases |xs| + |ys|
  {
    if |xs| == 0 then ys
    else if |ys| == 0 then xs
    else if Le(xs[0].sig, ys[0].sig) then [xs[0]] + MergeRuns(xs[1..], ys)
    else [ys[0]] + MergeRuns(xs, ys[1..])
  }

  /** Top-down merge sort; the left half holds the first (|s| + 1) / 2 elements,
      as `center = (left + right) / 2` splits the inclusive range left..right. */
  ghost function MergeSorted(s: seq<Tagged>): (r: seq<Tagged>)
    ensures |r| == |s|
    decreases |s|
  {
    if |s| <= 1 then s
    else MergeRuns(MergeSorted(s[..(|s| + 1) / 2]), MergeSorted(s[(|s| + 1) / 2..]))
  }

  /** What mergeSort does to the stretch lo..hi-1 of `s`: sort its first
      (hi - lo + 1) / 2 positions, then the rest, then merge the two runs. */
  ghost function SortRange(s: seq<Tagged>, lo: int, hi: int): (r: seq<Tagged>)
    requires 0 <= lo <= hi <= |s|
    ensures |r| == |s|
    decreases hi - lo
  {
    if hi - lo <= 1 then s
    else
      var mid := (lo + hi + 1) / 2;
      MergeRange(SortRange(SortRange(s, lo, mid), mid, hi), lo, mid, hi)
  }

  /** `s` with the runs lo..mid-1 and mid..hi-1 merged and the rest left alone. */
  ghost function MergeRange(s: seq<Tagged>, lo: int, mid: int, hi: int): (r: seq<Tagged>)
    requires 0 <= lo <= mid <= hi <= |s|
    ensures |r| == |s|
  {
    s[..lo] + MergeRuns(s[lo..mid], s[mid..hi]) + s[hi..]
  }

  /** Signatures non-decreasing under compareTo. */
  ghost predicate SigSorted(s: seq<Tagged>) {
    forall p, q :: 0 <= p < q < |s| ==> Le(s[p].sig, s[q].sig)
  }

  /** `x` comes strictly before `y` by signature, ties broken by original position. */
  ghost predicate Before(x: Tagged, y: Tagged) {
    CompareTo(x.sig, y.sig) < 0 || (x.sig == y.sig && x.index < y.index)
  }

  /** Strictly increasing by (signature, original position): sorted and stable. */
  ghost predicate Ordered(s: seq<Tagged>) {
    forall p, q :: 0 <= p < q < |s| ==> Before(s[p], s[q])
  }

  /** Original positions strictly increasing, as in an unsorted stretch of the arrays. */
  ghost predicate IndexAscending(s: seq<Tagged>) {
    forall p, q :: 0 <= p < q < |s| ==> s[p].index < s[q].index
  }

  /** Every original position in `xs` is smaller than every one in `ys`. */
  ghost predicate IndexesBelow(xs: seq<Tagged>, ys: seq<Tagged>) {
    forall x, y :: x in xs && y in ys ==> x.index < y.index
  }

  lemma {:induction false} BeforeTransitive(x: Tagged, y: Tagged, z: Tagged)
    requires Before(x, y) && Before(y, z)
    ensures Before(x, z)
  {
    if CompareTo(x.sig, y.sig) < 0 || CompareTo(y.sig, z.sig) < 0 {
      LtTransitive(x.sig, y.sig, z.sig);
    }
  }

  /** A sorted sequence is also sorted by signature alone. */
  lemma {:induction false} OrderedIsSigSorted(s: seq<Tagged>)
    requires Ordered(s)
    ensures SigSorted(s)
  {
    forall p, q | 0 <= p < q < |s| ensures Le(s[p].sig, s[q].sig) {
      LeReflexive(s[p].sig);
    }
  }

  /** Appending two pieces one after the other appends their concatenation. */
  lemma {:induction false} AppendTwice<T>(a: seq<T>, b: seq<T>, c: seq<T>)
    ensures a + b + c == a + (b + c)
  {
  }

  /** Putting the head of `a` in front of a rearrangement of the rest of `a`
      and of `b` gives a rearrangement of `a` and `b`. */
  lemma {:induction false} MultisetCons<T>(t: seq<T>, a: seq<T>, b: seq<T>)
    requires a != [] && multiset(t) == multiset(a[1..]) + multiset(b)
    ensures multiset([a[0]] + t) == multiset(a) + multiset(b)
  {
    assert a == [a[0]] + a[1..];
  }

  /** Rearranging both halves of `s` and gathering the results rearranges `s`. */
  lemma {:induction false} MultisetSplit<T>(s: seq<T>, m: nat, lo: seq<T>, hi: seq<T>, r: seq<T>)
    requires m <= |s|
    requires multiset(lo) == multiset(s[..m]) && multiset(hi) == multiset(s[m..])
    requires multiset(r) == multiset(lo) + multiset(hi)
    ensures multiset(r) == multiset(s)
  {
    assert s == s[..m] + s[m..];
  }

  /** Merging keeps every element of both runs, and nothing else. */
  lemma {:induction false} MergeRunsPermutes(xs: seq<Tagged>, ys: seq<Tagged>)
    ensures multiset(MergeRuns(xs, ys)) == multiset(xs) + multiset(ys)
    decreases |xs| + |ys|
  {
    if xs != [] && ys != [] {
      if Le(xs[0].sig, ys[0].sig) {
        MergeRunsPermutes(xs[1..], ys);
        MultisetCons(MergeRuns(xs[1..], ys), xs, ys);
      } else {
        MergeRunsPermutes(xs, ys[1..]);
        MultisetCons(MergeRuns(xs, ys[1..]), ys, xs);
      }
    }
  }

  /** An element below every element of `t` can go in front of a sorted `t`. */
  lemma {:induction false} ConsOrdered(x: Tagged, t: seq<Tagged>)
    requires Ordered(t)
    requires forall y :: y in t ==> Before(x, y)
    ensures Ordered([x] + t)
  {
    var r := [x] + t;
    forall p, q | 0 <= p < q < |r| ensures Before(r[p], r[q]) {
      if p > 0 {
        assert r[p] == t[p - 1] && r[q] == t[q - 1];
      } else {
        assert r[q] in t;
      }
    }
  }

  /** Same, for signature order alone. */
  lemma {:induction false} ConsSigSorted(x: Tagged, t: seq<Tagged>)
    requires SigSorted(t)
    requires forall y :: y in t ==> Le(x.sig, y.sig)
    ensures SigSorted([x] + t)
  {
    var r := [x] + t;
    forall p, q | 0 <= p < q < |r| ensures Le(r[p].sig, r[q].sig) {
      if p > 0 {
        assert r[p] == t[p - 1] && r[q] == t[q - 1];
      } else {
        assert r[q] in t;
      }
    }
  }

  lemma {:induction false} OrderedTail(s: seq<Tagged>)
    requires s != [] && Ordered(s)
    ensures Ordered(s[1..])
    ensures forall y :: y in s[1..] ==> Before(s[0], y)
  {
    forall p, q | 0 <= p < q < |s| - 1 ensures Before(s[1..][p], s[1..][q]) {
      assert s[1..][p] == s[p + 1] && s[1..][q] == s[q + 1];
    }
    forall y | y in s[1..] ensures Before(s[0], y) {
      var k :| 0 <= k < |s| - 1 && s[1..][k] == y;
      assert s[k + 1] == y;
    }
  }

  lemma {:induction false} SigSortedTail(s: seq<Tagged>)
    requires s != [] && SigSorted(s)
    ensures SigSorted(s[1..])
    ensures forall y :: y in s[1..] ==> Le(s[0].sig, y.sig)
  {
    forall p, q | 0 <= p < q < |s| - 1 ensures Le(s[1..][p].sig, s[1..][q].sig) {
      assert s[1..][p] == s[p + 1] && s[1..][q] == s[q + 1];
    }
    forall y | y in s[1..] ensures Le(s[0].sig, y.sig) {
      var k :| 0 <= k < |s| - 1 && s[1..][k] == y;
      assert s[k + 1] == y;
    }
  }

  /** Every element of a merge comes from one of the two runs. */
  lemma {:induction false} MergeRunsMembers(xs: seq<Tagged>, ys: seq<Tagged>)
    ensures forall y :: y in MergeRuns(xs, ys) ==> y in xs || y in ys
    decreases |xs| + |ys|
  {
    if |xs| != 0 && |ys| != 0 {
      if Le(xs[0].sig, ys[0].sig) {
        MergeRunsMembers(xs[1..], ys);
        assert MergeRuns(xs, ys) == [xs[0]] + MergeRuns(xs[1..], ys);
        assert forall y :: y in xs[1..] ==> y in xs;
      } else {
        MergeRunsMembers(xs, ys[1..]);
        assert MergeRuns(xs, ys) == [ys[0]] + MergeRuns(xs, ys[1..]);
        assert forall y :: y in ys[1..] ==> y in ys;
      }
    }
  }

  /** Every element of a merge sort comes from its input. */
  lemma {:induction false} MergeSortedMembers(s: seq<Tagged>)
    ensures forall y :: y in MergeSorted(s) ==> y in s
    decreases |s|
  {
    if |s| > 1 {
      var m := (|s| + 1) / 2;
      MergeSortedMembers(s[..m]);
      MergeSortedMembers(s[m..]);
      MergeRunsMembers(MergeSorted(s[..m]), MergeSorted(s[m..]));
      assert forall y :: y in s[..m] ==> y in s;
      assert forall y :: y in s[m..] ==> y in s;
    }
  }

  /** Merging two runs sorted by signature gives a run sorted by signature. */
  lemma {:induction false} MergeRunsSorted(xs: seq<Tagged>, ys: seq<Tagged>)
    requires SigSorted(xs) && SigSorted(ys)
    ensures SigSorted(MergeRuns(xs, ys))
    decreases |xs| + |ys|
  {
    if xs != [] && ys != [] {
      SigSortedTail(xs);
      SigSortedTail(ys);
      if Le(xs[0].sig, ys[0].sig) {
        MergeRunsSorted(xs[1..], ys);
        MergeRunsMembers(xs[1..], ys);
        var m := MergeRuns(xs[1..], ys);
        forall y | y in m ensures Le(xs[0].sig, y.sig) {
          if y in ys && y != ys[0] {
            LeTransitive(xs[0].sig, ys[0].sig, y.sig);
          }
        }
        ConsSigSorted(xs[0], m);
      } else {
        MergeRunsSorted(xs, ys[1..]);
        MergeRunsMembers(xs, ys[1..]);
        LeTotal(xs[0].sig, ys[0].sig);
        var m := MergeRuns(xs, ys[1..]);
        forall y | y in m ensures Le(ys[0].sig, y.sig) {
          if y in xs && y != xs[0] {
            LeTransitive(ys[0].sig, xs[0].sig, y.sig);
          }
        }
        ConsSigSorted(ys[0], m);
      }
    }
  }

  /** Stability of the merge: when every original position in the left run is
      below every one in the right run, taking the left head on ties keeps the
      result ordered by (signature, original position). */
  lemma {:induction false} MergeRunsOrdered(xs: seq<Tagged>, ys: seq<Tagged>)
    requires Ordered(xs) && Ordered(ys)
    requires IndexesBelow(xs, ys)
    ensures Ordered(MergeRuns(xs, ys))
    decreases |xs| + |ys|
  {
    if xs != [] && ys != [] {
      OrderedTail(xs);
      OrderedTail(ys);
      if Le(xs[0].sig, ys[0].sig) {
        assert Before(xs[0], ys[0]) by {
          assert xs[0] in xs && ys[0] in ys;
        }
        MergeRunsOrdered(xs[1..], ys);
        MergeRunsMembers(xs[1..], ys);
        var m := MergeRuns(xs[1..], ys);
        forall y | y in m ensures Before(xs[0], y) {
          if y in ys && y != ys[0] {
            BeforeTransitive(xs[0], ys[0], y);
          }
        }
        ConsOrdered(xs[0], m);
      } else {
        LeTotal(xs[0].sig, ys[0].sig);
        assert Before(ys[0], xs[0]);
        MergeRunsOrdered(xs, ys[1..]);
        MergeRunsMembers(xs, ys[1..]);
        var m := MergeRuns(xs, ys[1..]);
        forall y | y in m ensures Before(ys[0], y) {
          if y in xs && y != xs[0] {
            BeforeTransitive(ys[0], xs[0], y);
          }
        }
        ConsOrdered(ys[0], m);
      }
    }
  }

  /** The merge takes the head of the left run in state (i, j), with i elements
      of `xs` and j of `ys` already taken, when the left run still has one and the
      right run has none or a head the left head compares <= 0 to. */
  ghost predicate TakesLeft(xs: seq<Tagged>, ys: seq<Tagged>, i: nat, j: nat)
    requires i <= |xs| && j <= |ys|
  {
    i < |xs| && (j == |ys| || Le(xs[i].sig, ys[j].sig))
  }

  /** The merge of `xs` and `ys`, run step by step from the heads of both runs,
      reaches state (i, j) having produced `out`. */
  ghost predicate Reached(xs: seq<Tagged>, ys: seq<Tagged>, i: nat, j: nat, out: seq<Tagged>)
    decreases i + j
  {
    && i <= |xs| && j <= |ys| && |out| == i + j
    && (|| i + j == 0
        || (&& i > 0 && TakesLeft(xs, ys, i - 1, j) && out[i + j - 1] == xs[i - 1]
            && Reached(xs, ys, i - 1, j, out[..i + j - 1]))
        || (&& j > 0 && !TakesLeft(xs, ys, i, j - 1) && out[i + j - 1] == ys[j - 1]
            && Reached(xs, ys, i, j - 1, out[..i + j - 1])))
  }

  /** The step that takes the head of the left run. */
  lemma {:induction false} ReachLeft(xs: seq<Tagged>, ys: seq<Tagged>, i: nat, j: nat, out: seq<Tagged>)
    requires Reached(xs, ys, i, j, out) && TakesLeft(xs, ys, i, j)
    ensures Reached(xs, ys, i + 1, j, out + [xs[i]])
  {
    assert (out + [xs[i]])[..i + j] == out;
  }

  /** The step that takes the head of the right run. */
  lemma {:induction false} ReachRight(xs: seq<Tagged>, ys: seq<Tagged>, i: nat, j: nat, out: seq<Tagged>)
    requires Reached(xs, ys, i, j, out) && j < |ys| && !TakesLeft(xs, ys, i, j)
    ensures Reached(xs, ys, i, j + 1, out + [ys[j]])
  {
    assert (out + [ys[j]])[..i + j] == out;
  }

  /** MergeRuns starts with the head of the left run when the merge takes it. */
  lemma {:induction false} MergeRunsLeft(xs: seq<Tagged>, ys: seq<Tagged>)
    requires |xs| > 0 && (|ys| == 0 || Le(xs[0].sig, ys[0].sig))
    ensures MergeRuns(xs, ys) == [xs[0]] + MergeRuns(xs[1..], ys)
  {
    if |ys| == 0 {
      assert MergeRuns(xs[1..], ys) == xs[1..];
      assert xs == [xs[0]] + xs[1..];
    }
  }

  /** MergeRuns starts with the head of the right run when the merge takes it. */
  lemma {:induction false} MergeRunsRight(xs: seq<Tagged>, ys: seq<Tagged>)
    requires |ys| > 0 && (|xs| == 0 || !Le(xs[0].sig, ys[0].sig))
    ensures MergeRuns(xs, ys) == [ys[0]] + MergeRuns(xs, ys[1..])
  {
    if |xs| == 0 {
      assert MergeRuns(xs, ys[1..]) == ys[1..];
      assert ys == [ys[0]] + ys[1..];
    }
  }

  /** A sequence is its prefix without the last element, then that element. */
  lemma {:induction false} SplitLast<T>(s: seq<T>)
    requires |s| > 0
    ensures s == s[..|s| - 1] + [s[|s| - 1]]
  {
  }

  /** A step into state (i, j) that took the head of the left run keeps what has
      been produced, followed by the merge of the rest, equal to the whole merge. */
  lemma {:induction false} StepLeft(xs: seq<Tagged>, ys: seq<Tagged>, i: nat, j: nat, prev: seq<Tagged>)
    requires 0 < i <= |xs| && j <= |ys| && TakesLeft(xs, ys, i - 1, j)
    requires prev + MergeRuns(xs[i - 1..], ys[j..]) == MergeRuns(xs, ys)
    ensures (prev + [xs[i - 1]]) + MergeRuns(xs[i..], ys[j..]) == MergeRuns(xs, ys)
  {
    assert xs[i - 1..][0] == xs[i - 1] && xs[i - 1..][1..] == xs[i..];
    assert j < |ys| ==> ys[j..][0] == ys[j];
    MergeRunsLeft(xs[i - 1..], ys[j..]);
    AppendTwice(prev, [xs[i - 1]], MergeRuns(xs[i..], ys[j..]));
  }

  /** The same for a step into state (i, j) that took the head of the right run. */
  lemma {:induction false} StepRight(xs: seq<Tagged>, ys: seq<Tagged>, i: nat, j: nat, prev: seq<Tagged>)
    requires i <= |xs| && 0 < j <= |ys| && !TakesLeft(xs, ys, i, j - 1)
    requires prev + MergeRuns(xs[i..], ys[j - 1..]) == MergeRuns(xs, ys)
    ensures (prev + [ys[j - 1]]) + MergeRuns(xs[i..], ys[j..]) == MergeRuns(xs, ys)
  {
    assert ys[j - 1..][0] == ys[j - 1] && ys[j - 1..][1..] == ys[j..];
    assert i < |xs| ==> xs[i..][0] == xs[i];
    MergeRunsRight(xs[i..], ys[j - 1..]);
    AppendTwice(prev, [ys[j - 1]], MergeRuns(xs[i..], ys[j..]));
  }

  /** Whatever state the step-by-step merge reaches, what it has produced
      followed by the merge of what is left of both runs is the whole merge. */
  lemma {:induction false} ReachedMerge(xs: seq<Tagged>, ys: seq<Tagged>, i: nat, j: nat, out: seq<Tagged>)
    requires Reached(xs, ys, i, j, out)
    ensures out + MergeRuns(xs[i..], ys[j..]) == MergeRuns(xs, ys)
    decreases i + j
  {
    if i + j == 0 {
      assert out == [] && xs[i..] == xs && ys[j..] == ys;
    } else {
      var prev := out[..i + j - 1];
      SplitLast(out);
      if i > 0 && TakesLeft(xs, ys, i - 1, j) && out[i + j - 1] == xs[i - 1] && Reached(xs, ys, i - 1, j, prev) {
        ReachedMerge(xs, ys, i - 1, j, prev);
        StepLeft(xs, ys, i, j, prev);
      } else {
        ReachedMerge(xs, ys, i, j - 1, prev);
        StepRight(xs, ys, i, j, prev);
      }
    }
  }

  /** Merge sort only rearranges its input. */
  lemma {:induction false} MergeSortedPermutes(s: seq<Tagged>)
    ensures multiset(MergeSorted(s)) == multiset(s)
    decreases |s|
  {
    if |s| > 1 {
      var m := (|s| + 1) / 2;
      var lo, hi := s[..m], s[m..];
      MergeSortedPermutes(lo);
      MergeSortedPermutes(hi);
      var slo, shi := MergeSorted(lo), MergeSorted(hi);
      MergeRunsPermutes(slo, shi);
      var r := MergeSorted(s);
      assert r == MergeRuns(slo, shi);
      MultisetSplit(s, m, slo, shi, r);
    }
  }

  /** Merge sort leaves the signatures non-decreasing, whatever the input. */
  lemma {:induction false} MergeSortedIsSorted(s: seq<Tagged>)
    ensures SigSorted(MergeSorted(s))
    decreases |s|
  {
    if |s| > 1 {
      var m := (|s| + 1) / 2;
      MergeSortedIsSorted(s[..m]);
      MergeSortedIsSorted(s[m..]);
      MergeRunsSorted(MergeSorted(s[..m]), MergeSorted(s[m..]));
    }
  }

  /** A prefix of pairs whose original positions increase has increasing positions. */
  lemma {:induction false} IndexAscendingPrefix(s: seq<Tagged>, m: nat)
    requires IndexAscending(s) && m <= |s|
    ensures IndexAscending(s[..m])
  {
    var lo := s[..m];
    forall p, q | 0 <= p < q < |lo| ensures lo[p].index < lo[q].index {
      assert lo[p] == s[p] && lo[q] == s[q];
    }
  }

  /** A suffix of pairs whose original positions increase has increasing positions. */
  lemma {:induction false} IndexAscendingSuffix(s: seq<Tagged>, m: nat)
    requires IndexAscending(s) && m <= |s|
    ensures IndexAscending(s[m..])
  {
    var hi := s[m..];
    forall p, q | 0 <= p < q < |hi| ensures hi[p].index < hi[q].index {
      assert hi[p] == s[m + p] && hi[q] == s[m + q];
    }
  }

  /** Splitting pairs whose original positions increase puts every position of
      the first part below every position of the second. */
  lemma {:induction false} IndexesBelowHalves(s: seq<Tagged>, m: nat)
    requires IndexAscending(s) && m <= |s|
    ensures IndexesBelow(s[..m], s[m..])
  {
    var lo, hi := s[..m], s[m..];
    forall x, y | x in lo && y in hi ensures x.index < y.index {
      var i :| 0 <= i < |lo| && lo[i] == x;
      var j :| 0 <= j < |hi| && hi[j] == y;
      assert s[i] == x && s[m + j] == y;
    }
  }

  /** Merge sort keeps two runs' elements, so it keeps one run's positions below
      the other's. */
  lemma {:induction false} IndexesBelowSorted(lo: seq<Tagged>, hi: seq<Tagged>)
    requires IndexesBelow(lo, hi)
    ensures IndexesBelow(MergeSorted(lo), MergeSorted(hi))
  {
    MergeSortedMembers(lo);
    MergeSortedMembers(hi);
  }

  /** Merge sort is stable: applied to pairs whose original positions increase,
      it orders them by signature and, among equal signatures, by position. */
  lemma {:induction false} MergeSortedIsStable(s: seq<Tagged>)
    requires IndexAscending(s)
    ensures Ordered(MergeSorted(s))
    decreases |s|
  {
    if |s| > 1 {
      var m := (|s| + 1) / 2;
      IndexAscendingPrefix(s, m);
      IndexAscendingSuffix(s, m);
      IndexesBelowHalves(s, m);
      MergeSortedIsStable(s[..m]);
      MergeSortedIsStable(s[m..]);
      IndexesBelowSorted(s[..m], s[m..]);
      MergeRunsOrdered(MergeSorted(s[..m]), MergeSorted(s[m..]));
    }
  }

  /** What sortWords delivers, on the ghost view: starting from the signatures
      paired with the identity permutation, the result is ordered by (signature,
      original position), each pair holds the signature found at its original
      position, and every original position occurs. */
  lemma {:induction false} SortedIdentity(orig: seq<string>)
    ensures var r := MergeSorted(Zip(orig, Identity(|orig|)));
      && |r| == |orig|
      && Ordered(r)
      && (forall p :: 0 <= p < |r| ==> 0 <= r[p].index < |orig| && r[p].sig == orig[r[p].index])
      && (forall k :: 0 <= k < |orig| ==> Tagged(orig[k], k) in r)
  {
    var s := Zip(orig, Identity(|orig|));
    ZipAt(orig, Identity(|orig|));
    MergeSortedIsStable(s);
    MergeSortedMembers(s);
    MergeSortedPermutes(s);
    var r := MergeSorted(s);
    forall p | 0 <= p < |r| ensures 0 <= r[p].index < |orig| && r[p].sig == orig[r[p].index] {
      assert r[p] in s;
    }
    forall k | 0 <= k < |orig| ensures Tagged(orig[k], k) in r {
      assert s[k] in multiset(r);
    }
  }

  /** The result of sortWords: `sorted` is `orig` rearranged by `indexes`, a
      permutation of 0..n-1, into non-decreasing compareTo order, and equal
      signatures keep their original relative order. */
  ghost predicate StablySorted(orig: seq<string>, sorted: seq<string>, indexes: seq<int>) {
    && |sorted| == |orig| && |indexes| == |orig|
    && (forall p :: 0 <= p < |indexes| ==> 0 <= indexes[p] < |orig| && sorted[p] == orig[indexes[p]])
    && (forall k :: 0 <= k < |orig| ==> k in indexes)
    && (forall p, q :: 0 <= p < q < |indexes| ==> indexes[p] != indexes[q])
    && Sorted(sorted)
    && (forall p, q :: 0 <= p < q < |sorted| && sorted[p] == sorted[q] ==> indexes[p] < indexes[q])
  }

  /** Read through the pairs, an ordered sequence of pairs whose signatures are
      those at their positions in `orig` sorts the signatures, keeps equal
      signatures in increasing order of position, and repeats no position. */
  lemma {:induction false} OrderedView(orig: seq<string>, r: seq<Tagged>, sorted: seq<string>, indexes: seq<int>)
    requires |r| == |sorted| == |indexes| && Ordered(r)
    requires forall p :: 0 <= p < |r| ==> r[p] == Tagged(sorted[p], indexes[p])
    requires forall p :: 0 <= p < |r| ==> 0 <= indexes[p] < |orig| && sorted[p] == orig[indexes[p]]
    ensures Sorted(sorted)
    ensures forall p, q :: 0 <= p < q < |indexes| ==> indexes[p] != indexes[q]
    ensures forall p, q :: 0 <= p < q < |sorted| && sorted[p] == sorted[q] ==> indexes[p] < indexes[q]
  {
    forall p, q | 0 <= p < q < |sorted| ensures Le(sorted[p], sorted[q]) && indexes[p] != indexes[q]
      && (sorted[p] == sorted[q] ==> indexes[p] < indexes[q])
    {
      assert Before(r[p], r[q]);
      LeReflexive(sorted[p]);
    }
  }

  /** Every position whose pair occurs in `r` occurs in the index view. */
  lemma {:induction false} IndexesCover(orig: seq<string>, r: seq<Tagged>, indexes: seq<int>)
    requires |r| == |indexes|
    requires forall p :: 0 <= p < |r| ==> r[p].index == indexes[p]
    requires forall k :: 0 <= k < |orig| ==> Tagged(orig[k], k) in r
    ensures forall k :: 0 <= k < |orig| ==> k in indexes
  {
    forall k | 0 <= k < |orig| ensures k in indexes {
      var p :| 0 <= p < |r| && r[p] == Tagged(orig[k], k);
      assert indexes[p] == k;
    }
  }

  /** The sorted view of the identity pairing is a stable sort of the signatures. */
  lemma {:induction false} SortedViewIsStable(orig: seq<string>, sorted: seq<string>, indexes: seq<int>)
    requires |sorted| == |indexes|
    requires Zip(sorted, indexes) == MergeSorted(Zip(orig, Identity(|orig|)))
    ensures StablySorted(orig, sorted, indexes)
  {
    SortedIdentity(orig);
    var r := Zip(sorted, indexes);
    ZipAt(sorted, indexes);
    OrderedView(orig, r, sorted, indexes);
    IndexesCover(orig, r, indexes);
  }

  /** Once one run is used up, the merge is the rest of the other run. */
  lemma {:induction false} MergeRunsExhausted(xs: seq<Tagged>, ys: seq<Tagged>)
    requires |xs| == 0 || |ys| == 0
    ensures MergeRuns(xs, ys) == xs + ys
  {
    if |xs| == 0 {
      assert xs + ys == ys;
    } else {
      assert xs + ys == xs;
    }
  }

  /** One step of a copying loop: appending the next element of `run`. */
  lemma {:induction false} SnocSlice<T>(out: seq<T>, base: seq<T>, run: seq<T>, c: nat, f: nat)
    requires c <= f < |run| && out == base + run[c..f]
    ensures out + [run[f]] == base + run[c..f + 1]
  {
    assert run[c..f + 1] == run[c..f] + [run[f]];
  }

  /** The three phases of the merge loop together produce the whole merge: the
      heads taken until one run is used up, then the rest of the left run, then
      the rest of the right run. */
  lemma {:induction false} MergeAssembled(xs: seq<Tagged>, ys: seq<Tagged>, i: nat, j: nat,
                       heads: seq<Tagged>, withLeft: seq<Tagged>, merged: seq<Tagged>)
    requires i <= |xs| && j <= |ys| && (i == |xs| || j == |ys|)
    requires heads + MergeRuns(xs[i..], ys[j..]) == MergeRuns(xs, ys)
    requires withLeft == heads + xs[i..] && merged == withLeft + ys[j..]
    ensures merged == MergeRuns(xs, ys)
  {
    MergeRunsExhausted(xs[i..], ys[j..]);
    assert merged == heads + (xs[i..] + ys[j..]);
  }

  /** The unfolding of MergeSorted at the split point used by mergeSort. */
  lemma {:induction false} MergeSortedSplit(s: seq<Tagged>, m: nat, low: seq<Tagged>, high: seq<Tagged>)
    requires |s| > 1 && m == (|s| + 1) / 2
    requires low == s[..m] && high == s[m..]
    ensures MergeSorted(s) == MergeRuns(MergeSorted(low), MergeSorted(high))
  {
  }

  /** The two halves of a slice, as slices of the whole. */
  lemma {:induction false} SliceHalves<T>(s: seq<T>, lo: int, mid: int, hi: int)
    requires 0 <= lo <= mid <= hi <= |s|
    ensures s[lo..hi][..mid - lo] == s[lo..mid] && s[lo..hi][mid - lo..] == s[mid..hi]
  {
  }

  /** The split point of lo..hi-1, counted from lo, is where MergeSorted splits it. */
  lemma {:induction false} HalfOffset(lo: int, mid: int, hi: int, n: int)
    requires mid == (lo + hi + 1) / 2 && n == hi - lo
    ensures mid - lo == (n + 1) / 2
  {
  }

  /** MergeSorted of a stretch merges the sorted halves mergeSort splits it into. */
  lemma {:induction false} MergeSortedHalves(s: seq<Tagged>, lo: int, mid: int, hi: int)
    requires 0 <= lo < mid < hi <= |s| && mid == (lo + hi + 1) / 2
    ensures MergeSorted(s[lo..hi]) == MergeRuns(MergeSorted(s[lo..mid]), MergeSorted(s[mid..hi]))
  {
    var t := s[lo..hi];
    HalfOffset(lo, mid, hi, |t|);
    SliceHalves(s, lo, mid, hi);
    MergeSortedSplit(t, mid - lo, s[lo..mid], s[mid..hi]);
  }

  /** A sequence that agrees with `s` outside lo..hi-1 and with `mid` inside. */
  lemma {:induction false} Splice(z: seq<Tagged>, s: seq<Tagged>, mid: seq<Tagged>, lo: int, hi: int)
    requires |z| == |s| && 0 <= lo <= hi <= |s| && |mid| == hi - lo
    requires forall t :: 0 <= t < |z| && !(lo <= t < hi) ==> z[t] == s[t]
    requires forall t :: lo <= t < hi ==> z[t] == mid[t - lo]
    ensures z == s[..lo] + mid + s[hi..]
  {
  }

  /** Replacing the stretch lo..mid-1 by `low`, then mid..hi-1 by `high`, then
      lo..hi-1 by `m` amounts to replacing lo..hi-1 of the original by `m`; the
      intermediate sequence holds `low` and `high` side by side in lo..hi-1. */
  lemma {:induction false} SpliceSteps<T>(s: seq<T>, s1: seq<T>, s2: seq<T>, s3: seq<T>, lo: int, mid: int, hi: int,
                       low: seq<T>, high: seq<T>, m: seq<T>)
    requires 0 <= lo <= mid <= hi <= |s| && |low| == mid - lo && |high| == hi - mid
    requires s1 == s[..lo] + low + s[mid..]
    requires s2 == s1[..mid] + high + s1[hi..]
    requires s3 == s2[..lo] + m + s2[hi..]
    ensures s1[mid..hi] == s[mid..hi]
    ensures s2[lo..mid] == low && s2[mid..hi] == high
    ensures s3 == s[..lo] + m + s[hi..]
  {
    assert s1[..mid] == s[..lo] + low;
    assert s1[hi..] == s[hi..];
    assert s2[..lo] == s1[..lo] == s[..lo];
    assert s2[lo..mid] == s1[lo..mid] == low;
    assert s2[hi..] == s[hi..];
  }

  /** SortRange merge sorts the stretch lo..hi-1 and leaves the rest alone. */
  lemma {:induction false} SortRangeSorts(s: seq<Tagged>, lo: int, hi: int)
    requires 0 <= lo <= hi <= |s|
    ensures SortRange(s, lo, hi) == s[..lo] + MergeSorted(s[lo..hi]) + s[hi..]
    decreases hi - lo
  {
    if hi - lo <= 1 {
      assert s[..lo] + s[lo..hi] + s[hi..] == s;
    } else {
      var mid := (lo + hi + 1) / 2;
      var s1 := SortRange(s, lo, mid);
      var s2 := SortRange(s1, mid, hi);
      SortRangeSorts(s, lo, mid);
      SortRangeSorts(s1, mid, hi);
      SpliceSteps(s, s1, s2, SortRange(s, lo, hi), lo, mid, hi, MergeSorted(s[lo..mid]), MergeSorted(s1[mid..hi]),
                  MergeRuns(s2[lo..mid], s2[mid..hi]));
      MergeSortedHalves(s, lo, mid, hi);
    }
  }

  /** Sorting the whole sequence is MergeSorted. */
  lemma {:induction false} SortRangeWhole(s: seq<Tagged>)
    ensures SortRange(s, 0, |s|) == MergeSorted(s)
  {
    SortRangeSorts(s, 0, |s|);
    assert s[..0] == [] && s[0..|s|] == s && s[|s|..] == [];
  }

  /** The four arrays merge works on: the signatures, the positions, and a
      scratch array of the same length for each. */
  predicate Buffers(words: array<string>, wordsTmp: array<string>, indexes: array<int>, indexesTmp: array<int>) {
    && words != wordsTmp && indexes != indexesTmp
    && wordsTmp.Length == words.Length && indexes.Length == words.Length && indexesTmp.Length == words.Length
  }

  /** The step every copy loop of Anagrams.merge repeats: put a word and its
      index at scratch position k, right after the pairs `out` held there from
      position left on. */
  method Put(wordsTmp: array<string>, indexesTmp: array<int>, k: int, word: string, index: int,
             ghost left: int, ghost out: seq<Tagged>)
    returns (ghost out': seq<Tagged>)
    requires 0 <= left <= k == left + |out| && k < wordsTmp.Length && k < indexesTmp.Length
    requires forall t :: left <= t < k ==> wordsTmp[t] == out[t - left].sig && indexesTmp[t] == out[t - left].index
    modifies wordsTmp, indexesTmp
    ensures out' == out + [Tagged(word, index)]
    ensures forall t :: left <= t <= k ==> wordsTmp[t] == out'[t - left].sig && indexesTmp[t] == out'[t - left].index
  {
    wordsTmp[k] := word;
    indexesTmp[k] := index;
    out' := out + [Tagged(word, index)];
  }

  /** One pass of the first loop of Anagrams.merge: copy the head of the left
      run (position l) if its signature compares <= 0 to the head of the right
      run (position r), else the head of the right run, to scratch position k.
      `xs` and `ys` are the two runs read as pairs and `out` what the scratch
      arrays hold from left on; the pass takes the merge one step further. */
  method MergeStep(words: array<string>, indexes: array<int>, wordsTmp: array<string>, indexesTmp: array<int>,
                   left: int, right: int, rightEnd: int, l: int, r: int, k: int,
                   ghost xs: seq<Tagged>, ghost ys: seq<Tagged>, ghost out: seq<Tagged>)
    returns (l': int, r': int, k': int, ghost out': seq<Tagged>)
    requires words != wordsTmp && indexes != indexesTmp
    requires wordsTmp.Length == words.Length && indexes.Length == words.Length
    requires indexesTmp.Length == words.Length
    requires 0 <= left <= l < right <= r <= rightEnd < words.Length
    requires |xs| == right - left && |ys| == rightEnd + 1 - right
    requires forall t :: left <= t < right ==> xs[t - left] == Tagged(words[t], indexes[t])
    requires forall t :: right <= t <= rightEnd ==> ys[t - right] == Tagged(words[t], indexes[t])
    requires k == left + (l - left) + (r - right)
    requires Reached(xs, ys, l - left, r - right, out) && |out| == k - left
    requires forall t :: left <= t < k ==> wordsTmp[t] == out[t - left].sig && indexesTmp[t] == out[t - left].index
    modifies wordsTmp, indexesTmp
    ensures (l' == l + 1 && r' == r) || (l' == l && r' == r + 1)
    ensures k' == k + 1
    ensures Reached(xs, ys, l' - left, r' - right, out') && |out'| == k' - left
    ensures forall t :: left <= t < k' ==> wordsTmp[t] == out'[t - left].sig && indexesTmp[t] == out'[t - left].index
  {
    ghost var a, b := l - left, r - right;
    assert xs[a] == Tagged(words[l], indexes[l]);
    assert ys[b] == Tagged(words[r], indexes[r]);
    if CompareTo(words[l], words[r]) <= 0 {
      ReachLeft(xs, ys, a, b, out);
      out' := Put(wordsTmp, indexesTmp, k, words[l], indexes[l], left, out);
      l', r', k' := l + 1, r, k + 1;
    } else {
      ReachRight(xs, ys, a, b, out);
      out' := Put(wordsTmp, indexesTmp, k, words[r], indexes[r], left, out);
      l', r', k' := l, r + 1, k + 1;
    }
  }

  /** The first loop of Anagrams.merge: while both runs have elements, copy the
      smaller head, the left one on ties, into the scratch arrays from position
      left on. `xs` and `ys` are the two runs read as pairs; `out` is what has
      been copied, read as pairs, and is followed by the merge of what is left
      of the runs. */
  method MergeHeads(words: array<string>, indexes: array<int>, wordsTmp: array<string>, indexesTmp: array<int>,
                    left: int, right: int, rightEnd: int, ghost xs: seq<Tagged>, ghost ys: seq<Tagged>)
    returns (l: int, r: int, k: int, ghost out: seq<Tagged>)
    requires words != wordsTmp && indexes != indexesTmp
    requires wordsTmp.Length == words.Length && indexes.Length == words.Length
    requires indexesTmp.Length == words.Length
    requires 0 <= left <= right <= rightEnd + 1 <= words.Length
    requires |xs| == right - left && |ys| == rightEnd + 1 - right
    requires forall t :: left <= t < right ==> xs[t - left] == Tagged(words[t], indexes[t])
    requires forall t :: right <= t <= rightEnd ==> ys[t - right] == Tagged(words[t], indexes[t])
    modifies wordsTmp, indexesTmp
    ensures left <= l <= right <= r <= rightEnd + 1 && k == left + (l - left) + (r - right)
    ensures l == right || r == rightEnd + 1
    ensures Reached(xs, ys, l - left, r - right, out) && |out| == k - left
    ensures forall t :: left <= t < k ==> wordsTmp[t] == out[t - left].sig && indexesTmp[t] == out[t - left].index
  {
    l, r, k := left, right, left;
    out := [];
    while l <= right - 1 && r <= rightEnd
      invariant left <= l <= right && right <= r <= rightEnd + 1 && k == left + (l - left) + (r - right)
      invariant Reached(xs, ys, l - left, r - right, out) && |out| == k - left
      invariant forall t :: left <= t < k ==> wordsTmp[t] == out[t - left].sig && indexesTmp[t] == out[t - left].index
    {
      l, r, k, out := MergeStep(words, indexes, wordsTmp, indexesTmp, left, right, rightEnd, l, r, k, xs, ys, out);
    }
  }

  /** The second and the third loop of Anagrams.merge: copy what is left of one
      run, positions from..last of the arrays, into the scratch arrays from
      position k on, after the pairs `done` already there. `run` is that whole
      run read as pairs, starting at array position `start`. Returns the next
      free scratch position and what the scratch arrays then hold from left on. */
  method CopyRest(words: array<string>, indexes: array<int>, wordsTmp: array<string>, indexesTmp: array<int>,
                  from: int, last: int, k: int,
                  ghost left: int, ghost start: int, ghost run: seq<Tagged>, ghost done: seq<Tagged>)
    returns (next: int, ghost out: seq<Tagged>)
    requires words != wordsTmp && indexes != indexesTmp
    requires wordsTmp.Length == words.Length && indexes.Length == words.Length
    requires indexesTmp.Length == words.Length
    requires 0 <= start <= from <= last + 1 == start + |run| <= words.Length
    requires forall t :: start <= t <= last ==> run[t - start] == Tagged(words[t], indexes[t])
    requires 0 <= left <= k == left + |done| && k + (last + 1 - from) <= words.Length
    requires forall t :: left <= t < k ==> wordsTmp[t] == done[t - left].sig && indexesTmp[t] == done[t - left].index
    modifies wordsTmp, indexesTmp
    ensures next == k + (last + 1 - from)
    ensures out == done + run[from - start..]
    ensures forall t :: left <= t < next ==> wordsTmp[t] == out[t - left].sig && indexesTmp[t] == out[t - left].index
  {
    var f := from;
    next := k;
    out := done;
    assert run[from - start..from - start] == [];
    while f <= last
      invariant from <= f <= last + 1 && next == k + (f - from)
      invariant out == done + run[from - start..f - start]
      invariant forall t :: left <= t < next ==> wordsTmp[t] == out[t - left].sig && indexesTmp[t] == out[t - left].index
    {
      assert run[f - start] == Tagged(words[f], indexes[f]);
      SnocSlice(out, done, run, from - start, f - start);
      out := Put(wordsTmp, indexesTmp, next, words[f], indexes[f], left, out);
      next, f := next + 1, f + 1;
    }
    assert run[from - start..f - start] == run[from - start..];
  }

  /** The last loop of Anagrams.merge: copy the num scratch positions ending at
      rightEnd back into the arrays, from rightEnd down. */
  method CopyBack(words: array<string>, wordsTmp: array<string>, indexes: array<int>, indexesTmp: array<int>,
                  rightEnd: int, num: int)
    requires words != wordsTmp && indexes != indexesTmp
    requires wordsTmp.Length == words.Length && indexes.Length == words.Length
    requires indexesTmp.Length == words.Length
    requires 0 <= num <= rightEnd + 1 <= words.Length
    modifies words, indexes
    ensures forall t :: rightEnd - num < t <= rightEnd ==> words[t] == wordsTmp[t] && indexes[t] == indexesTmp[t]
    ensures forall t :: 0 <= t < words.Length && !(rightEnd - num < t <= rightEnd) ==>
              words[t] == old(words[t]) && indexes[t] == old(indexes[t])
  {
    var i := 0;
    var end := rightEnd;
    while i < num
      invariant 0 <= i <= num && end == rightEnd - i
      invariant forall t :: end < t <= rightEnd ==> words[t] == wordsTmp[t] && indexes[t] == indexesTmp[t]
      invariant forall t :: 0 <= t < words.Length && !(end < t <= rightEnd) ==>
                  words[t] == old(words[t]) && indexes[t] == old(indexes[t])
    {
      words[end] := wordsTmp[end];
      indexes[end] := indexesTmp[end];
      i, end := i + 1, end - 1;
    }
  }

  /** The first three loops of Anagrams.merge: the merge of the runs
      left..right-1 and right..rightEnd, read as pairs `xs` and `ys`, written to
      the scratch arrays at left..rightEnd. */
  method MergeIntoTmp(words: array<string>, indexes: array<int>, wordsTmp: array<string>, indexesTmp: array<int>,
                      left: int, right: int, rightEnd: int, ghost xs: seq<Tagged>, ghost ys: seq<Tagged>)
    returns (ghost merged: seq<Tagged>)
    requires words != wordsTmp && indexes != indexesTmp
    requires wordsTmp.Length == words.Length && indexes.Length == words.Length
    requires indexesTmp.Length == words.Length
    requires 0 <= left <= right <= rightEnd + 1 <= words.Length
    requires |xs| == right - left && |ys| == rightEnd + 1 - right
    requires forall t :: left <= t < right ==> xs[t - left] == Tagged(words[t], indexes[t])
    requires forall t :: right <= t <= rightEnd ==> ys[t - right] == Tagged(words[t], indexes[t])
    modifies wordsTmp, indexesTmp
    ensures merged == MergeRuns(xs, ys)
    ensures forall t :: left <= t <= rightEnd ==> wordsTmp[t] == merged[t - left].sig && indexesTmp[t] == merged[t - left].index
  {
    var leftEnd := right - 1;
    var l, r, k;
    ghost var heads, withLeft;
    l, r, k, heads := MergeHeads(words, indexes, wordsTmp, indexesTmp, left, right, rightEnd, xs, ys);
    ReachedMerge(xs, ys, l - left, r - right, heads);
    k, withLeft := CopyRest(words, indexes, wordsTmp, indexesTmp, l, leftEnd, k, left, left, xs, heads);
    k, merged := CopyRest(words, indexes, wordsTmp, indexesTmp, r, rightEnd, k, left, right, ys, withLeft);
    MergeAssembled(xs, ys, l - left, r - right, heads, withLeft, merged);
  }

  /** Anagrams.merge: merges the sorted runs left..right-1 and right..rightEnd of
      the parallel arrays through the scratch arrays, then copies the merged range
      back. Read as pairs, the arrays become MergeRange of what they held: the
      range is the merge of the two runs and nothing outside it changes. */
  method Merge(words: array<string>, wordsTmp: array<string>, left: int, right: int, rightEnd: int,
               indexes: array<int>, indexesTmp: array<int>, ghost s: seq<Tagged>)
    requires Buffers(words, wordsTmp, indexes, indexesTmp)
    requires 0 <= left <= right <= rightEnd + 1 <= words.Length
    requires Zip(words[..], indexes[..]) == s
    modifies words, wordsTmp, indexes, indexesTmp
    ensures Zip(words[..], indexes[..]) == MergeRange(s, left, right, rightEnd + 1)
  {
    ZipAt(words[..], indexes[..]);
    ghost var merged := MergeIntoTmp(words, indexes, wordsTmp, indexesTmp, left, right, rightEnd,
                                     s[left..right], s[right..rightEnd + 1]);
    var num := rightEnd - left + 1;
    CopyBack(words, wordsTmp, indexes, indexesTmp, rightEnd, num);
    ZipAt(words[..], indexes[..]);
    Splice(Zip(words[..], indexes[..]), s, merged, left, rightEnd + 1);
  }

  /** `center = (left + right) / 2` splits left..right into two non-empty
      halves, at the point SortRange splits the stretch left..right. */
  lemma {:induction false} CenterSplits(left: int, center: int, right: int)
    requires 0 <= left < right && center == (left + right) / 2
    ensures left <= center < right
    ensures center + 1 == (left + (right + 1) + 1) / 2
  {
  }

  /** A stretch of at most one element is already sorted. */
  lemma {:induction false} SortRangeShort(s: seq<Tagged>, lo: int, hi: int)
    requires 0 <= lo <= hi <= |s| && hi - lo <= 1
    ensures SortRange(s, lo, hi) == s
  {
  }

  /** The unfolding of SortRange at the split point of lo..hi-1. */
  lemma {:induction false} SortRangeSplit(s: seq<Tagged>, lo: int, mid: int, hi: int)
    requires 0 <= lo && hi <= |s| && hi - lo > 1 && mid == (lo + hi + 1) / 2
    ensures lo < mid < hi
    ensures SortRange(s, lo, hi) == MergeRange(SortRange(SortRange(s, lo, mid), mid, hi), lo, mid, hi)
  {
  }

  /** Anagrams.mergeSort: sorts the inclusive range left..right of the parallel
      arrays. Read as pairs, the arrays become SortRange of what they held: the
      range is merge sorted and nothing outside it changes. */
  method MergeSort(words: array<string>, tmp: array<string>, left: int, right: int,
                   indexes: array<int>, indexesTmp: array<int>, ghost s: seq<Tagged>)
    requires Buffers(words, tmp, indexes, indexesTmp)
    requires 0 <= left <= right + 1 <= words.Length
    requires Zip(words[..], indexes[..]) == s
    modifies words, tmp, indexes, indexesTmp
    ensures Zip(words[..], indexes[..]) == SortRange(s, left, right + 1)
    decreases right - left
  {
    if left < right {
      var center := (left + right) / 2;
      CenterSplits(left, center, right);
      SortRangeSplit(s, left, center + 1, right + 1);
      MergeSort(words, tmp, left, center, indexes, indexesTmp, s);
      MergeSort(words, tmp, center + 1, right, indexes, indexesTmp, SortRange(s, left, center + 1));
      Merge(words, tmp, left, center + 1, right, indexes, indexesTmp,
            SortRange(SortRange(s, left, center + 1), center + 1, right + 1));
    } else {
      SortRangeShort(s, left, right + 1);
    }
  }

  /** Sorting the whole identity pairing gives MergeSorted of it, a stable sort. */
  lemma {:induction false} SortedWhole(orig: seq<string>, sorted: seq<string>, indexes: seq<int>, n: int)
    requires n == |orig| == |sorted| == |indexes|
    requires Zip(sorted, indexes) == SortRange(Zip(orig, Identity(n)), 0, n)
    ensures Zip(sorted, indexes) == MergeSorted(Zip(orig, Identity(n)))
    ensures StablySorted(orig, sorted, indexes)
  {
    SortRangeWhole(Zip(orig, Identity(n)));
    SortedViewIsStable(orig, sorted, indexes);
  }

  /** The first loop of Anagrams.sortWords: a new array holding every position
      0..n-1 at that position. */
  method IdentityIndexes(n: nat) returns (indexes: array<int>)
    ensures fresh(indexes) && indexes.Length == n
    ensures indexes[..] == Identity(n)
  {
    indexes := new int[n];
    var i := 0;
    while i < indexes.Length
      invariant 0 <= i <= indexes.Length
      invariant forall k :: 0 <= k < i ==> indexes[k] == k
    {
      indexes[i] := i;
      i := i + 1;
    }
    assert indexes[..] == Identity(n);
  }

  /** Anagrams.sortWords: sorts `words` in place by compareTo and returns, for
      every sorted position, the position its signature had before sorting. */
  method SortWords(words: array<string>) returns (indexes: array<int>)
    modifies words
    ensures fresh(indexes) && indexes.Length == words.Length
    ensures Zip(words[..], indexes[..]) == MergeSorted(Zip(old(words[..]), Identity(words.Length)))
    ensures StablySorted(old(words[..]), words[..], indexes[..])
  {
    indexes := IdentityIndexes(words.Length);
    var tmp := new string[words.Length];
    var indexesTmp := new int[indexes.Length];
    MergeSort(words, tmp, 0, words.Length - 1, indexes, indexesTmp, Zip(words[..], indexes[..]));
    SortedWhole(old(words[..]), words[..], indexes[..], words.Length - 1 + 1);
  }
}
