/** The grouping scan of Anagrams.findAnagrams: one pass over the sorted signature
    array that reports every stretch of at least two equal adjacent signatures,
    printing for each position of the stretch the word the sort moved there.

    The scan is proved to compute the pure function Runs on the signatures; the
    lemmas below prove that Runs finds exactly the maximal stretches of equal
    signatures and, on a sorted array, exactly the classes of equal signatures
    with more than one member, in ascending order. */
module GroupExtractor {
  import opened JavaStrings

  /** The inclusive stretch first..last of positions of the sorted arrays. */
  datatype Span = Span(first: int, last: int)

  /** The last position of the stretch of equal adjacent signatures that starts at `i`. */
  ghost function RunLast(sigs: seq<string>, i: int): (j: int)
    requires 0 <= i < |sigs|
    ensures i <= j < |sigs|
    ensures j == |sigs| - 1 || sigs[j] != sigs[j + 1]
    decreases |sigs| - i
  {
    if i + 1 < |sigs| && sigs[i] == sigs[i + 1] then RunLast(sigs, i + 1) else i
  }

  /** Every position from `i` to RunLast holds the signature at `i`. */
  lemma {:induction false} RunLastSpansEqual(sigs: seq<string>, i: int)
    requires 0 <= i < |sigs|
    ensures forall t :: i <= t <= RunLast(sigs, i) ==> sigs[t] == sigs[i]
    decreases |sigs| - i
  {
    if i + 1 < |sigs| && sigs[i] == sigs[i + 1] {
      RunLastSpansEqual(sigs, i + 1);
    }
  }

  /** The stretches the scan reports, in order, when it starts at position `i`:
      where a signature equals the next one, the stretch runs to RunLast and the
      scan resumes just past it; otherwise the scan moves on by one. */
  ghost function Runs(sigs: seq<string>, i: nat): (r: seq<Span>)
    ensures forall a :: 0 <= a < |r| ==> i <= r[a].first < r[a].last < |sigs|
    decreases |sigs| - i
  {
    if i + 1 >= |sigs| then []
    else if sigs[i] == sigs[i + 1] then
      var j := RunLast(sigs, i);
      [Span(i, j)] + Runs(sigs, j + 1)
    else Runs(sigs, i + 1)
  }

  /** Where a stretch starts at `i`, Runs reports it and resumes past its end. */
  lemma {:induction false} RunsAtRun(sigs: seq<string>, i: nat)
    requires i + 1 < |sigs| && sigs[i] == sigs[i + 1]
    ensures Runs(sigs, i) == [Span(i, RunLast(sigs, i))] + Runs(sigs, RunLast(sigs, i) + 1)
  {
  }

  /** Where no stretch starts at `i`, Runs moves on to `i + 1`. */
  lemma {:induction false} RunsPastSingle(sigs: seq<string>, i: nat)
    requires i + 1 < |sigs| && sigs[i] != sigs[i + 1]
    ensures Runs(sigs, i) == Runs(sigs, i + 1)
  {
  }

  /** The word printed for each sorted position p: words[indexes[p]]. */
  ghost function Placed(words: seq<string>, indexes: seq<int>): (r: seq<string>)
    requires forall p :: 0 <= p < |indexes| ==> 0 <= indexes[p] < |words|
    ensures |r| == |indexes|
  {
    seq(|indexes|, p requires 0 <= p < |indexes| => words[indexes[p]])
  }

  /** One printed line per stretch: the words at its positions, in order. */
  ghost function Lines(names: seq<string>, spans: seq<Span>): (r: seq<seq<string>>)
    requires forall a :: 0 <= a < |spans| ==> 0 <= spans[a].first <= spans[a].last < |names|
    ensures |r| == |spans|
  {
    seq(|spans|, a requires 0 <= a < |spans| => names[spans[a].first..spans[a].last + 1])
  }

  /** A stretch of at least two equal signatures that cannot be extended either way. */
  ghost predicate MaximalRun(sigs: seq<string>, sp: Span) {
    && 0 <= sp.first < sp.last < |sigs|
    && (forall t :: sp.first <= t <= sp.last ==> sigs[t] == sigs[sp.first])
    && (sp.first == 0 || sigs[sp.first - 1] != sigs[sp.first])
    && (sp.last == |sigs| - 1 || sigs[sp.last] != sigs[sp.last + 1])
  }

  /** Every stretch of the list is maximal. */
  ghost predicate AllMaximal(sigs: seq<string>, spans: seq<Span>) {
    forall a :: 0 <= a < |spans| ==> MaximalRun(sigs, spans[a])
  }

  /** Each stretch of the list ends before the next one begins. */
  ghost predicate SpansInOrder(spans: seq<Span>) {
    forall a, b :: 0 <= a < b < |spans| ==> spans[a].last < spans[b].first
  }

  /** Position p holds the same signature as one of its neighbours. */
  ghost predicate HasTwin(sigs: seq<string>, p: int)
    requires 0 <= p < |sigs|
  {
    (p > 0 && sigs[p - 1] == sigs[p]) || (p + 1 < |sigs| && sigs[p] == sigs[p + 1])
  }

  /** Some stretch of `spans` contains position p. */
  ghost predicate Covers(spans: seq<Span>, p: int) {
    exists a :: 0 <= a < |spans| && spans[a].first <= p <= spans[a].last
  }

  /** A position where a stretch may begin: the first, or one whose signature differs
      from the one before it. */
  ghost predicate StartsFresh(sigs: seq<string>, i: nat) {
    i == 0 || i >= |sigs| || sigs[i - 1] != sigs[i]
  }

  /** The stretch found from a fresh start is maximal, and the scan resumes at a
      fresh start after it. */
  lemma {:induction false} RunLastIsMaximal(sigs: seq<string>, i: nat)
    requires StartsFresh(sigs, i) && i + 1 < |sigs| && sigs[i] == sigs[i + 1]
    ensures MaximalRun(sigs, Span(i, RunLast(sigs, i)))
    ensures StartsFresh(sigs, RunLast(sigs, i) + 1)
  {
    RunLastSpansEqual(sigs, i);
  }

  /** Every reported stretch is maximal. */
  lemma {:induction false} RunsAreMaximal(sigs: seq<string>, i: nat)
    requires StartsFresh(sigs, i)
    ensures AllMaximal(sigs, Runs(sigs, i))
    decreases |sigs| - i
  {
    if i + 1 < |sigs| {
      if sigs[i] == sigs[i + 1] {
        var j := RunLast(sigs, i);
        RunsAtRun(sigs, i);
        RunLastIsMaximal(sigs, i);
        RunsAreMaximal(sigs, j + 1);
        MaximalCons(sigs, Span(i, j), Runs(sigs, j + 1));
      } else {
        RunsPastSingle(sigs, i);
        RunsAreMaximal(sigs, i + 1);
      }
    }
  }

  /** A maximal stretch in front of maximal stretches. */
  lemma {:induction false} MaximalCons(sigs: seq<string>, sp: Span, rest: seq<Span>)
    requires MaximalRun(sigs, sp)
    requires AllMaximal(sigs, rest)
    ensures AllMaximal(sigs, [sp] + rest)
  {
    var all := [sp] + rest;
    forall a | 0 <= a < |all| ensures MaximalRun(sigs, all[a]) {
      if a > 0 {
        assert all[a] == rest[a - 1];
      }
    }
  }

  /** A stretch that ends before every stretch of an ordered list begins keeps
      the list ordered when put in front of it. */
  lemma {:induction false} OrderCons(sp: Span, rest: seq<Span>)
    requires forall a :: 0 <= a < |rest| ==> sp.last < rest[a].first
    requires SpansInOrder(rest)
    ensures SpansInOrder([sp] + rest)
  {
    var all := [sp] + rest;
    forall a, b | 0 <= a < b < |all| ensures all[a].last < all[b].first {
      assert all[b] == rest[b - 1];
      if a > 0 {
        assert all[a] == rest[a - 1];
      }
    }
  }

  /** Each reported stretch ends before the next one begins. */
  lemma {:induction false} RunsInOrder(sigs: seq<string>, i: nat)
    ensures SpansInOrder(Runs(sigs, i))
    decreases |sigs| - i
  {
    if i + 1 < |sigs| {
      if sigs[i] == sigs[i + 1] {
        var j := RunLast(sigs, i);
        RunsAtRun(sigs, i);
        RunsInOrder(sigs, j + 1);
        OrderCons(Span(i, j), Runs(sigs, j + 1));
      } else {
        RunsPastSingle(sigs, i);
        RunsInOrder(sigs, i + 1);
      }
    }
  }

  /** The reported stretches cover exactly the positions that share their
      signature with a neighbour. */
  lemma {:induction false} RunsCoverTwins(sigs: seq<string>, i: nat)
    requires StartsFresh(sigs, i)
    ensures forall p :: i <= p < |sigs| ==> (Covers(Runs(sigs, i), p) <==> HasTwin(sigs, p))
    decreases |sigs| - i
  {
    if i + 1 < |sigs| {
      if sigs[i] == sigs[i + 1] {
        var j := RunLast(sigs, i);
        RunsAtRun(sigs, i);
        RunLastSpansEqual(sigs, i);
        RunsCoverTwins(sigs, j + 1);
        forall p | i <= p < |sigs| ensures Covers(Runs(sigs, i), p) <==> HasTwin(sigs, p) {
          CoversCons(Span(i, j), Runs(sigs, j + 1), p);
          if p < j {
            assert sigs[p] == sigs[i] == sigs[p + 1];
          } else if p == j {
            assert sigs[p - 1] == sigs[i] == sigs[p];
          }
        }
      } else {
        RunsPastSingle(sigs, i);
        RunsCoverTwins(sigs, i + 1);
        assert !Covers(Runs(sigs, i), i);
      }
    }
  }

  /** A position is covered by a stretch in front of others exactly when that
      stretch or one of the others holds it. */
  lemma {:induction false} CoversCons(sp: Span, rest: seq<Span>, p: int)
    ensures Covers([sp] + rest, p) <==> (sp.first <= p <= sp.last || Covers(rest, p))
  {
    var all := [sp] + rest;
    if Covers(all, p) && !(sp.first <= p <= sp.last) {
      var a :| 0 <= a < |all| && all[a].first <= p <= all[a].last;
      assert rest[a - 1] == all[a];
    }
    if sp.first <= p <= sp.last {
      assert all[0] == sp;
    }
    if Covers(rest, p) {
      var a :| 0 <= a < |rest| && rest[a].first <= p <= rest[a].last;
      assert all[a + 1] == rest[a];
    }
  }

  /** In a sorted array, every position between two equal signatures holds that
      signature too. */
  lemma {:induction false} SortedBetween(sigs: seq<string>, p: int, t: int, q: int)
    requires Sorted(sigs) && 0 <= p <= t <= q < |sigs| && sigs[p] == sigs[q]
    ensures sigs[t] == sigs[p]
  {
    if p < t < q {
      LeTotal(sigs[p], sigs[t]);
    }
  }

  /** In a sorted array, a position shares its signature with a neighbour exactly
      when the signature occurs at some other position. */
  lemma {:induction false} SortedTwin(sigs: seq<string>, p: int)
    requires Sorted(sigs) && 0 <= p < |sigs|
    ensures HasTwin(sigs, p) <==> exists q :: 0 <= q < |sigs| && q != p && sigs[q] == sigs[p]
  {
    if q :| 0 <= q < |sigs| && q != p && sigs[q] == sigs[p] {
      if q < p {
        SortedBetween(sigs, q, p - 1, p);
      } else {
        SortedBetween(sigs, p, p + 1, q);
      }
    }
    if p > 0 && sigs[p - 1] == sigs[p] {
      assert p - 1 != p;
    } else if p + 1 < |sigs| && sigs[p] == sigs[p + 1] {
      assert p + 1 != p;
    }
  }

  /** In a sorted array, a maximal stretch holds every position with its signature. */
  lemma {:induction false} SortedRunIsClass(sigs: seq<string>, sp: Span, p: int)
    requires Sorted(sigs) && MaximalRun(sigs, sp)
    requires 0 <= p < |sigs| && sigs[p] == sigs[sp.first]
    ensures sp.first <= p <= sp.last
  {
    if p < sp.first {
      SortedBetween(sigs, p, sp.first - 1, sp.first);
    } else if p > sp.last {
      SortedBetween(sigs, sp.last, sp.last + 1, p);
    }
  }

  /** In a sorted array, of two maximal stretches the earlier one holds the
      strictly smaller signature under compareTo. */
  lemma {:induction false} SortedRunsAscend(sigs: seq<string>, x: Span, y: Span)
    requires Sorted(sigs) && MaximalRun(sigs, x) && MaximalRun(sigs, y) && x.last < y.first
    ensures CompareTo(sigs[x.first], sigs[y.first]) < 0
  {
    if sigs[x.first] == sigs[y.first] {
      SortedRunIsClass(sigs, x, y.first);
    }
  }

  /** One line per stretch, for a stretch in front of further stretches. */
  lemma {:induction false} LinesCons(names: seq<string>, sp: Span, rest: seq<Span>)
    requires 0 <= sp.first <= sp.last < |names|
    requires forall a :: 0 <= a < |rest| ==> 0 <= rest[a].first <= rest[a].last < |names|
    ensures Lines(names, [sp] + rest) == [names[sp.first..sp.last + 1]] + Lines(names, rest)
  {
    var all := [sp] + rest;
    assert forall a :: 0 <= a < |rest| ==> all[a + 1] == rest[a];
  }

  /** Lines printed so far followed by the lines still to print, regrouped
      around the next line. */
  lemma {:induction false} PrintNext(printed: seq<seq<string>>, line: seq<string>, todo: seq<seq<string>>,
                                     tail: seq<seq<string>>)
    requires todo == [line] + tail
    ensures printed + todo == (printed + [line]) + tail
  {
    assert printed + ([line] + tail) == (printed + [line]) + tail;
  }

  /** Across a stretch that starts at `i`, the lines still to print are the
      stretch's line followed by those from just past the stretch. */
  lemma {:induction false} ScanPastRun(names: seq<string>, sigs: seq<string>, printed: seq<seq<string>>,
                                       i: nat, last: int)
    requires |names| == |sigs| && i + 1 < |sigs| && sigs[i] == sigs[i + 1] && last == RunLast(sigs, i)
    ensures printed + Lines(names, Runs(sigs, i))
         == (printed + [names[i..last + 1]]) + Lines(names, Runs(sigs, last + 1))
  {
    RunsAtRun(sigs, i);
    LinesCons(names, Span(i, last), Runs(sigs, last + 1));
    PrintNext(printed, names[i..last + 1], Lines(names, Runs(sigs, i)), Lines(names, Runs(sigs, last + 1)));
  }

  /** Past a position where no stretch starts, the lines still to print are the same. */
  lemma {:induction false} ScanPastSingle(names: seq<string>, sigs: seq<string>, i: nat)
    requires |names| == |sigs| && i + 1 < |sigs| && sigs[i] != sigs[i + 1]
    ensures Lines(names, Runs(sigs, i)) == Lines(names, Runs(sigs, i + 1))
  {
    RunsPastSingle(sigs, i);
  }

  /** The inner while loop of the grouping scan, with the print of the stretch's
      last word after it: from `start`, where a stretch of equal signatures begins,
      collects words[indexes[p]] for every position p of the stretch. */
  method CollectRun(words: array<string>, sortedChars: array<string>, indexes: array<int>, start: int)
    returns (group: seq<string>, last: int)
    requires sortedChars.Length == words.Length && indexes.Length == words.Length
    requires forall p :: 0 <= p < indexes.Length ==> 0 <= indexes[p] < words.Length
    requires 0 <= start < words.Length - 1 && sortedChars[start] == sortedChars[start + 1]
    ensures last == RunLast(sortedChars[..], start)
    ensures |group| == last + 1 - start
    ensures forall t :: 0 <= t < |group| ==> group[t] == words[indexes[start + t]]
  {
    ghost var sigs := sortedChars[..];
    group := [words[indexes[start]]];
    last := start + 1;
    while last < words.Length - 1 && sortedChars[last] == sortedChars[last + 1]
      invariant start < last < words.Length
      invariant RunLast(sigs, last) == RunLast(sigs, start)
      invariant |group| == last - start
      invariant forall t :: 0 <= t < |group| ==> group[t] == words[indexes[start + t]]
      decreases words.Length - last
    {
      group := group + [words[indexes[last]]];
      last := last + 1;
    }
    group := group + [words[indexes[last]]];
  }

  /** The grouping loop of Anagrams.findAnagrams: wherever sortedChars[i] equals
      sortedChars[i + 1], collects the words of the whole stretch of equal
      signatures as one line, then resumes just past the stretch. The lines are
      those of Runs on the signatures, each holding words[indexes[p]] for the
      positions p of its stretch. */
  method ExtractGroups(words: array<string>, sortedChars: array<string>, indexes: array<int>)
    returns (groups: seq<seq<string>>)
    requires sortedChars.Length == words.Length && indexes.Length == words.Length
    requires forall p :: 0 <= p < indexes.Length ==> 0 <= indexes[p] < words.Length
    ensures groups == Lines(Placed(words[..], indexes[..]), Runs(sortedChars[..], 0))
  {
    ghost var sigs := sortedChars[..];
    ghost var names := Placed(words[..], indexes[..]);
    groups := [];
    var i := 0;
    while i < words.Length - 1
      invariant 0 <= i <= words.Length
      invariant groups + Lines(names, Runs(sigs, i)) == Lines(names, Runs(sigs, 0))
      decreases words.Length - i
    {
      if sortedChars[i] == sortedChars[i + 1] {
        var group, last := CollectRun(words, sortedChars, indexes, i);
        assert group == names[i..last + 1];
        ScanPastRun(names, sigs, groups, i, last);
        groups := groups + [group];
        i := last;
      } else {
        ScanPastSingle(names, sigs, i);
      }
      i := i + 1;
    }
  }
}
