/** Anagrams.findAnagrams without its file input and output: the signatures of the
    words are computed (sortedChars), sorted in place together with the positions
    of their words (sortWords), and scanned for stretches of equal signatures; the
    lines the scan would print come back as a sequence of groups of words.

    The lemmas below lift what is proved about the scan, on positions of the
    sorted arrays, to the words themselves: every group is a whole class of
    anagrams with more than one member, every word with an anagram is in exactly
    one group, the groups ascend by signature, and each keeps its words in input
    order. */
module AnagramEngine {
  import opened JavaStrings
  import opened SignatureBuilder
  import opened IndexedSorter
  import opened GroupExtractor

  /** No word occurs twice, as in the array made from the set of words read. */
  ghost predicate Distinct(words: seq<string>) {
    forall i, j :: 0 <= i < j < |words| ==> words[i] != words[j]
  }

  /** Some other word of the input has the same chars as words[k]. */
  ghost predicate HasAnagram(words: seq<string>, k: int)
    requires 0 <= k < |words|
  {
    exists j :: 0 <= j < |words| && j != k && multiset(words[j]) == multiset(words[k])
  }

  /** Some group holds `w`. */
  ghost predicate Grouped(groups: seq<seq<string>>, w: string) {
    exists g :: g in groups && w in g
  }

  /** No word occurs twice in the groups, neither in one group nor in two. */
  ghost predicate NoRepeats(groups: seq<seq<string>>) {
    forall a, b, t, u ::
      && 0 <= a < |groups| && 0 <= b < |groups|
      && 0 <= t < |groups[a]| && 0 <= u < |groups[b]|
      && groups[a][t] == groups[b][u]
      ==> a == b && t == u
  }

  /** The words of `g` come in the order they have in `words`. */
  ghost predicate InInputOrder(words: seq<string>, g: seq<string>) {
    forall t, u, i, j ::
      && 0 <= t < u < |g| && 0 <= i < |words| && 0 <= j < |words|
      && g[t] == words[i] && g[u] == words[j]
      ==> i < j
  }

  /** The signature of every word, in input order: what sortedChars returns. */
  ghost function Signatures(words: seq<string>): (r: seq<string>)
    ensures |r| == |words|
    ensures forall k :: 0 <= k < |words| ==> r[k] == Signature(words[k])
  {
    seq(|words|, k requires 0 <= k < |words| => Signature(words[k]))
  }

  /** Sorted position p holds the signature of the word at input position
      indexes[p]: what sortWords leaves on the signatures, read position by position. */
  ghost predicate Placement(words: seq<string>, sorted: seq<string>, indexes: seq<int>) {
    && |sorted| == |words| && |indexes| == |words|
    && forall p :: 0 <= p < |indexes| ==> 0 <= indexes[p] < |words| && sorted[p] == Signature(words[indexes[p]])
  }

  /** Every input position 0..n-1 occurs among the indexes. */
  ghost predicate Covering(n: int, indexes: seq<int>) {
    forall k :: 0 <= k < n ==> k in indexes
  }

  /** No input position occurs twice among the indexes. */
  ghost predicate Injective(indexes: seq<int>) {
    forall p, q :: 0 <= p < q < |indexes| ==> indexes[p] != indexes[q]
  }

  /** Equal sorted signatures keep their input positions in increasing order. */
  ghost predicate Stable(sorted: seq<string>, indexes: seq<int>)
    requires |indexes| == |sorted|
  {
    forall p, q :: 0 <= p < q < |sorted| && sorted[p] == sorted[q] ==> indexes[p] < indexes[q]
  }

  /** `groups` are the lines printed for `spans`, maximal stretches of equal
      signatures in the sorted arrays. */
  ghost predicate Printed(words: seq<string>, sorted: seq<string>, indexes: seq<int>,
                          spans: seq<Span>, groups: seq<seq<string>>) {
    && Placement(words, sorted, indexes)
    && AllMaximal(sorted, spans)
    && groups == Lines(Placed(words, indexes), spans)
  }

  /** What sortWords delivers on the signatures of the words, taken apart into the
      facts the lemmas below use. */
  lemma {:induction false} SortFacts(words: seq<string>, sorted: seq<string>, indexes: seq<int>)
    requires StablySorted(Signatures(words), sorted, indexes)
    ensures Placement(words, sorted, indexes)
    ensures Covering(|words|, indexes) && Injective(indexes)
    ensures Sorted(sorted) && Stable(sorted, indexes)
  {
  }

  /** The printed lines, read word by word: group `a` holds, in order, the words
      at the input positions sorted into the positions of the a-th stretch. */
  ghost predicate Laid(words: seq<string>, indexes: seq<int>, spans: seq<Span>, groups: seq<seq<string>>) {
    && (forall p :: 0 <= p < |indexes| ==> 0 <= indexes[p] < |words|)
    && (forall a :: 0 <= a < |spans| ==> 0 <= spans[a].first <= spans[a].last < |indexes|)
    && |groups| == |spans|
    && (forall a :: 0 <= a < |groups| ==> |groups[a]| == spans[a].last + 1 - spans[a].first)
    && (forall a, t :: 0 <= a < |groups| && 0 <= t < |groups[a]| ==>
         groups[a][t] == words[indexes[spans[a].first + t]])
  }

  /** The printed lines hold, word by word, the words of the stretches. */
  lemma {:induction false} PrintedIsLaid(words: seq<string>, sorted: seq<string>, indexes: seq<int>,
                                         spans: seq<Span>, groups: seq<seq<string>>)
    requires Printed(words, sorted, indexes, spans, groups)
    ensures Laid(words, indexes, spans, groups)
  {
    var names := Placed(words, indexes);
    forall a, t | 0 <= a < |groups| && 0 <= t < |groups[a]|
      ensures groups[a][t] == words[indexes[spans[a].first + t]]
    {
      assert names[spans[a].first + t] == words[indexes[spans[a].first + t]];
    }
  }

  /** Line `a` holds the words printed at the positions of the a-th stretch. */
  lemma {:induction false} LineAt(words: seq<string>, indexes: seq<int>, spans: seq<Span>,
                                  groups: seq<seq<string>>, a: int, t: int)
    requires Laid(words, indexes, spans, groups)
    requires 0 <= a < |groups| && 0 <= t < |groups[a]|
    ensures spans[a].first + t <= spans[a].last
    ensures groups[a][t] == words[indexes[spans[a].first + t]]
  {
  }

  /** Each printed word has the signature sorted at its position. */
  lemma {:induction false} LineSignatureAt(words: seq<string>, sorted: seq<string>, indexes: seq<int>,
                                           spans: seq<Span>, groups: seq<seq<string>>, a: int, t: int)
    requires Laid(words, indexes, spans, groups) && Placement(words, sorted, indexes)
    requires 0 <= a < |groups| && 0 <= t < |groups[a]|
    ensures spans[a].first + t <= spans[a].last
    ensures groups[a][t] == words[indexes[spans[a].first + t]]
    ensures Signature(groups[a][t]) == sorted[spans[a].first + t]
  {
    LineAt(words, indexes, spans, groups, a, t);
  }

  /** The first position at which `g` occurs in `groups`. */
  ghost function IndexOf(groups: seq<seq<string>>, g: seq<string>): (a: int)
    requires g in groups
    ensures 0 <= a < |groups| && groups[a] == g
  {
    if groups[0] == g then 0 else 1 + IndexOf(groups[1..], g)
  }

  /** Every group holds at least two words of the input, all anagrams of each other. */
  lemma {:induction false} GroupsAreAnagrams(words: seq<string>, sorted: seq<string>, indexes: seq<int>,
                                             spans: seq<Span>, groups: seq<seq<string>>)
    requires Laid(words, indexes, spans, groups) && Placement(words, sorted, indexes) && AllMaximal(sorted, spans)
    ensures forall g :: g in groups ==> |g| >= 2
    ensures forall g, w :: g in groups && w in g ==> w in words
    ensures forall g, v, w :: g in groups && v in g && w in g ==> multiset(v) == multiset(w)
  {
    forall g | g in groups
      ensures |g| >= 2
      ensures forall w :: w in g ==> w in words && Signature(w) == sorted[spans[IndexOf(groups, g)].first]
    {
      var a := IndexOf(groups, g);
      assert MaximalRun(sorted, spans[a]);
      forall w | w in g ensures w in words && Signature(w) == sorted[spans[a].first] {
        var t :| 0 <= t < |g| && g[t] == w;
        LineSignatureAt(words, sorted, indexes, spans, groups, a, t);
      }
    }
    forall g, v, w | g in groups && v in g && w in g ensures multiset(v) == multiset(w) {
      SameSignatureIffAnagrams(v, w);
    }
  }

  /** The sorted position of the word at input position k, and the only one. */
  lemma {:induction false} PositionOf(n: int, indexes: seq<int>, k: int) returns (p: int)
    requires Covering(n, indexes) && Injective(indexes) && 0 <= k < n
    ensures 0 <= p < |indexes| && indexes[p] == k
    ensures forall q :: 0 <= q < |indexes| && indexes[q] == k ==> q == p
  {
    assert k in indexes;
    p :| 0 <= p < |indexes| && indexes[p] == k;
  }

  /** The anagram of a word of group `a` at input position k sits in the stretch of
      group `a`, so group `a` holds it. */
  lemma {:induction false} AnagramInGroup(words: seq<string>, sorted: seq<string>, indexes: seq<int>,
                                          spans: seq<Span>, groups: seq<seq<string>>, a: int, t: int, k: int)
    requires Laid(words, indexes, spans, groups) && Placement(words, sorted, indexes) && AllMaximal(sorted, spans)
    requires Sorted(sorted) && Covering(|words|, indexes)
    requires 0 <= a < |groups| && 0 <= t < |groups[a]| && 0 <= k < |words|
    requires Signature(words[k]) == Signature(groups[a][t])
    ensures words[k] in groups[a]
  {
    var sp := spans[a];
    assert MaximalRun(sorted, sp);
    LineSignatureAt(words, sorted, indexes, spans, groups, a, t);
    assert k in indexes;
    var q :| 0 <= q < |indexes| && indexes[q] == k;
    SortedRunIsClass(sorted, sp, q);
    LineSignatureAt(words, sorted, indexes, spans, groups, a, q - sp.first);
  }

  /** Every anagram of a word in a group is in that group too. */
  lemma {:induction false} GroupsAreWholeClasses(words: seq<string>, sorted: seq<string>, indexes: seq<int>,
                                                 spans: seq<Span>, groups: seq<seq<string>>)
    requires Laid(words, indexes, spans, groups) && Placement(words, sorted, indexes) && AllMaximal(sorted, spans)
    requires Sorted(sorted) && Covering(|words|, indexes)
    ensures forall a, t, k ::
      && 0 <= a < |groups| && 0 <= t < |groups[a]| && 0 <= k < |words|
      && multiset(words[k]) == multiset(groups[a][t])
      ==> words[k] in groups[a]
  {
    forall a, t, k |
      && 0 <= a < |groups| && 0 <= t < |groups[a]| && 0 <= k < |words|
      && multiset(words[k]) == multiset(groups[a][t])
      ensures words[k] in groups[a]
    {
      SameSignatureIffAnagrams(words[k], groups[a][t]);
      AnagramInGroup(words, sorted, indexes, spans, groups, a, t, k);
    }
  }

  /** In an input without repeated words, equal words sit at the same position. */
  lemma {:induction false} SameWord(words: seq<string>, i: int, j: int)
    requires Distinct(words) && 0 <= i < |words| && 0 <= j < |words| && words[i] == words[j]
    ensures i == j
  {
  }

  /** Two sorted positions holding the same input position are the same position. */
  lemma {:induction false} SamePosition(indexes: seq<int>, p: int, q: int)
    requires Injective(indexes) && 0 <= p < |indexes| && 0 <= q < |indexes| && indexes[p] == indexes[q]
    ensures p == q
  {
  }

  /** Where a grouped word sits: a group and a place in it. */
  lemma {:induction false} PlaceOf(groups: seq<seq<string>>, w: string) returns (a: int, t: int)
    requires Grouped(groups, w)
    ensures 0 <= a < |groups| && 0 <= t < |groups[a]| && groups[a][t] == w
  {
    var g :| g in groups && w in g;
    a := IndexOf(groups, g);
    t :| 0 <= t < |g| && g[t] == w;
  }

  /** A word at a place of a group is grouped. */
  lemma {:induction false} GroupedFromPlace(groups: seq<seq<string>>, a: int, t: int)
    requires 0 <= a < |groups| && 0 <= t < |groups[a]|
    ensures Grouped(groups, groups[a][t])
  {
    assert groups[a] in groups;
  }

  /** A grouped word sits in the stretch of its group. */
  lemma {:induction false} GroupedIsCovered(words: seq<string>, indexes: seq<int>,
                                            spans: seq<Span>, groups: seq<seq<string>>, k: int, p: int)
    requires Laid(words, indexes, spans, groups) && Distinct(words) && Injective(indexes)
    requires 0 <= k < |words| && 0 <= p < |indexes| && indexes[p] == k
    requires Grouped(groups, words[k])
    ensures Covers(spans, p)
  {
    var a, t := PlaceOf(groups, words[k]);
    LineAt(words, indexes, spans, groups, a, t);
    var q := spans[a].first + t;
    SameWord(words, indexes[q], k);
    SamePosition(indexes, p, q);
    assert a < |spans| && spans[a].first <= p <= spans[a].last;
  }

  /** The word sorted into a position of a stretch is printed in its group. */
  lemma {:induction false} CoveredIsGrouped(words: seq<string>, indexes: seq<int>,
                                            spans: seq<Span>, groups: seq<seq<string>>, p: int)
    requires Laid(words, indexes, spans, groups)
    requires 0 <= p < |indexes| && Covers(spans, p)
    ensures Grouped(groups, words[indexes[p]])
  {
    var a :| 0 <= a < |spans| && spans[a].first <= p <= spans[a].last;
    var t := p - spans[a].first;
    assert groups[a][t] == words[indexes[spans[a].first + t]];
    GroupedFromPlace(groups, a, t);
  }

  /** A word is in a group exactly when its sorted position lies in a stretch. */
  lemma {:induction false} GroupedAt(words: seq<string>, indexes: seq<int>,
                                     spans: seq<Span>, groups: seq<seq<string>>, k: int, p: int)
    requires Laid(words, indexes, spans, groups) && Distinct(words) && Injective(indexes)
    requires 0 <= k < |words| && 0 <= p < |indexes| && indexes[p] == k
    ensures Grouped(groups, words[k]) <==> Covers(spans, p)
  {
    if Grouped(groups, words[k]) {
      GroupedIsCovered(words, indexes, spans, groups, k, p);
    }
    if Covers(spans, p) {
      CoveredIsGrouped(words, indexes, spans, groups, p);
    }
  }

  /** A word has an anagram elsewhere in the input exactly when its signature
      occurs at another sorted position. */
  lemma {:induction false} AnagramAt(words: seq<string>, sorted: seq<string>, indexes: seq<int>, k: int, p: int)
    requires Placement(words, sorted, indexes) && Covering(|words|, indexes) && Injective(indexes)
    requires 0 <= k < |words| && 0 <= p < |indexes| && indexes[p] == k
    ensures HasAnagram(words, k) <==> exists q :: 0 <= q < |sorted| && q != p && sorted[q] == sorted[p]
  {
    if HasAnagram(words, k) {
      var j :| 0 <= j < |words| && j != k && multiset(words[j]) == multiset(words[k]);
      var q := PositionOf(|words|, indexes, j);
      SameSignatureIffAnagrams(words[j], words[k]);
      assert q != p && sorted[q] == sorted[p];
    }
    if q :| 0 <= q < |sorted| && q != p && sorted[q] == sorted[p] {
      var j := indexes[q];
      SameSignatureIffAnagrams(words[j], words[k]);
      if q < p {
        assert indexes[q] != indexes[p];
      } else {
        assert indexes[p] != indexes[q];
      }
    }
  }

  /** A word is in some group exactly when another word of the input is an anagram of it. */
  lemma {:induction false} GroupedIffHasAnagram(words: seq<string>, sorted: seq<string>, indexes: seq<int>,
                                                spans: seq<Span>, groups: seq<seq<string>>)
    requires Laid(words, indexes, spans, groups) && Placement(words, sorted, indexes) && Sorted(sorted)
    requires Covering(|words|, indexes) && Injective(indexes) && Distinct(words)
    requires forall p :: 0 <= p < |sorted| ==> (Covers(spans, p) <==> HasTwin(sorted, p))
    ensures forall k :: 0 <= k < |words| ==> (Grouped(groups, words[k]) <==> HasAnagram(words, k))
  {
    forall k | 0 <= k < |words| ensures Grouped(groups, words[k]) <==> HasAnagram(words, k) {
      var p := PositionOf(|words|, indexes, k);
      GroupedAt(words, indexes, spans, groups, k, p);
      AnagramAt(words, sorted, indexes, k, p);
      SortedTwin(sorted, p);
    }
  }

  /** No word is printed twice. */
  lemma {:induction false} GroupsDoNotRepeat(words: seq<string>, indexes: seq<int>,
                                             spans: seq<Span>, groups: seq<seq<string>>)
    requires Laid(words, indexes, spans, groups) && SpansInOrder(spans)
    requires Injective(indexes) && Distinct(words)
    ensures NoRepeats(groups)
  {
    forall a, b, t, u |
      && 0 <= a < |groups| && 0 <= b < |groups|
      && 0 <= t < |groups[a]| && 0 <= u < |groups[b]|
      && groups[a][t] == groups[b][u]
      ensures a == b && t == u
    {
      LineAt(words, indexes, spans, groups, a, t);
      LineAt(words, indexes, spans, groups, b, u);
      var p, q := spans[a].first + t, spans[b].first + u;
      SameWord(words, indexes[p], indexes[q]);
    }
  }

  /** The word at place t of group a has a smaller signature than the word at
      place u of a later group b. */
  lemma {:induction false} AscendAt(words: seq<string>, sorted: seq<string>, indexes: seq<int>,
                                    spans: seq<Span>, groups: seq<seq<string>>, a: int, b: int, t: int, u: int)
    requires Laid(words, indexes, spans, groups) && Placement(words, sorted, indexes) && AllMaximal(sorted, spans)
    requires SpansInOrder(spans) && Sorted(sorted)
    requires 0 <= a < b < |groups| && 0 <= t < |groups[a]| && 0 <= u < |groups[b]|
    ensures CompareTo(Signature(groups[a][t]), Signature(groups[b][u])) < 0
  {
    LineSignatureAt(words, sorted, indexes, spans, groups, a, t);
    LineSignatureAt(words, sorted, indexes, spans, groups, b, u);
    assert MaximalRun(sorted, spans[a]) && MaximalRun(sorted, spans[b]);
    SortedRunsAscend(sorted, spans[a], spans[b]);
  }

  /** Every word of an earlier group has a smaller signature under compareTo than
      every word of a later one. */
  lemma {:induction false} GroupsAscend(words: seq<string>, sorted: seq<string>, indexes: seq<int>,
                                        spans: seq<Span>, groups: seq<seq<string>>)
    requires Laid(words, indexes, spans, groups) && Placement(words, sorted, indexes) && AllMaximal(sorted, spans)
    requires SpansInOrder(spans) && Sorted(sorted)
    ensures forall a, b, v, w :: 0 <= a < b < |groups| && v in groups[a] && w in groups[b] ==>
      CompareTo(Signature(v), Signature(w)) < 0
  {
    forall a, b, v, w | 0 <= a < b < |groups| && v in groups[a] && w in groups[b]
      ensures CompareTo(Signature(v), Signature(w)) < 0
    {
      var t :| 0 <= t < |groups[a]| && groups[a][t] == v;
      var u :| 0 <= u < |groups[b]| && groups[b][u] == w;
      AscendAt(words, sorted, indexes, spans, groups, a, b, t, u);
    }
  }

  /** Two words of one group come in input order: the sort is stable. */
  lemma {:induction false} OrderInGroup(words: seq<string>, sorted: seq<string>, indexes: seq<int>,
                                        spans: seq<Span>, groups: seq<seq<string>>,
                                        a: int, t: int, u: int, i: int, j: int)
    requires Laid(words, indexes, spans, groups) && Placement(words, sorted, indexes) && AllMaximal(sorted, spans)
    requires Stable(sorted, indexes) && Distinct(words)
    requires 0 <= a < |groups| && 0 <= t < u < |groups[a]| && 0 <= i < |words| && 0 <= j < |words|
    requires groups[a][t] == words[i] && groups[a][u] == words[j]
    ensures i < j
  {
    var sp := spans[a];
    assert MaximalRun(sorted, sp);
    LineSignatureAt(words, sorted, indexes, spans, groups, a, t);
    LineSignatureAt(words, sorted, indexes, spans, groups, a, u);
    var p, q := sp.first + t, sp.first + u;
    assert sorted[p] == sorted[q];
    SameWord(words, i, indexes[p]);
    SameWord(words, j, indexes[q]);
  }

  /** Each group keeps its words in the order of the input. */
  lemma {:induction false} GroupsKeepInputOrder(words: seq<string>, sorted: seq<string>, indexes: seq<int>,
                                                spans: seq<Span>, groups: seq<seq<string>>)
    requires Laid(words, indexes, spans, groups) && Placement(words, sorted, indexes) && AllMaximal(sorted, spans)
    requires Stable(sorted, indexes) && Distinct(words)
    ensures forall g :: g in groups ==> InInputOrder(words, g)
  {
    forall g | g in groups ensures InInputOrder(words, g) {
      var a := IndexOf(groups, g);
      forall t, u, i, j |
        && 0 <= t < u < |g| && 0 <= i < |words| && 0 <= j < |words|
        && g[t] == words[i] && g[u] == words[j]
        ensures i < j
      {
        OrderInGroup(words, sorted, indexes, spans, groups, a, t, u, i, j);
      }
    }
  }

  /** The output findAnagrams promises for an input of distinct words, one group
      per printed line: every group holds at least two words of the input, all
      anagrams of each other, and every anagram of them; a word is printed exactly
      when the input has another anagram of it, and then exactly once; the groups
      come in ascending order of signature, each in input order. */
  ghost predicate AnagramGrouping(words: seq<string>, groups: seq<seq<string>>) {
    && (forall g :: g in groups ==> |g| >= 2)
    && (forall g, w :: g in groups && w in g ==> w in words)
    && (forall g, v, w :: g in groups && v in g && w in g ==> multiset(v) == multiset(w))
    && (forall a, t, k ::
         && 0 <= a < |groups| && 0 <= t < |groups[a]| && 0 <= k < |words|
         && multiset(words[k]) == multiset(groups[a][t])
         ==> words[k] in groups[a])
    && (forall k :: 0 <= k < |words| ==> (Grouped(groups, words[k]) <==> HasAnagram(words, k)))
    && NoRepeats(groups)
    && (forall a, b, v, w :: 0 <= a < b < |groups| && v in groups[a] && w in groups[b] ==>
         CompareTo(Signature(v), Signature(w)) < 0)
    && (forall g :: g in groups ==> InInputOrder(words, g))
    && (|words| <= 1 ==> groups == [])
  }

  /** The lines the grouping scan prints on the arrays sortWords leaves on the
      signatures of distinct words are an AnagramGrouping of the words. */
  lemma {:induction false} ScanFindsAnagrams(words: seq<string>, sorted: seq<string>, indexes: seq<int>,
                                             groups: seq<seq<string>>)
    requires StablySorted(Signatures(words), sorted, indexes) && Distinct(words)
    requires groups == Lines(Placed(words, indexes), Runs(sorted, 0))
    ensures AnagramGrouping(words, groups)
  {
    SortFacts(words, sorted, indexes);
    var spans := Runs(sorted, 0);
    RunsAreMaximal(sorted, 0);
    RunsInOrder(sorted, 0);
    RunsCoverTwins(sorted, 0);
    PrintedIsLaid(words, sorted, indexes, spans, groups);
    GroupsAreAnagrams(words, sorted, indexes, spans, groups);
    GroupsAreWholeClasses(words, sorted, indexes, spans, groups);
    GroupedIffHasAnagram(words, sorted, indexes, spans, groups);
    GroupsDoNotRepeat(words, indexes, spans, groups);
    GroupsAscend(words, sorted, indexes, spans, groups);
    GroupsKeepInputOrder(words, sorted, indexes, spans, groups);
  }

  /** Anagrams.findAnagrams, lines 64-81, with the file read replaced by the array
      of distinct words it produces and the writer by the returned groups, one
      group per printed line, in print order. */
  method FindAnagrams(words: array<string>) returns (groups: seq<seq<string>>)
    requires Distinct(words[..])
    ensures AnagramGrouping(words[..], groups)
  {
    var sortedChars := SortedChars(words);
    ghost var signatures := sortedChars[..];
    assert signatures == Signatures(words[..]);
    var indexes := SortWords(sortedChars);
    groups := ExtractGroups(words, sortedChars, indexes);
    ScanFindsAnagrams(words[..], sortedChars[..], indexes[..], groups);
  }
}
