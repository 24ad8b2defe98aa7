/** The canonical anagram signature of a word: its chars in ascending order
    (Anagrams.sortedWord), and the array of signatures of all words
    (Anagrams.sortedChars). */
module SignatureBuilder {

  /** Chars in ascending order of their values. */
  ghost predicate Ascending(s: string) {
    forall p, q :: 0 <= p < q < |s| ==> s[p] <= s[q]
  }

  /** `s` with `c` put in front of the first char of `s` strictly greater than `c`. */
  ghost function Insert(s: string, c: char): string {
    if s == [] || c < s[0] then [c] + s else [s[0]] + Insert(s[1..], c)
  }

  /** The signature: the word's chars inserted one by one, left to right, into an
      initially empty buffer. */
  ghost function Signature(w: string): string {
    if w == [] then [] else Insert(Signature(w[..|w| - 1]), w[|w| - 1])
  }

  /** Inserting at `j`, the first place holding a char strictly greater than `c`,
      is what Insert does. */
  lemma {:induction false} InsertAt(s: string, c: char, j: nat)
    requires j <= |s|
    requires forall k :: 0 <= k < j ==> !(c < s[k])
    requires j == |s| || c < s[j]
    ensures Insert(s, c) == s[..j] + [c] + s[j..]
  {
    if j > 0 {
      InsertAt(s[1..], c, j - 1);
      assert s[1..][..j - 1] == s[1..j];
      assert s[..j] == [s[0]] + s[1..j];
    }
  }

  /** Dropping the first char keeps a string ascending. */
  lemma {:induction false} AscendingTail(s: string)
    requires s != [] && Ascending(s)
    ensures Ascending(s[1..])
  {
    forall p, q | 0 <= p < q < |s| - 1 ensures s[1..][p] <= s[1..][q] {
      assert s[1..][p] == s[p + 1] && s[1..][q] == s[q + 1];
    }
  }

  /** Insertion adds exactly `c` to the buffer's chars. */
  lemma {:induction false} InsertAddsChar(s: string, c: char)
    ensures multiset(Insert(s, c)) == multiset(s) + multiset{c}
  {
    if s != [] && !(c < s[0]) {
      InsertAddsChar(s[1..], c);
      assert s == [s[0]] + s[1..];
    }
  }

  /** A char no greater than any char of an ascending string can go in front of it. */
  lemma {:induction false} ConsAscending(x: char, t: string)
    requires Ascending(t)
    requires forall y :: y in t ==> x <= y
    ensures Ascending([x] + t)
  {
    var r := [x] + t;
    forall p, q | 0 <= p < q < |r| ensures r[p] <= r[q] {
      if p > 0 {
        assert r[p] == t[p - 1] && r[q] == t[q - 1];
      } else {
        assert r[q] in t;
      }
    }
  }

  /** Insertion keeps an ascending buffer ascending. */
  lemma {:induction false} InsertKeepsAscending(s: string, c: char)
    requires Ascending(s)
    ensures Ascending(Insert(s, c))
  {
    if s == [] || c < s[0] {
      forall y | y in s ensures c <= y {
        var k :| 0 <= k < |s| && s[k] == y;
        assert s[0] <= s[k];
      }
      ConsAscending(c, s);
    } else {
      var tail := s[1..];
      AscendingTail(s);
      InsertKeepsAscending(tail, c);
      InsertAddsChar(tail, c);
      var t := Insert(tail, c);
      forall x | x in t ensures s[0] <= x {
        assert x in multiset(tail) + multiset{c} by {
          assert x in multiset(t);
        }
        if x != c {
          var k :| 0 <= k < |tail| && tail[k] == x;
          assert s[k + 1] == x;
        }
      }
      ConsAscending(s[0], t);
    }
  }

  /** The signature is the word's chars, rearranged into ascending order. */
  lemma {:induction false} SignatureIsSortedPermutation(w: string)
    ensures Ascending(Signature(w))
    ensures multiset(Signature(w)) == multiset(w)
    ensures |Signature(w)| == |w|
  {
    if w != [] {
      var init := w[..|w| - 1];
      SignatureIsSortedPermutation(init);
      InsertKeepsAscending(Signature(init), w[|w| - 1]);
      InsertAddsChar(Signature(init), w[|w| - 1]);
      assert w == init + [w[|w| - 1]];
    }
  }

  /** The first char of an ascending string is its smallest: no greater than the
      first char of any string with the same chars. */
  lemma {:induction false} HeadIsLeast(a: string, b: string)
    requires Ascending(a) && a != [] && b != []
    requires multiset(a) == multiset(b)
    ensures a[0] <= b[0]
  {
    assert b[0] in multiset(a);
    var j :| 0 <= j < |a| && a[j] == b[0];
    assert a[0] <= a[j];
  }

  /** Dropping the first element removes one occurrence of it. */
  lemma {:induction false} MultisetTail<T>(s: seq<T>)
    requires s != []
    ensures multiset(s[1..]) == multiset(s) - multiset{s[0]}
  {
    assert s == [s[0]] + s[1..];
  }

  /** Two ascending strings with the same chars are the same string. */
  lemma {:induction false} AscendingUnique(a: string, b: string)
    requires Ascending(a) && Ascending(b)
    requires multiset(a) == multiset(b)
    ensures a == b
    decreases |a|
  {
    if a == [] || b == [] {
      assert |a| == |multiset(a)| == |multiset(b)| == |b|;
    } else {
      HeadIsLeast(a, b);
      HeadIsLeast(b, a);
      MultisetTail(a);
      MultisetTail(b);
      AscendingTail(a);
      AscendingTail(b);
      AscendingUnique(a[1..], b[1..]);
      assert a == [a[0]] + a[1..] && b == [b[0]] + b[1..];
    }
  }

  /** A string already in ascending order is its own signature. */
  lemma {:induction false} SignatureOfAscending(s: string)
    requires Ascending(s)
    ensures Signature(s) == s
  {
    SignatureIsSortedPermutation(s);
    AscendingUnique(Signature(s), s);
  }

  /** Two words have the same signature exactly when they are anagrams: the same
      chars with the same multiplicities, compared case-sensitively by value. */
  lemma {:induction false} SameSignatureIffAnagrams(w1: string, w2: string)
    ensures Signature(w1) == Signature(w2) <==> multiset(w1) == multiset(w2)
  {
    SignatureIsSortedPermutation(w1);
    SignatureIsSortedPermutation(w2);
    if multiset(w1) == multiset(w2) {
      AscendingUnique(Signature(w1), Signature(w2));
    }
  }

  /** Taking the signature of a signature changes nothing. */
  lemma {:induction false} SignatureIdempotent(w: string)
    ensures Signature(Signature(w)) == Signature(w)
  {
    SignatureIsSortedPermutation(w);
    SignatureOfAscending(Signature(w));
  }

  /** Anagrams.sortedWord: insertion sort of the word's chars into a growing
      buffer, each char going in front of the first strictly greater one. */
  method SortedWord(word: string) returns (sorted: string)
    ensures sorted == Signature(word)
    ensures Ascending(sorted) && multiset(sorted) == multiset(word)
  {
    sorted := [];
    var i := 0;
    while i < |word|
      invariant 0 <= i <= |word|
      invariant sorted == Signature(word[..i])
    {
      var c := word[i];
      var j := 0;
      while j < |sorted|
        invariant 0 <= j <= |sorted|
        invariant forall k :: 0 <= k < j ==> !(c < sorted[k])
      {
        if c < sorted[j] {
          break;
        }
        j := j + 1;
      }
      InsertAt(sorted, c, j);
      assert word[..i + 1][..i] == word[..i];
      sorted := sorted[..j] + [c] + sorted[j..];
      i := i + 1;
    }
    assert word[..i] == word;
    SignatureIsSortedPermutation(word);
  }

  /** Anagrams.sortedChars: a new array holding the signature of every word. */
  method SortedChars(words: array<string>) returns (sortedChar: array<string>)
    ensures fresh(sortedChar) && sortedChar.Length == words.Length
    ensures forall k :: 0 <= k < words.Length ==> sortedChar[k] == Signature(words[k])
  {
    sortedChar := new string[words.Length];
    var i := 0;
    while i < sortedChar.Length
      invariant 0 <= i <= sortedChar.Length
      invariant forall k :: 0 <= k < i ==> sortedChar[k] == Signature(words[k])
    {
      var s := SortedWord(words[i]);
      sortedChar[i] := s;
      i := i + 1;
    }
  }
}
