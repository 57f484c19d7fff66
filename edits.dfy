/**
 * What the spell checker's four passes compute, stated on values: the
 * single-edit variants of a word in the order the passes try them, and the
 * deduplicating filter through the lexicon that turns them into suggestions.
 */
module Edits {

  /** The letters tried by insertion and substitution, in the order tried. */
  const Alphabet: string := "abcdefghijklmnopqrstuvwxyz"

  /** `w` with the characters at i and i+1 exchanged. */
  function SwapAt(w: string, i: int): (r: string)
    requires 0 <= i && i + 1 < |w|
    ensures |r| == |w| && r[i] == w[i + 1] && r[i + 1] == w[i]
    ensures forall k {:trigger r[k]} :: 0 <= k < |w| && k != i && k != i + 1 ==> r[k] == w[k]
  {
    w[..i] + [w[i + 1], w[i]] + w[i + 2..]
  }

  /** `w` without the character at i. */
  function DeleteAt(w: string, i: int): (r: string)
    requires 0 <= i < |w|
    ensures |r| == |w| - 1
    ensures forall k {:trigger r[k]} :: 0 <= k < i ==> r[k] == w[k]
    ensures forall k {:trigger r[k]} :: i <= k < |r| ==> r[k] == w[k + 1]
  {
    w[..i] + w[i + 1..]
  }

  /** `w` with `c` inserted before position i. */
  function InsertAt(w: string, i: int, c: char): (r: string)
    requires 0 <= i <= |w|
    ensures |r| == |w| + 1 && r[i] == c
    ensures forall k {:trigger r[k]} :: 0 <= k < i ==> r[k] == w[k]
    ensures forall k {:trigger r[k]} :: i < k < |r| ==> r[k] == w[k - 1]
  {
    w[..i] + [c] + w[i..]
  }

  /** `w` with the character at i replaced by `c`. */
  function ReplaceAt(w: string, i: int, c: char): (r: string)
    requires 0 <= i < |w|
    ensures |r| == |w| && r[i] == c
    ensures forall k {:trigger r[k]} :: 0 <= k < |w| && k != i ==> r[k] == w[k]
  {
    w[..i] + [c] + w[i + 1..]
  }

  /** Removing the inserted character gives the word back. */
  lemma RemoveInserted(w: string, i: int, c: char)
    requires 0 <= i <= |w|
    ensures InsertAt(w, i, c)[..i] + InsertAt(w, i, c)[i + 1..] == w
  {
    var r := InsertAt(w, i, c);
    assert r[..i] == w[..i] && r[i + 1..] == w[i..];
  }

  /** Swapping is two updates, and swapping the same pair again restores the word. */
  lemma SwapIsUpdate(w: string, i: int)
    requires 0 <= i && i + 1 < |w|
    ensures SwapAt(w, i) == w[i := w[i + 1]][i + 1 := w[i]]
    ensures SwapAt(w, i)[i := w[i]][i + 1 := w[i + 1]] == w
  {
    assert SwapAt(w, i)[i := w[i]][i + 1 := w[i + 1]] == w[i := w[i]][i + 1 := w[i + 1]];
  }

  /** Replacing a character is updating the sequence at that index. */
  lemma ReplaceAtIsUpdate(w: string, i: int, c: char)
    requires 0 <= i < |w|
    ensures ReplaceAt(w, i, c) == w[i := c]
  {
  }

  /** Overwriting position i again replaces the earlier replacement. */
  lemma ReplaceAgain(w: string, i: int, b: char, c: char)
    requires 0 <= i < |w|
    ensures w[i := b][i := c] == ReplaceAt(w, i, c)
  {
    ReplaceAtIsUpdate(w, i, c);
  }

  /** Putting the deleted character back gives the word back. */
  lemma ReinsertDeleted(w: string, i: int)
    requires 0 <= i < |w|
    ensures DeleteAt(w, i)[..i] + [w[i]] + DeleteAt(w, i)[i..] == w
  {
    var r := DeleteAt(w, i);
    assert r[..i] == w[..i] && r[i..] == w[i + 1..];
  }

  // The candidate lists, one per pass, each built in the order its loops run.

  /** Swaps at positions 0 .. n-1. */
  function Swaps(w: string, n: int): (r: seq<string>)
    requires 0 <= n && (n == 0 || n < |w|)
  {
    if n == 0 then [] else Swaps(w, n - 1) + [SwapAt(w, n - 1)]
  }

  /** Deletions at positions 0 .. n-1. */
  function Deletions(w: string, n: int): (r: seq<string>)
    requires 0 <= n <= |w|
  {
    if n == 0 then [] else Deletions(w, n - 1) + [DeleteAt(w, n - 1)]
  }

  /** Insertions at position i of the first n letters. */
  function InsertRow(w: string, i: int, n: int): (r: seq<string>)
    requires 0 <= i <= |w| && 0 <= n <= |Alphabet|
  {
    if n == 0 then [] else InsertRow(w, i, n - 1) + [InsertAt(w, i, Alphabet[n - 1])]
  }

  /** Insertions of every letter at the interior positions 1 .. m-1. */
  function Insertions(w: string, m: int): (r: seq<string>)
    requires 0 <= m && (m <= 1 || m <= |w|)
  {
    if m <= 1 then [] else Insertions(w, m - 1) + InsertRow(w, m - 1, |Alphabet|)
  }

  /** Substitutions at position i by the first n letters. */
  function ReplaceRow(w: string, i: int, n: int): (r: seq<string>)
    requires 0 <= i < |w| && 0 <= n <= |Alphabet|
  {
    if n == 0 then [] else ReplaceRow(w, i, n - 1) + [ReplaceAt(w, i, Alphabet[n - 1])]
  }

  /** Substitutions of every letter at positions 0 .. m-1. */
  function Replacements(w: string, m: int): (r: seq<string>)
    requires 0 <= m <= |w|
  {
    if m == 0 then [] else Replacements(w, m - 1) + ReplaceRow(w, m - 1, |Alphabet|)
  }

  function SwapCandidates(w: string): (r: seq<string>) {
    Swaps(w, if |w| == 0 then 0 else |w| - 1)
  }

  /** Every string the four passes look up, in the order they look them up. */
  function Candidates(w: string): (r: seq<string>) {
    SwapCandidates(w) + Deletions(w, |w|) + Insertions(w, |w|) + Replacements(w, |w|)
  }

  // The four kinds of single edit, stated independently of the enumeration.

  ghost predicate IsSwap(w: string, c: string) {
    exists i :: 0 <= i && i + 1 < |w| && c == SwapAt(w, i)
  }

  ghost predicate IsDeletion(w: string, c: string) {
    exists i :: 0 <= i < |w| && c == DeleteAt(w, i)
  }

  /** `c` is `w` with some letter inserted before position i. */
  ghost predicate InsertsLetterAt(w: string, i: int, c: string)
    requires 0 <= i <= |w|
  {
    exists ch :: ch in Alphabet && c == InsertAt(w, i, ch)
  }

  /** Insertion is tried only at interior positions, never before the first or after the last character. */
  ghost predicate IsInsertion(w: string, c: string) {
    exists i :: 1 <= i < |w| && InsertsLetterAt(w, i, c)
  }

  /** `c` is `w` with the character at i replaced by some letter. */
  ghost predicate ReplacesLetterAt(w: string, i: int, c: string)
    requires 0 <= i < |w|
  {
    exists ch :: ch in Alphabet && c == ReplaceAt(w, i, ch)
  }

  ghost predicate IsReplacement(w: string, c: string) {
    exists i :: 0 <= i < |w| && ReplacesLetterAt(w, i, c)
  }

  ghost predicate IsEdit(w: string, c: string) {
    IsSwap(w, c) || IsDeletion(w, c) || IsInsertion(w, c) || IsReplacement(w, c)
  }

  // Accumulating the hits.

  /** One lookup: keep `c` if the lexicon has it and it was not kept before. */
  function Record(found: seq<string>, c: string, lexicon: seq<string>): (r: seq<string>) {
    if c in lexicon && c !in found then found + [c] else found
  }

  /** Record every candidate in turn. */
  function Collect(found: seq<string>, cands: seq<string>, lexicon: seq<string>): (r: seq<string>)
    decreases |cands|
  {
    if cands == [] then found
    else Record(Collect(found, cands[..|cands| - 1], lexicon), cands[|cands| - 1], lexicon)
  }

  /** The suggestions for `word`, in discovery order. */
  function Fixes(word: string, lexicon: seq<string>): (r: seq<string>) {
    Collect([], Candidates(word), lexicon)
  }

  ghost predicate Distinct(s: seq<string>) {
    forall i, j :: 0 <= i < j < |s| ==> s[i] != s[j]
  }

  /** Each element of `r` first occurs in `s` before every later element of `r` does. */
  ghost predicate InDiscoveryOrder(r: seq<string>, s: seq<string>) {
    forall i, j, k :: 0 <= i < j < |r| && 0 <= k < |s| && s[k] == r[j] ==> r[i] in s[..k]
  }

  // Membership in each pass's candidate list.

  /** The n-th swap candidate swaps at position n. */
  lemma {:induction false} SwapsIndex(w: string, n: int)
    requires 0 <= n && (n == 0 || n < |w|)
    ensures |Swaps(w, n)| == n
    ensures forall i :: 0 <= i < n ==> Swaps(w, n)[i] == SwapAt(w, i)
  {
    if n > 0 {
      SwapsIndex(w, n - 1);
    }
  }

  lemma SwapsMembers(w: string, n: int, c: string)
    requires 0 <= n && (n == 0 || n < |w|)
    ensures c in Swaps(w, n) <==> exists i :: 0 <= i < n && c == SwapAt(w, i)
  {
    SwapsIndex(w, n);
  }

  /** The n-th deletion candidate deletes position n. */
  lemma {:induction false} DeletionsIndex(w: string, n: int)
    requires 0 <= n <= |w|
    ensures |Deletions(w, n)| == n
    ensures forall i :: 0 <= i < n ==> Deletions(w, n)[i] == DeleteAt(w, i)
  {
    if n > 0 {
      DeletionsIndex(w, n - 1);
    }
  }

  lemma DeletionsMembers(w: string, n: int, c: string)
    requires 0 <= n <= |w|
    ensures c in Deletions(w, n) <==> exists i :: 0 <= i < n && c == DeleteAt(w, i)
  {
    DeletionsIndex(w, n);
  }

  /** The j-th candidate of an insertion row inserts the j-th letter. */
  lemma {:induction false} InsertRowIndex(w: string, i: int, n: int)
    requires 0 <= i <= |w| && 0 <= n <= |Alphabet|
    ensures |InsertRow(w, i, n)| == n
    ensures forall j :: 0 <= j < n ==> InsertRow(w, i, n)[j] == InsertAt(w, i, Alphabet[j])
  {
    if n > 0 {
      InsertRowIndex(w, i, n - 1);
    }
  }

  lemma InsertRowMembers(w: string, i: int, n: int, c: string)
    requires 0 <= i <= |w| && 0 <= n <= |Alphabet|
    ensures c in InsertRow(w, i, n) <==> exists j :: 0 <= j < n && c == InsertAt(w, i, Alphabet[j])
  {
    InsertRowIndex(w, i, n);
  }

  /** A full insertion row holds exactly the insertions of some letter at that position. */
  lemma InsertRowLetters(w: string, i: int, c: string)
    requires 0 <= i <= |w|
    ensures c in InsertRow(w, i, |Alphabet|) <==> InsertsLetterAt(w, i, c)
  {
    InsertRowMembers(w, i, |Alphabet|, c);
    if c in InsertRow(w, i, |Alphabet|) {
      var j :| 0 <= j < |Alphabet| && c == InsertAt(w, i, Alphabet[j]);
      assert Alphabet[j] in Alphabet;
    }
    if InsertsLetterAt(w, i, c) {
      var ch :| ch in Alphabet && c == InsertAt(w, i, ch);
      var j :| 0 <= j < |Alphabet| && Alphabet[j] == ch;
    }
  }

  lemma {:induction false} InsertionsMembers(w: string, m: int, c: string)
    requires 0 <= m && (m <= 1 || m <= |w|)
    ensures c in Insertions(w, m) <==> exists i :: 1 <= i < m && InsertsLetterAt(w, i, c)
  {
    if m > 1 {
      InsertionsMembers(w, m - 1, c);
      InsertRowLetters(w, m - 1, c);
    }
  }

  /** The j-th candidate of a substitution row puts the j-th letter in place. */
  lemma {:induction false} ReplaceRowIndex(w: string, i: int, n: int)
    requires 0 <= i < |w| && 0 <= n <= |Alphabet|
    ensures |ReplaceRow(w, i, n)| == n
    ensures forall j :: 0 <= j < n ==> ReplaceRow(w, i, n)[j] == ReplaceAt(w, i, Alphabet[j])
  {
    if n > 0 {
      ReplaceRowIndex(w, i, n - 1);
    }
  }

  lemma ReplaceRowMembers(w: string, i: int, n: int, c: string)
    requires 0 <= i < |w| && 0 <= n <= |Alphabet|
    ensures c in ReplaceRow(w, i, n) <==> exists j :: 0 <= j < n && c == ReplaceAt(w, i, Alphabet[j])
  {
    ReplaceRowIndex(w, i, n);
  }

  /** A full substitution row holds exactly the substitutions of some letter at that position. */
  lemma ReplaceRowLetters(w: string, i: int, c: string)
    requires 0 <= i < |w|
    ensures c in ReplaceRow(w, i, |Alphabet|) <==> ReplacesLetterAt(w, i, c)
  {
    ReplaceRowMembers(w, i, |Alphabet|, c);
    if c in ReplaceRow(w, i, |Alphabet|) {
      var j :| 0 <= j < |Alphabet| && c == ReplaceAt(w, i, Alphabet[j]);
      assert Alphabet[j] in Alphabet;
    }
    if ReplacesLetterAt(w, i, c) {
      var ch :| ch in Alphabet && c == ReplaceAt(w, i, ch);
      var j :| 0 <= j < |Alphabet| && Alphabet[j] == ch;
    }
  }

  lemma {:induction false} ReplacementsMembers(w: string, m: int, c: string)
    requires 0 <= m <= |w|
    ensures c in Replacements(w, m) <==> exists i :: 0 <= i < m && ReplacesLetterAt(w, i, c)
  {
    if m > 0 {
      ReplacementsMembers(w, m - 1, c);
      ReplaceRowLetters(w, m - 1, c);
    }
  }

  /** The passes look up exactly the single edits of the word. */
  lemma CandidatesAreEdits(w: string, c: string)
    ensures c in Candidates(w) <==> IsEdit(w, c)
  {
    SwapsMembers(w, if |w| == 0 then 0 else |w| - 1, c);
    DeletionsMembers(w, |w|, c);
    InsertionsMembers(w, |w|, c);
    ReplacementsMembers(w, |w|, c);
  }

  // Properties of the accumulation.

  /** Running the passes one after another is running them over the concatenated candidates. */
  lemma {:induction false} CollectAppend(found: seq<string>, s: seq<string>, t: seq<string>, lexicon: seq<string>)
    ensures Collect(found, s + t, lexicon) == Collect(Collect(found, s, lexicon), t, lexicon)
    decreases |t|
  {
    if t == [] {
      assert s + t == s;
    } else {
      var init := t[..|t| - 1];
      CollectAppend(found, s, init, lexicon);
      assert (s + t)[..|s + t| - 1] == s + init;
    }
  }

  /** One more lookup after a run of lookups. */
  lemma CollectSnoc(found: seq<string>, s: seq<string>, x: string, lexicon: seq<string>)
    ensures Collect(found, s + [x], lexicon) == Record(Collect(found, s, lexicon), x, lexicon)
  {
    assert (s + [x])[..|s|] == s;
  }

  /** The four passes run one after another, starting with no suggestions, yield the suggestions. */
  lemma PassesMakeFixes(w: string, lexicon: seq<string>)
    ensures Collect(Collect(Collect(Collect([], SwapCandidates(w), lexicon), Deletions(w, |w|), lexicon),
                            Insertions(w, |w|), lexicon), Replacements(w, |w|), lexicon)
         == Fixes(w, lexicon)
  {
    var s, d := SwapCandidates(w), Deletions(w, |w|);
    var n, r := Insertions(w, |w|), Replacements(w, |w|);
    CollectAppend([], s, d, lexicon);
    CollectAppend([], s + d, n, lexicon);
    CollectAppend([], s + d + n, r, lexicon);
  }

  /** A string is kept iff it was kept already or is a candidate in the lexicon. */
  lemma {:induction false} CollectMembers(found: seq<string>, cands: seq<string>, lexicon: seq<string>, x: string)
    ensures x in Collect(found, cands, lexicon) <==> x in found || (x in cands && x in lexicon)
    decreases |cands|
  {
    if cands != [] {
      var init := cands[..|cands| - 1];
      CollectMembers(found, init, lexicon, x);
      assert cands == init + [cands[|cands| - 1]];
    }
  }

  /** Nothing is kept twice. */
  lemma {:induction false} CollectDistinct(found: seq<string>, cands: seq<string>, lexicon: seq<string>)
    requires Distinct(found)
    ensures Distinct(Collect(found, cands, lexicon))
    decreases |cands|
  {
    if cands != [] {
      CollectDistinct(found, cands[..|cands| - 1], lexicon);
    }
  }

  /** Starting from nothing, the kept strings come in the order of their first lookup. */
  lemma {:induction false} CollectInDiscoveryOrder(cands: seq<string>, lexicon: seq<string>)
    ensures InDiscoveryOrder(Collect([], cands, lexicon), cands)
    decreases |cands|
  {
    if cands != [] {
      var init, x := cands[..|cands| - 1], cands[|cands| - 1];
      var r := Collect([], init, lexicon);
      var r' := Collect([], cands, lexicon);
      CollectInDiscoveryOrder(init, lexicon);
      assert cands == init + [x];
      forall y | y in r
        ensures y in init
      {
        CollectMembers([], init, lexicon, y);
      }
      if x in lexicon && x !in r {
        CollectMembers([], init, lexicon, x);
        assert x !in init;
      }
      forall i, j, k | 0 <= i < j < |r'| && 0 <= k < |cands| && cands[k] == r'[j]
        ensures r'[i] in cands[..k]
      {
        assert cands[..k] == init[..k] || k == |init|;
        if k < |init| {
          assert cands[..k] == init[..k];
          assert init[k] == cands[k];
        } else {
          assert cands[..k] == init;
          assert r'[i] in r;
        }
      }
    }
  }

  // What the suggestions are.

  /** Sound and complete: a string is suggested iff it is in the lexicon and one edit away. */
  lemma FixesAreLexiconEdits(word: string, lexicon: seq<string>, c: string)
    ensures c in Fixes(word, lexicon) <==> c in lexicon && IsEdit(word, c)
  {
    CollectMembers([], Candidates(word), lexicon, c);
    CandidatesAreEdits(word, c);
  }

  lemma FixesDistinct(word: string, lexicon: seq<string>)
    ensures Distinct(Fixes(word, lexicon))
  {
    CollectDistinct([], Candidates(word), lexicon);
  }

  /** Suggestions come swap first, then deletion, insertion, substitution; positions ascend, letters run a to z. */
  lemma FixesInDiscoveryOrder(word: string, lexicon: seq<string>)
    ensures InDiscoveryOrder(Fixes(word, lexicon), Candidates(word))
  {
    CollectInDiscoveryOrder(Candidates(word), lexicon);
  }

  /** An empty word has no single edit that the passes try. */
  lemma EmptyWordHasNoFixes(lexicon: seq<string>)
    ensures Fixes("", lexicon) == []
  {
    assert Candidates("") == [];
  }

  /**
   * Substitution also tries the letter already in place, so a word that is
   * itself in the lexicon is suggested for itself whenever one of its
   * characters is a lowercase letter.
   */
  lemma KnownWordSuggestsItself(word: string, lexicon: seq<string>, i: int)
    requires 0 <= i < |word| && word[i] in Alphabet && word in lexicon
    ensures word in Fixes(word, lexicon)
  {
    assert ReplaceAt(word, i, word[i]) == word;
    assert ReplacesLetterAt(word, i, word);
    assert IsReplacement(word, word);
    FixesAreLexiconEdits(word, lexicon, word);
  }

  /** A duplicate-free sequence has as many elements as its set of elements. */
  lemma {:induction false} DistinctCardinality(r: seq<string>)
    requires Distinct(r)
    ensures |set x | x in r| == |r|
  {
    if r != [] {
      var tail := r[1..];
      assert Distinct(tail) by {
        forall i, j | 0 <= i < j < |tail|
          ensures tail[i] != tail[j]
        {
          assert tail[i] == r[i + 1] && tail[j] == r[j + 1];
        }
      }
      DistinctCardinality(tail);
      assert r[0] !in tail by {
        forall k | 0 <= k < |tail|
          ensures tail[k] != r[0]
        {
          assert tail[k] == r[k + 1];
        }
      }
      assert r == [r[0]] + tail;
      assert (set x | x in r) == {r[0]} + (set x | x in tail);
    }
  }

  /** A duplicate-free, nonempty sequence whose every element is `c` is exactly [c]. */
  lemma DistinctConstant(r: seq<string>, c: string)
    requires Distinct(r) && r != []
    requires forall k :: 0 <= k < |r| ==> r[k] == c
    ensures r == [c]
  {
    DistinctCardinality(r);
    assert (set x | x in r) == {c};
  }

  /** When exactly one lexicon word is a single edit away, it is the only suggestion. */
  lemma OnlySuggestion(word: string, lexicon: seq<string>, c: string)
    requires c in lexicon && IsEdit(word, c)
    requires forall d :: d in lexicon && IsEdit(word, d) ==> d == c
    ensures Fixes(word, lexicon) == [c]
  {
    var r := Fixes(word, lexicon);
    forall k | 0 <= k < |r|
      ensures r[k] == c
    {
      FixesAreLexiconEdits(word, lexicon, r[k]);
    }
    FixesAreLexiconEdits(word, lexicon, c);
    FixesDistinct(word, lexicon);
    DistinctConstant(r, c);
  }

  /** A transposition repairs "cta"; "cats" would need an insertion after the last letter. */
  lemma TranspositionExample()
    ensures Fixes("cta", ["cat", "cats", "cut", "bat"]) == ["cat"]
  {
    var w := "cta";
    assert SwapAt(w, 1) == "cat";
    forall d | d in ["cats", "cut", "bat"]
      ensures !IsEdit(w, d)
    {
      if d == "cats" {
        forall i | 1 <= i < |w|
          ensures !InsertsLetterAt(w, i, d)
        {
          forall ch | ch in Alphabet
            ensures d != InsertAt(w, i, ch)
          {
            assert InsertAt(w, i, ch)[3] == 'a';
          }
        }
      } else {
        forall i | 0 <= i < |w|
          ensures !ReplacesLetterAt(w, i, d)
        {
          forall ch | ch in Alphabet
            ensures d != ReplaceAt(w, i, ch)
          {
            if i == 0 {
              assert ReplaceAt(w, i, ch)[1] == 't';
            } else {
              assert ReplaceAt(w, i, ch)[0] == 'c';
              assert ReplaceAt(w, i, ch)[1] == 't' || ReplaceAt(w, i, ch)[2] == 'a';
            }
          }
        }
      }
    }
    OnlySuggestion(w, ["cat", "cats", "cut", "bat"], "cat");
  }

  /** An insertion at an interior position repairs "helo". */
  lemma InsertionExample()
    ensures Fixes("helo", ["hello"]) == ["hello"]
  {
    assert InsertAt("helo", 3, 'l') == "hello";
    assert 'l' == Alphabet[11];
    assert InsertsLetterAt("helo", 3, "hello");
    assert IsInsertion("helo", "hello");
    OnlySuggestion("helo", ["hello"], "hello");
  }

  /**
   * Insertion is never tried after the last character, so "cats" is not
   * suggested for "cat" although it is one insertion away.
   */
  lemma NoInsertionAtEnd()
    ensures InsertAt("cat", 3, 's') == "cats"
    ensures Fixes("cat", ["cats"]) == []
  {
    var w := "cat";
    forall i | 1 <= i < |w|
      ensures !InsertsLetterAt(w, i, "cats")
    {
      forall ch | ch in Alphabet
        ensures "cats" != InsertAt(w, i, ch)
      {
        assert InsertAt(w, i, ch)[3] == 't';
      }
    }
    FixesAreLexiconEdits(w, ["cats"], "cats");
    var r := Fixes(w, ["cats"]);
    if r != [] {
      FixesAreLexiconEdits(w, ["cats"], r[0]);
    }
  }
}
