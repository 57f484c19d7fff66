/**
 * The spell checker: a lexicon built from the dictionary's lines, a
 * membership test, and the four correction passes that collect the
 * lexicon words one edit away from a misspelled word.
 */
module Spelling {
  import opened Options
  import opened HashSets
  import opened Edits

  /** A fresh character array holding `word`, as String.toCharArray gives. */
  method ToCharArray(word: string) returns (a: array<char>)
    ensures fresh(a) && a[..] == word
  {
    a := new char[|word|](k => if 0 <= k < |word| then word[k] else ' ');
  }

  /** A fresh array of the list's length holding its elements, filled one by one. */
  method CopyToArray<T(0)>(list: seq<T>) returns (a: array<T>)
    ensures fresh(a) && a[..] == list
  {
    a := new T[|list|];
    var j := 0;
    while j < |list|
      modifies a
      invariant 0 <= j <= |list|
      invariant a[..j] == list[..j]
    {
      a[j] := list[j];
      j := j + 1;
    }
    assert a[..] == a[..j];
  }

  /** Exchanges a[i] and a[i + 1] through a temporary. */
  method SwapNeighbours(a: array<char>, i: int)
    requires 0 <= i && i + 1 < a.Length
    modifies a
    ensures a[..] == old(a[..])[i := old(a[i + 1])][i + 1 := old(a[i])]
  {
    var temp := a[i];
    a[i] := a[i + 1];
    a[i + 1] := temp;
  }

  /** A hash set sized for `lines` holding each line, added in order; an empty list gives a table of no buckets. */
  method MakeLexicon(lines: seq<string>, hash: string -> int) returns (lex: HashSet<string>)
    ensures fresh(lex.Repr) && lex.Valid()
    ensures lex.added == lines && lex.hash == hash
    ensures lex.table.Length == BucketCount(|lines|)
    ensures |lines| >= 1 ==> lex.table.Length >= 1
  {
    lex := new HashSet<string>(|lines|, hash);
    var i := 0;
    while i < |lines|
      invariant 0 <= i <= |lines|
      invariant fresh(lex.Repr) && lex.Valid()
      invariant lex.added == lines[..i] && lex.hash == hash
      invariant lex.table.Length == BucketCount(|lines|)
    {
      lex.Add(lines[i]);
      assert lines[..i + 1] == lines[..i] + [lines[i]];
      i := i + 1;
    }
    assert lines[..i] == lines;
  }

  class SpellChecker {
    /** The dictionary's lines, in file order. */
    const lines: seq<string>
    var lex: HashSet<string>
    /** Suggestions found so far for the word being fixed. */
    var corrections: seq<string>
    const alphabet: string := Alphabet

    /** The lexicon holds exactly the dictionary's lines and has at least one bucket. */
    ghost predicate LexValid()
      reads `lex, lex, lex.Repr
    {
      lex.Valid() && this !in lex.Repr &&
      lex.added == lines && lex.table.Length >= 1
    }

    /** Between calls no suggestion is pending. */
    ghost predicate Valid()
      reads `lex, `corrections, lex, lex.Repr
    {
      LexValid() && corrections == []
    }

    /**
     * Builds the lexicon from `dictionary`, the lines the dictionary file
     * holds. An empty dictionary would give a table of no buckets, and the
     * first lookup would divide by zero.
     */
    constructor (dictionary: seq<string>, hash: string -> int)
      requires |dictionary| >= 1
      ensures Valid() && lines == dictionary && lex.hash == hash
      ensures lex.table.Length == BucketCount(|dictionary|)
    {
      lines := dictionary;
      corrections := [];
      var lexicon := MakeLexicon(dictionary, hash);
      lex := lexicon;
    }

    /** A word is spelled correctly iff it is one of the dictionary's lines. */
    method WordValid(word: string) returns (ok: bool)
      requires LexValid()
      ensures ok <==> word in lines
    {
      var wordExist := lex.Get(Some(word));
      ok := wordExist != None;
    }

    /** Keeps `candidate` if the lexicon has it and it is not yet a correction. */
    method Consider(candidate: string)
      requires LexValid()
      modifies this`corrections
      ensures corrections == Record(old(corrections), candidate, lines)
    {
      var hit := lex.Get(Some(candidate));
      if hit != None && candidate !in corrections {
        corrections := corrections + [candidate];
      }
    }

    /**
     * All suggestions for `word`, or null when there are none. The four
     * passes run only on a nonempty word; the pending corrections are
     * cleared for the next call.
     */
    method WordFix(word: string) returns (fixes: array?<string>)
      requires Valid()
      modifies this`corrections
      ensures Valid()
      ensures fixes == null <==> Fixes(word, lines) == []
      ensures fixes != null ==> fresh(fixes) && fixes[..] == Fixes(word, lines)
    {
      if |word| >= 1 {
        AdjacentSwap(word);
        DeleteChar(word);
        InsertChar(word);
        ReplaceChar(word);
        PassesMakeFixes(word, lines);
      } else {
        EmptyWordHasNoFixes(lines);
      }
      if corrections == [] {
        return null;
      }
      fixes := CopyToArray(corrections);
      corrections := [];
    }

    /** Swaps each pair of neighbouring characters, looks the result up, and swaps back. */
    method AdjacentSwap(word: string)
      requires LexValid()
      modifies this`corrections
      ensures corrections == Collect(old(corrections), SwapCandidates(word), lines)
    {
      var charWord := ToCharArray(word);
      var i := 0;
      while i < |word| - 1
        invariant 0 <= i && (i == 0 || i < |word|) && (|word| >= 1 ==> i <= |word| - 1)
        invariant charWord[..] == word
        invariant corrections == Collect(old(corrections), Swaps(word, i), lines)
      {
        SwapIsUpdate(word, i);
        SwapNeighbours(charWord, i);
        var tempWord := charWord[..];
        Consider(tempWord);
        CollectSnoc(old(corrections), Swaps(word, i), tempWord, lines);
        SwapNeighbours(charWord, i);
        i := i + 1;
      }
    }

    /** Removes each character in turn from a list copy of the word, looks the rest up, and puts it back. */
    method DeleteChar(word: string)
      requires LexValid()
      modifies this`corrections
      ensures corrections == Collect(old(corrections), Deletions(word, |word|), lines)
    {
      var wordList := word;
      var i := 0;
      while i < |wordList|
        invariant 0 <= i <= |word| && wordList == word
        invariant corrections == Collect(old(corrections), Deletions(word, i), lines)
      {
        var temp := wordList[i];
        wordList := wordList[..i] + wordList[i + 1..];
        var returnCharWord := CopyToArray(wordList);
        var returnWord := returnCharWord[..];
        Consider(returnWord);
        CollectSnoc(old(corrections), Deletions(word, i), returnWord, lines);
        ReinsertDeleted(word, i);
        wordList := wordList[..i] + [temp] + wordList[i..];
        i := i + 1;
      }
    }

    /**
     * Inserts every letter at every position strictly between the first
     * and the last character, looking each result up.
     */
    method InsertChar(word: string)
      requires LexValid()
      modifies this`corrections
      ensures corrections == Collect(old(corrections), Insertions(word, |word|), lines)
    {
      var wordArray := ToCharArray(word);
      var wordList := word;
      var i := 1;
      while i < wordArray.Length
        invariant 1 <= i && (i <= |word| || i == 1)
        invariant wordArray.Length == |word| && wordList == word
        invariant corrections == Collect(old(corrections), Insertions(word, i), lines)
      {
        InsertLetters(wordList, i);
        CollectAppend(old(corrections), Insertions(word, i), InsertRow(word, i, |Alphabet|), lines);
        i := i + 1;
      }
    }

    /**
     * The inner loop of insertChar: inserts each letter at position i of
     * the list, looks the result up, and removes the letter again.
     */
    method InsertLetters(wordList: seq<char>, i: int)
      requires LexValid() && 1 <= i < |wordList|
      modifies this`corrections
      ensures corrections == Collect(old(corrections), InsertRow(wordList, i, |Alphabet|), lines)
    {
      var word := wordList;
      var j := 0;
      while j < |alphabet|
        invariant 0 <= j <= |alphabet| && word == wordList
        invariant corrections == Collect(old(corrections), InsertRow(wordList, i, j), lines)
      {
        word := word[..i] + [alphabet[j]] + word[i..];
        var returnCharWord := CopyToArray(word);
        var returnWord := returnCharWord[..];
        Consider(returnWord);
        CollectSnoc(old(corrections), InsertRow(wordList, i, j), returnWord, lines);
        RemoveInserted(wordList, i, alphabet[j]);
        word := word[..i] + word[i + 1..];
        j := j + 1;
      }
    }

    /** Overwrites each position with every letter in turn, looking each result up, then restores it. */
    method ReplaceChar(word: string)
      requires LexValid()
      modifies this`corrections
      ensures corrections == Collect(old(corrections), Replacements(word, |word|), lines)
    {
      var wordArray := ToCharArray(word);
      var i := 0;
      while i < wordArray.Length
        invariant 0 <= i <= |word| && wordArray.Length == |word|
        invariant wordArray[..] == word
        invariant corrections == Collect(old(corrections), Replacements(word, i), lines)
      {
        var temp := wordArray[i];
        ReplaceLetters(wordArray, i);
        wordArray[i] := temp;
        assert wordArray[..] == word;
        CollectAppend(old(corrections), Replacements(word, i), ReplaceRow(word, i, |Alphabet|), lines);
        i := i + 1;
      }
    }

    /**
     * The inner loop of replaceChar: overwrites position i with each letter
     * and looks the result up, leaving the last letter in place.
     */
    method ReplaceLetters(wordArray: array<char>, i: int)
      requires LexValid() && 0 <= i < wordArray.Length && wordArray !in lex.Repr
      modifies this`corrections, wordArray
      ensures corrections == Collect(old(corrections), ReplaceRow(old(wordArray[..]), i, |Alphabet|), lines)
      ensures wordArray[..] == old(wordArray[..])[i := Alphabet[|Alphabet| - 1]]
    {
      ghost var word := wordArray[..];
      var j := 0;
      while j < |alphabet|
        invariant 0 <= j <= |alphabet|
        invariant wordArray[..] == if j == 0 then word else ReplaceAt(word, i, Alphabet[j - 1])
        invariant corrections == Collect(old(corrections), ReplaceRow(word, i, j), lines)
      {
        ReplaceAgain(word, i, wordArray[i], alphabet[j]);
        wordArray[i] := alphabet[j];
        var returnWord := wordArray[..];
        Consider(returnWord);
        CollectSnoc(old(corrections), ReplaceRow(word, i, j), returnWord, lines);
        j := j + 1;
      }
      ReplaceAtIsUpdate(word, i, Alphabet[|Alphabet| - 1]);
    }
  }

  /** Fixing the same word twice gives the same suggestions: nothing carries over between calls. */
  method FixTwice(checker: SpellChecker, word: string) returns (first: array?<string>, second: array?<string>)
    requires checker.Valid()
    modifies checker`corrections
    ensures checker.Valid()
    ensures first == null <==> second == null
    ensures first != null && second != null ==> first[..] == second[..]
  {
    first := checker.WordFix(word);
    second := checker.WordFix(word);
  }
}
