# SpellChecker in Dafny

A verified model of the core of the SpellChecker program. Three pieces make it up.

- **The linked list** (`MyNode`, `MyLinkList`). It is singly linked and headed by a sentinel. The first `add` creates a head node that never counts as data, so data index 0 is the node after the head. `size()` is a counter kept by the updates.
- **The hash set** (`MyHashSet`). It is a fixed table of linked lists, sized once to the integer nearest 4n/3 for n expected entries. An element goes into bucket `mod(hashCode, length)`, and duplicates are not suppressed.
- **The spell checker** (`SpellChecker`). It builds a lexicon from the dictionary's lines. `wordValid` is a membership test in that lexicon. `wordFix` runs four passes over a word, in this order:
  - swapping neighbouring characters;
  - deleting one character;
  - inserting a letter a–z strictly inside the word;
  - replacing one character by a letter a–z.

  Each pass keeps the lexicon hits that were not kept before.

Files:
- `options.dfy` (module `Options`): `Option`, which stands for Java's `null`.
- `nodes.dfy` (module `Nodes`): the `Node` class.
- `linklist.dfy` (module `LinkLists`): the `LinkList` and `ListIterator` classes.
  - Each list carries a ghost node chain `nodes`, whose first node is the head.
  - `Contents` holds the data elements.
  - `Repr` is the footprint.
- `hashset.dfy` (module `HashSets`):
  - `Mod` and `BucketCount`;
  - `InBucket`, the insertion-order content of one bucket;
  - the `HashSet` class, with a ghost `added` sequence.
- `edits.dfy` (module `Edits`): the specification of `wordFix`, stated on values.
  - The single edits, and each pass's candidate list in the order its loops run.
  - `Record`/`Collect`, the deduplicating lookup.
  - `Fixes(word, lexicon)`.
  - Lemmas that characterise `Fixes` as exactly the lexicon words one edit away, duplicate-free and in discovery order.
- `spellchecker.dfy` (module `Spelling`): the `SpellChecker` class.
  - Its passes are imperative methods over character arrays and lists.
  - Each pass is proved to extend `corrections` by `Collect` over its candidate list.
  - `WordFix` is proved to return exactly `Fixes(word, lines)`.

## Model

| member | source | states |
|---|---|---|
| Nodes.Node.constructor | src/spellchecker/MyNode.java:43-46 | a new node holds the given data and has no successor |
| Nodes.Node.WithNext | src/spellchecker/MyNode.java:54-58 | a new node holds the given data and links to the given node |
| Nodes.Node.GetData | src/spellchecker/MyNode.java:65-67 | returns the current data and changes nothing |
| Nodes.Node.SetData | src/spellchecker/MyNode.java:74-76 | only `data` changes; `next` is unchanged |
| Nodes.Node.GetNext | src/spellchecker/MyNode.java:83-85 | returns the current successor and changes nothing |
| Nodes.Node.SetNext | src/spellchecker/MyNode.java:92-94 | only `next` changes; `data` is unchanged |
| LinkLists.LinkList.constructor | src/spellchecker/MyLinkList.java:37-39 | a new list has no head, a zero counter and no elements |
| LinkLists.LinkList.NullLinkMarksLast | src/spellchecker/MyLinkList.java:56-58 | in the node chain, the only node without a successor is the last, so the walk in `add` stops at the end |
| LinkLists.LinkList.Add | src/spellchecker/MyLinkList.java:46-63 | appends: the elements become the old ones followed by `data`, and earlier indices keep their values; on a headless list a head is created and `data` is still linked after it, so the first element is the first value added |
| LinkLists.LinkList.AddAt | src/spellchecker/MyLinkList.java:71-85 | on a non-empty list, inserts `data` at data index min(max(index, 0), size) and keeps all other elements in order |
| LinkLists.LinkList.Get | src/spellchecker/MyLinkList.java:94-112 | returns the element at data index `index` if 0 <= index < size, otherwise null (negative index, index past the end, or no head) |
| LinkLists.LinkList.Remove | src/spellchecker/MyLinkList.java:120-139 | returns true iff 1 <= index < size, and then deletes exactly the element at data index `index` and keeps the rest in order; otherwise the list is unchanged, so index 0 is never removable |
| LinkLists.LinkList.Size | src/spellchecker/MyLinkList.java:146-148 | the counter equals the number of data elements reachable after the head |
| LinkLists.LinkList.Iterator | src/spellchecker/MyLinkList.java:171-176 | a fresh iterator over this list, positioned on the head |
| LinkLists.ListIterator.constructor | src/spellchecker/MyLinkList.java:178-180 | the cursor starts on the head, before data index 0 |
| LinkLists.ListIterator.HasNext | src/spellchecker/MyLinkList.java:182-185 | true iff elements remain to be returned |
| LinkLists.ListIterator.Next | src/spellchecker/MyLinkList.java:187-195 | returns the elements in index order, one per call, then null once all have been returned |
| HashSets.JavaRem | src/spellchecker/MyHashSet.java:76 | Java's `%` for y > 0: the remainder lies strictly between -y and y, takes the dividend's sign, and differs from the Euclidean remainder by 0 or y |
| HashSets.Mod | src/spellchecker/MyHashSet.java:75-81 | `mod(x, y)` lies in [0, y) and is congruent to x modulo y |
| HashSets.BucketCount | src/spellchecker/MyHashSet.java:49 | the bucket count is the integer nearest 4n/3, i.e. round(n / 0.75), and it is at least one when n >= 1 |
| HashSets.InBucketMembers | src/spellchecker/MyHashSet.java:63-66 | a bucket holds exactly the added elements whose hash maps to it |
| HashSets.InBucketAppend | src/spellchecker/MyHashSet.java:63-66 | an add extends only the bucket of the added element, at its end |
| HashSets.DuplicatesKept | src/spellchecker/MyHashSet.java:63-66 | adding an equal value twice lengthens its bucket by two: there is no duplicate check |
| HashSets.BucketsPartition | src/spellchecker/MyHashSet.java:27-30 | the buckets' lengths sum to the number of adds: each element lies in exactly one bucket |
| HashSets.HashSet.constructor | src/spellchecker/MyHashSet.java:48-55 | allocates round(n / 0.75) buckets, all empty; the table is `final` and is never resized |
| HashSets.HashSet.Add | src/spellchecker/MyHashSet.java:63-66 | appends `e` to bucket `mod(hash(e), length)` only; every other bucket is unchanged |
| HashSets.HashSet.Get | src/spellchecker/MyHashSet.java:89-107 | returns an element equal to `e` iff one was added, deciding by equality and not by hash alone; `get(null)` returns null |
| HashSets.HashSet.Size | src/spellchecker/MyHashSet.java:113-116 | returns 0 whatever was added, because the `size` field is never written |
| HashSets.HashSet.Count | src/spellchecker/MyHashSet.java:111 | the number of objects in the set, as the doc comment promises: the sum of the buckets' counters equals the number of adds |
| HashSets.SizeMissesAdds | src/spellchecker/MyHashSet.java:38 | after one add, `size()` is still 0 while the set holds one element |
| HashSets.FoundAfterMoreAdds | src/spellchecker/MyHashSet.java:89-104 | after `add(e)`, `get(e)` returns e, whatever adds follow |
| Edits.RemoveInserted | src/spellchecker/SpellChecker.java:202 | removing the inserted letter gives the original word back |
| Edits.ReinsertDeleted | src/spellchecker/SpellChecker.java:166 | putting the deleted character back at its index gives the original word back |
| Edits.SwapIsUpdate | src/spellchecker/SpellChecker.java:116-131 | the swap through `temp` exchanges the two characters, and the second swap restores the word |
| Edits.ReplaceAgain | src/spellchecker/SpellChecker.java:224-225 | overwriting position i with a later letter gives the word with only that letter at i |
| Edits.SwapsMembers | src/spellchecker/SpellChecker.java:116-120 | the swap pass tries exactly the word with i and i+1 exchanged, for 0 <= i <= len-2 |
| Edits.DeletionsMembers | src/spellchecker/SpellChecker.java:150-158 | the deletion pass tries exactly the word with position i deleted, for 0 <= i < len |
| Edits.InsertionsMembers | src/spellchecker/SpellChecker.java:183-194 | the insertion pass tries exactly the word with a letter a–z inserted at 1 <= i <= len-1, never at 0 or len |
| Edits.ReplacementsMembers | src/spellchecker/SpellChecker.java:221-226 | the replacement pass tries exactly the word with position i replaced by a letter a–z, for 0 <= i < len |
| Edits.CandidatesAreEdits | src/spellchecker/SpellChecker.java:88-93 | a string is tried by one of the four passes iff it is one of those four kinds of single edit |
| Edits.CollectAppend | src/spellchecker/SpellChecker.java:89-92 | running the passes one after another equals one pass over their concatenated candidates |
| Edits.PassesMakeFixes | src/spellchecker/SpellChecker.java:88-93 | the four passes in order, from no corrections, yield the suggestions |
| Edits.CollectMembers | src/spellchecker/SpellChecker.java:122-125 | a string is kept iff it was kept already or it is a tried candidate in the lexicon |
| Edits.CollectDistinct | src/spellchecker/SpellChecker.java:122-125 | the `contains` check keeps each string at most once |
| Edits.CollectInDiscoveryOrder | src/spellchecker/SpellChecker.java:122-125 | kept strings appear in the order of their first lookup |
| Edits.FixesAreLexiconEdits | src/spellchecker/SpellChecker.java:86-106 | soundness and completeness: a string is suggested iff it is in the lexicon and one of the four single edits of the word |
| Edits.FixesDistinct | src/spellchecker/SpellChecker.java:160-163 | the suggestions contain no duplicates |
| Edits.FixesInDiscoveryOrder | src/spellchecker/SpellChecker.java:89-92 | suggestions come in first-discovery order: swap, delete, insert, replace, with positions ascending and letters running a to z |
| Edits.EmptyWordHasNoFixes | src/spellchecker/SpellChecker.java:88 | a zero-length word has no suggestions |
| Edits.KnownWordSuggestsItself | src/spellchecker/SpellChecker.java:224-230 | substitution also tries the letter already in place, so a lexicon word with a letter a–z is suggested for itself |
| Edits.OnlySuggestion | src/spellchecker/SpellChecker.java:196-199 | when exactly one lexicon word is a single edit away, the suggestions are exactly that word |
| Edits.TranspositionExample | src/spellchecker/SpellChecker.java:113-134 | "cta" against the lexicon cat, cats, cut, bat is fixed to cat alone |
| Edits.InsertionExample | src/spellchecker/SpellChecker.java:185-194 | "helo" is fixed to "hello" by an interior insertion |
| Edits.NoInsertionAtEnd | src/spellchecker/SpellChecker.java:185 | "cat" is not fixed to "cats": nothing is inserted after the last character |
| Spelling.MakeLexicon | src/spellchecker/SpellChecker.java:273-278 | the lexicon has round(n / 0.75) buckets for n lines (at least one when there is a line; none for an empty list, which is built without fault) and holds exactly the lines, added in order |
| Spelling.SpellChecker.constructor | src/spellchecker/SpellChecker.java:58-66 | the checker keeps the dictionary's lines, builds the lexicon from them and starts with no pending corrections |
| Spelling.SpellChecker.WordValid | src/spellchecker/SpellChecker.java:74-77 | true iff the word is one of the dictionary's lines, so every line is valid |
| Spelling.SpellChecker.Consider | src/spellchecker/SpellChecker.java:122-125 | one lookup appends the candidate iff the lexicon has it and it is not already a correction |
| Spelling.SpellChecker.WordFix | src/spellchecker/SpellChecker.java:86-106 | returns null iff there are no suggestions, otherwise a fresh array holding exactly the suggestions in order; `corrections` is empty afterwards |
| Spelling.SpellChecker.AdjacentSwap | src/spellchecker/SpellChecker.java:113-134 | the swap pass extends `corrections` by the deduplicated hits among the swap candidates, in order |
| Spelling.SpellChecker.DeleteChar | src/spellchecker/SpellChecker.java:143-169 | the deletion pass extends `corrections` by the deduplicated hits among the deletion candidates, in order |
| Spelling.SpellChecker.InsertChar | src/spellchecker/SpellChecker.java:177-208 | the insertion pass extends `corrections` by the deduplicated hits among the interior insertions, in order |
| Spelling.SpellChecker.ReplaceChar | src/spellchecker/SpellChecker.java:217-236 | the replacement pass extends `corrections` by the deduplicated hits among the replacements, in order |
| Spelling.FixTwice | src/spellchecker/SpellChecker.java:94-104 | two consecutive `wordFix` calls on the same word return equal results, since `corrections` is cleared and the lexicon is never changed |

## Left out

- The console front end (`WordHandle.java`) is not part of this model. It does the reading, printing and lower-casing of input.
- The file reading in `readDictionary` (SpellChecker.java:242-268) is left out. The dictionary's lines are a constructor parameter.
- `Math.round(size / .75)` uses floating point. It is replaced by the exact integer `(8n + 3) / 6`, which is the nearest integer to 4n/3 (4n/3 is never a tie).
- `hashCode` is a parameter: any function from elements to `int`. Every result holds for every such function. Java's `String.hashCode` and its 32-bit wrap-around are not modelled, because no property depends on the hash values.
- Strings are sequences of Unicode code points (Dafny `char`), not of UTF-16 code units as Java's `String`, `char[]` and `List<Character>` are. On a word holding a character outside the Basic Multilingual Plane, the passes (SpellChecker.java:114-236) work on surrogate halves in Java, so they try different candidates there. For example, deleting from "a😀" in Java never gives "a", but the model's deletion does. On words of Basic Multilingual Plane characters the two agree.
- HashSets.BucketCount and HashSets.HashSet.constructor require a non-negative expected size. Java throws NegativeArraySizeException for a negative one (MyHashSet.java:50). `makeLexicon` only passes a list's size, which is never negative.
- `MyLinkList.toString` is left out. It is debugging output built from arbitrary `toString` calls.
- Null elements are left out, except `get(null)`. `HashSet.Get` takes an `Option`, and `None` stands for null.
- Integers are unbounded. The `int` counters would only overflow beyond 2^31 elements.
- Iterator invalidation is not modelled. An iterator's contract assumes its list is not changed while it is in use.
- HashSets.HashSet.Get: the source calls `ll.get(pos)` up to three times per step of its scan. The model calls it once per step, which gives the same result because `get` changes nothing.
- HashSets.HashSet.Get: the source returns the first equal element in the bucket. Elements are compared with Dafny's `==`, so that element equals the argument and the model returns the argument. "First of several equal but distinct objects" is not observable in the model.
- LinkLists.LinkList.AddAt requires a non-empty list. On a list without a head the source dereferences null (MyLinkList.java:81).
- LinkLists.LinkList.Remove requires `index != size` for `index >= 1`. With that index the walk ends on the last node, whose missing successor is dereferenced (MyLinkList.java:132).
- LinkLists.ListIterator.HasNext and LinkLists.ListIterator.Next require a non-empty list, because the cursor starts on the head and is dereferenced (MyLinkList.java:184).
- HashSets.HashSet.Add and HashSets.HashSet.Get (for a non-null argument) require at least one bucket. With none, `x % 0` throws (MyHashSet.java:76).
- Spelling.SpellChecker.constructor requires at least one dictionary line, for the same reason: an empty dictionary gives zero buckets.
- Spelling.SpellChecker.DeleteChar and Spelling.SpellChecker.InsertChar use a `seq<char>` for the `List<Character>` working copy, updated by the same remove and re-insert steps. The `char[]` copies they build for each candidate are arrays. The inner letter loops of insertChar and replaceChar are the helper methods `InsertLetters` and `ReplaceLetters`.

## Findings

| source | as written | input that shows it | evidently intended | confidence | as-written member | corrected member |
|---|---|---|---|---|---|---|
| src/spellchecker/MyHashSet.java:38 | `size()` returns the field `size`, which is never written, so it is always 0; the doc comment at :111 says it returns the number of objects | a set built for 1 entry, after `add(e)`: `size()` returns 0 | `size()` returns the number of objects added | not executed | HashSets.SizeMissesAdds | HashSets.HashSet.Count |
