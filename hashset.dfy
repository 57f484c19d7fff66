/**
 * The fixed-size chained hash set: an array of linked lists sized once
 * from the expected number of entries, addressed by a non-negative
 * modulo of the element's hash.
 */
module HashSets {
  import opened Options
  import opened LinkLists

  /** Java's `%` on `int`: the remainder takes the sign of the dividend. */
  function JavaRem(x: int, y: int): (r: int)
    requires y > 0
    ensures -y < r < y
    ensures x >= 0 ==> r >= 0
    ensures x < 0 ==> r <= 0
    ensures r == x % y || r == x % y - y
  {
    if x >= 0 then x % y
    else
      var m := (-x) % y;
      var q := (-x) / y;
      assert -x == q * y + m;
      if m == 0 then
        ModUnique(x, y, -q, 0);
        -m
      else
        ModUnique(x, y, -q - 1, y - m);
        -m
  }

  /** `mod(x, y)`: Java's remainder, moved up by y when negative. */
  function Mod(x: int, y: int): (r: int)
    requires y > 0
    ensures 0 <= r < y
    ensures r == x % y
  {
    var result := JavaRem(x, y);
    if result < 0 then result + y else result
  }

  /** A quotient and remainder in [0, y) are unique. */
  lemma ModUnique(x: int, y: int, q: int, r: int)
    requires y > 0 && x == q * y + r && 0 <= r < y
    ensures x % y == r
  {
    var q', r' := x / y, x % y;
    assert x == q' * y + r';
    assert (q - q') * y == r' - r;
    if q > q' {
      MulAtLeast(q - q', y);
    } else if q < q' {
      MulAtLeast(q' - q, y);
    }
  }

  lemma {:induction false} MulAtLeast(k: int, y: int)
    requires k >= 1 && y > 0
    ensures k * y >= y
  {
    if k > 1 {
      MulAtLeast(k - 1, y);
      assert k * y == (k - 1) * y + y;
    }
  }

  /**
   * `Math.round(size / .75)`: the integer nearest to 4n/3. 4n/3 is never
   * halfway between two integers, so there is no tie to break.
   */
  function BucketCount(size: int): (bounds: int)
    requires size >= 0
    ensures 6 * bounds - 3 <= 8 * size < 6 * bounds + 3
    ensures size >= 1 ==> bounds >= 1
  {
    (8 * size + 3) / 6
  }

  /** The elements of `s` whose bucket is `b`, in insertion order. */
  function InBucket<T>(s: seq<T>, hash: T -> int, len: int, b: int): (r: seq<T>)
    requires len > 0
  {
    if s == [] then []
    else
      var last := s[|s| - 1];
      InBucket(s[..|s| - 1], hash, len, b) + if Mod(hash(last), len) == b then [last] else []
  }

  /** A bucket holds exactly the added elements that hash to it. */
  lemma {:induction false} InBucketMembers<T>(s: seq<T>, hash: T -> int, len: int, b: int, x: T)
    requires len > 0
    ensures x in InBucket(s, hash, len, b) <==> x in s && Mod(hash(x), len) == b
  {
    if s != [] {
      InBucketMembers(s[..|s| - 1], hash, len, b, x);
      assert s == s[..|s| - 1] + [s[|s| - 1]];
    }
  }

  /** Adding to the end of the insertion order extends only the element's own bucket. */
  lemma InBucketAppend<T>(s: seq<T>, e: T, hash: T -> int, len: int, b: int)
    requires len > 0
    ensures InBucket(s + [e], hash, len, b)
         == InBucket(s, hash, len, b) + if Mod(hash(e), len) == b then [e] else []
  {
    assert (s + [e])[..|s|] == s;
  }

  /** Duplicates are kept: adding an element twice lengthens its bucket by two. */
  lemma DuplicatesKept<T>(s: seq<T>, e: T, hash: T -> int, len: int)
    requires len > 0
    ensures var b := Mod(hash(e), len);
            InBucket(s + [e] + [e], hash, len, b) == InBucket(s, hash, len, b) + [e, e]
  {
    InBucketAppend(s, e, hash, len, Mod(hash(e), len));
    InBucketAppend(s + [e], e, hash, len, Mod(hash(e), len));
  }

  /** The total length of buckets 0 .. n-1. */
  function BucketTotal<T>(s: seq<T>, hash: T -> int, len: int, n: int): (total: nat)
    requires 0 <= n <= len && len > 0
  {
    if n == 0 then 0 else BucketTotal(s, hash, len, n - 1) + |InBucket(s, hash, len, n - 1)|
  }

  lemma {:induction false} BucketTotalAppend<T>(s: seq<T>, e: T, hash: T -> int, len: int, n: int)
    requires 0 <= n <= len && len > 0
    ensures BucketTotal(s + [e], hash, len, n)
         == BucketTotal(s, hash, len, n) + if Mod(hash(e), len) < n then 1 else 0
  {
    if n > 0 {
      BucketTotalAppend(s, e, hash, len, n - 1);
      InBucketAppend(s, e, hash, len, n - 1);
    }
  }

  /** Every element lies in exactly one bucket, so the buckets together hold all of them. */
  lemma {:induction false} BucketsPartition<T>(s: seq<T>, hash: T -> int, len: int)
    requires len > 0
    ensures BucketTotal(s, hash, len, len) == |s|
  {
    if s == [] {
      BucketTotalEmpty(hash, len, len);
    } else {
      var init, last := s[..|s| - 1], s[|s| - 1];
      BucketsPartition(init, hash, len);
      BucketTotalAppend(init, last, hash, len, len);
      assert init + [last] == s;
    }
  }

  lemma {:induction false} BucketTotalEmpty<T>(hash: T -> int, len: int, n: int)
    requires 0 <= n <= len && len > 0
    ensures BucketTotal([], hash, len, n) == 0
  {
    if n > 0 {
      BucketTotalEmpty(hash, len, n - 1);
    }
  }

  class HashSet<T(==)> {
    /** Declared as the number of entries, but never written. */
    var size: int
    const table: array<LinkList?<T>>
    const hash: T -> int

    /** Every element added so far, in insertion order. */
    ghost var added: seq<T>
    ghost var Repr: set<object>

    ghost predicate Valid()
      reads this, Repr
      ensures Valid() ==> this in Repr
    {
      this in Repr && table in Repr &&
      size == 0 &&
      (table.Length == 0 ==> added == []) &&
      (forall b :: 0 <= b < table.Length ==>
        table[b] != null && table[b] in Repr && table[b].Repr <= Repr &&
        this !in table[b].Repr && table !in table[b].Repr &&
        table[b].Valid() &&
        table[b].Contents == InBucket(added, hash, table.Length, b)) &&
      (forall b, c :: 0 <= b < c < table.Length ==> table[b] != null && table[c] != null && table[b].Repr !! table[c].Repr)
    }

    /** Allocates BucketCount(size) empty buckets; the table is never resized. */
    constructor (size: int, hash: T -> int)
      requires size >= 0
      ensures Valid() && fresh(Repr)
      ensures table.Length == BucketCount(size) && this.hash == hash && added == []
    {
      var bounds := BucketCount(size);
      var t := new LinkList?<T>[bounds];
      ghost var lists: set<object> := {};
      var i := 0;
      while i < bounds
        invariant 0 <= i <= bounds
        invariant fresh(lists)
        invariant forall b :: 0 <= b < i ==>
          t[b] != null && fresh(t[b].Repr) && t[b].Repr <= lists && t !in t[b].Repr &&
          t[b].Valid() && t[b].Contents == []
        invariant forall b, c :: 0 <= b < c < i ==> t[b] != null && t[c] != null && t[b].Repr !! t[c].Repr
      {
        var list := new LinkList<T>();
        t[i] := list;
        lists := lists + list.Repr;
        i := i + 1;
      }
      // Java's default value; the field is never assigned afterwards.
      this.size := 0;
      table := t;
      this.hash := hash;
      added := [];
      new;
      Repr := {this, t} + lists;
    }

    /** Appends `e` to bucket Mod(hash(e), length) with no duplicate check. */
    method Add(e: T)
      requires Valid() && table.Length >= 1
      modifies Repr
      ensures Valid() && fresh(Repr - old(Repr))
      ensures added == old(added) + [e]
      ensures var b := Mod(hash(e), table.Length);
              table[b].Contents == old(table[b].Contents) + [e] &&
              forall c :: 0 <= c < table.Length && c != b ==> table[c].Contents == old(table[c].Contents)
    {
      var h := Mod(hash(e), table.Length);
      table[h].Add(e);
      added := added + [e];
      Repr := Repr + table[h].Repr;
      forall b | 0 <= b < table.Length
        ensures table[b].Contents == InBucket(added, hash, table.Length, b)
      {
        InBucketAppend(old(added), e, hash, table.Length, b);
      }
    }

    /**
     * The element equal to `e` if one was added, else None; a None
     * argument (Java's null) is answered with None before hashing.
     */
    method Get(e: Option<T>) returns (r: Option<T>)
      requires Valid()
      requires e.Some? ==> table.Length >= 1
      ensures r == if e.Some? && e.value in added then e else None
    {
      if e == None {
        return None;
      }
      var h := Mod(hash(e.value), table.Length);
      var pos := 0;
      var ll := table[h];
      var cur := ll.Get(pos);
      while cur != None
        invariant 0 <= pos <= |ll.Contents|
        invariant cur == if pos < |ll.Contents| then Some(ll.Contents[pos]) else None
        invariant e.value !in ll.Contents[..pos]
        decreases |ll.Contents| - pos
      {
        if e.value == cur.value {
          r := ll.Get(pos);
          InBucketMembers(added, hash, table.Length, h, e.value);
          return r;
        }
        assert ll.Contents[..pos + 1] == ll.Contents[..pos] + [cur.value];
        pos := pos + 1;
        cur := ll.Get(pos);
      }
      assert ll.Contents[..pos] == ll.Contents;
      InBucketMembers(added, hash, table.Length, h, e.value);
      return None;
    }

    /** What `size()` returns: the field is never written, so always 0. */
    function Size(): (n: int)
      reads this, Repr
      requires Valid()
      ensures n == 0
    {
      size
    }

    /** The counter of bucket b. */
    method BucketSize(b: int) returns (s: int)
      requires Valid() && 0 <= b < table.Length
      ensures s == |InBucket(added, hash, table.Length, b)|
    {
      s := table[b].Size();
    }

    /** The number of added elements, summed over the buckets' own counters. */
    method Count() returns (n: int)
      requires Valid()
      ensures n == |added|
    {
      n := 0;
      if table.Length > 0 {
        var i := 0;
        while i < table.Length
          invariant 0 <= i <= table.Length
          invariant n == BucketTotal(added, hash, table.Length, i)
        {
          var s := BucketSize(i);
          n := n + s;
          i := i + 1;
        }
        BucketsPartition(added, hash, table.Length);
      }
    }
  }

  /** `size()` stays 0 after an element is added, while the set holds one element. */
  method SizeMissesAdds<T(==)>(e: T, hash: T -> int) returns (size: int, count: int)
    ensures size == 0 && count == 1
  {
    var s := new HashSet<T>(1, hash);
    s.Add(e);
    size := s.Size();
    count := s.Count();
  }

  /** Once added, an element is found by `get`, however many adds follow: nothing is ever removed. */
  method FoundAfterMoreAdds<T(==)>(size: int, hash: T -> int, e: T, more: seq<T>) returns (r: Option<T>)
    requires size >= 1
    ensures r == Some(e)
  {
    var s := new HashSet<T>(size, hash);
    s.Add(e);
    var i := 0;
    while i < |more|
      invariant 0 <= i <= |more|
      invariant fresh(s.Repr) && s.Valid() && s.table.Length >= 1
      invariant e in s.added
    {
      s.Add(more[i]);
      i := i + 1;
    }
    r := s.Get(Some(e));
  }
}
