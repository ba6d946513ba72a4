/** The memoization table: a fixed-capacity hash table with separate chaining
    from configuration strings to scores. The bucket array never grows; each
    bucket keeps its records in insertion order. */
module Chaining {
  import opened Records

  /** Outcome of an operation that the table may abort by throwing its
      DictionaryException (duplicate key on put, missing key on remove). */
  datatype Result<T> = Ok(value: T) | DictionaryException

  /** The sentinel get returns for a missing key; it lies outside the score
      codes 0..3 the board evaluation produces. */
  const NotFound: int := -1

  // ---------------------------------------------------------------------
  // The hash function
  // ---------------------------------------------------------------------

  /** The accumulator of the hash loop after its first i iterations: it is
      seeded with the code of key[0], and iteration i folds in key[i] for
      every i from 0 on, so key[0] is folded in a second time. */
  function HashAfter(key: string, m: int, i: nat): int
    requires m > 0 && 0 < |key| && i <= |key|
  {
    if i == 0 then key[0] as int
    else (HashAfter(key, m, i - 1) * 31 + key[i - 1] as int) % m
  }

  /** The bucket index of key in a table of m buckets. */
  function HashCode(key: string, m: int): (h: int)
    requires m > 0 && |key| > 0
    ensures 0 <= h < m
  {
    HashAfter(key, m, |key|) % m
  }

  /** The textbook polynomial hash, Horner's rule seeded with 0, after the
      first i characters of s. */
  function HornerAfter(s: string, m: int, i: nat): (v: int)
    requires m > 0 && i <= |s|
    ensures 0 <= v < m
  {
    if i == 0 then 0 else (HornerAfter(s, m, i - 1) * 31 + s[i - 1] as int) % m
  }

  /** k copies of m add up to at least m. */
  lemma MulAtLeast(k: int, m: int)
    requires k >= 1 && m > 0
    ensures k * m >= m
  {
    var j := k - 1;
    assert k * m == j * m + m;
    assert j * m >= 0;
  }

  /** Euclidean remainders are unique: if n == d * m + r with 0 <= r < m,
      then r is n % m. */
  lemma ModUnique(n: int, m: int, d: int, r: int)
    requires m > 0 && 0 <= r < m && n == d * m + r
    ensures n % m == r
  {
    var d', r' := n / m, n % m;
    assert n == d' * m + r';
    assert (d - d') * m == r' - r;
    if d > d' {
      MulAtLeast(d - d', m);
    } else if d < d' {
      MulAtLeast(d' - d, m);
    }
  }

  /** Reducing the accumulator before a Horner step gives the same result. */
  lemma ModHornerStep(a: int, c: int, m: int)
    requires m > 0
    ensures ((a % m) * 31 + c) % m == (a * 31 + c) % m
  {
    var q, r := a / m, a % m;
    var y := r * 31 + c;
    var q2, r2 := y / m, y % m;
    assert y == q2 * m + r2;
    assert a * 31 + c == (q * 31 + q2) * m + r2 by {
      assert a == q * m + r;
    }
    ModUnique(a * 31 + c, m, q * 31 + q2, r2);
  }

  /** After i >= 1 iterations the hash loop holds what Horner's rule holds
      after i + 1 characters of the key with key[0] written twice. */
  lemma {:induction false} HashAfterIsHorner(key: string, m: int, i: nat)
    requires m > 0 && 1 <= i <= |key|
    ensures HashAfter(key, m, i) == HornerAfter([key[0]] + key, m, i + 1)
  {
    var s := [key[0]] + key;
    assert s[i] == key[i - 1];
    if i == 1 {
      assert s[0] == key[0];
      assert HornerAfter(s, m, 1) == (key[0] as int) % m;
      ModHornerStep(key[0] as int, key[0] as int, m);
    } else {
      HashAfterIsHorner(key, m, i - 1);
    }
  }

  /** The table's hash is the textbook polynomial hash of the key with its
      first character written twice: the seeding with key[0] acts as one
      extra leading character. */
  lemma HashIsHornerOfFirstCharDoubled(key: string, m: int)
    requires m > 0 && |key| > 0
    ensures HashCode(key, m) == HornerAfter([key[0]] + key, m, |key| + 1)
  {
    HashAfterIsHorner(key, m, |key|);
    var v := HashAfter(key, m, |key|);
    assert 0 <= v < m;
    ModUnique(v, m, 0, v);
  }

  // ---------------------------------------------------------------------
  // The representation invariant, on plain values
  // ---------------------------------------------------------------------

  /** The configurations held in one bucket. */
  ghost function Keys(bucket: seq<Data>): set<string>
  {
    set i | 0 <= i < |bucket| :: bucket[i].config
  }

  /** Record i of bucket b. The invariant's quantifiers are stated over
      this function, so they come into play only where a proof names a slot. */
  ghost function RecordAt(buckets: seq<seq<Data>>, b: int, i: int): Data
    requires 0 <= b < |buckets| && 0 <= i < |buckets[b]|
  {
    buckets[b][i]
  }

  /** Every record sits in the bucket its configuration hashes to. */
  ghost predicate WellPlaced(buckets: seq<seq<Data>>)
  {
    forall b, i :: 0 <= b < |buckets| && 0 <= i < |buckets[b]| ==>
      |RecordAt(buckets, b, i).config| > 0 && HashCode(RecordAt(buckets, b, i).config, |buckets|) == b
  }

  /** No configuration occurs twice in a bucket (and, with WellPlaced, not
      twice in the table). */
  ghost predicate DistinctKeys(buckets: seq<seq<Data>>)
  {
    forall b, i, j :: 0 <= b < |buckets| && 0 <= i < j < |buckets[b]| ==>
      RecordAt(buckets, b, i).config != RecordAt(buckets, b, j).config
  }

  /** Every record in the buckets is an entry of the map m. */
  ghost predicate RecordsInMap(buckets: seq<seq<Data>>, m: map<string, int>)
  {
    forall b, i :: 0 <= b < |buckets| && 0 <= i < |buckets[b]| ==>
      RecordAt(buckets, b, i).config in m && m[RecordAt(buckets, b, i).config] == RecordAt(buckets, b, i).score
  }

  /** k is a valid key and is held in the bucket it hashes to. */
  ghost predicate AtHome(buckets: seq<seq<Data>>, k: string)
  {
    |k| > 0 && |buckets| > 0 && k in Keys(buckets[HashCode(k, |buckets|)])
  }

  /** Every key of the map m is held in the bucket it hashes to. (The
      trigger keeps this from firing on every map lookup of a proof.) */
  ghost predicate MapInBuckets(buckets: seq<seq<Data>>, m: map<string, int>)
  {
    forall k {:trigger AtHome(buckets, k)} :: k in m ==> AtHome(buckets, k)
  }

  /** The buckets hold exactly the entries of the map m. */
  ghost predicate Represents(buckets: seq<seq<Data>>, m: map<string, int>)
  {
    RecordsInMap(buckets, m) && MapInBuckets(buckets, m)
  }

  ghost predicate TableInvariant(buckets: seq<seq<Data>>, m: map<string, int>)
  {
    WellPlaced(buckets) && DistinctKeys(buckets) && Represents(buckets, m)
  }

  /** The number of records over all buckets. */
  ghost function TotalRecords(buckets: seq<seq<Data>>): nat
  {
    if buckets == [] then 0 else |buckets[0]| + TotalRecords(buckets[1..])
  }

  /** Replacing one bucket changes the record count by the change in that
      bucket's length. */
  lemma {:induction false} TotalRecordsUpdate(buckets: seq<seq<Data>>, h: int, bucket: seq<Data>)
    requires 0 <= h < |buckets|
    ensures TotalRecords(buckets[h := bucket]) == TotalRecords(buckets) - |buckets[h]| + |bucket|
  {
    if h == 0 {
      assert buckets[h := bucket][1..] == buckets[1..];
    } else {
      assert buckets[h := bucket][1..] == buckets[1..][h - 1 := bucket];
      TotalRecordsUpdate(buckets[1..], h - 1, bucket);
    }
  }

  /** A table of empty buckets holds no records and represents the empty map. */
  lemma {:induction false} EmptyTableInvariant(buckets: seq<seq<Data>>)
    requires forall b :: 0 <= b < |buckets| ==> buckets[b] == []
    ensures TableInvariant(buckets, map[])
    ensures TotalRecords(buckets) == 0
  {
    if buckets != [] {
      EmptyTableInvariant(buckets[1..]);
    }
  }

  /** Under the invariant, a record found in a bucket is an entry of the map. */
  lemma FoundInBucket(buckets: seq<seq<Data>>, m: map<string, int>, h: int, i: int)
    requires TableInvariant(buckets, m) && 0 <= h < |buckets| && 0 <= i < |buckets[h]|
    ensures buckets[h][i].config in m && m[buckets[h][i].config] == buckets[h][i].score
  {
    assert RecordAt(buckets, h, i) == buckets[h][i];
  }

  /** Under the invariant, a key is in the map exactly when it is in the
      bucket it hashes to, so scanning that one bucket decides membership. */
  lemma BucketDecidesMembership(buckets: seq<seq<Data>>, m: map<string, int>, key: string)
    requires TableInvariant(buckets, m) && |buckets| > 0 && |key| > 0
    ensures key in m <==> key in Keys(buckets[HashCode(key, |buckets|)])
  {
    var h := HashCode(key, |buckets|);
    assert key in m ==> AtHome(buckets, key);
    if key in Keys(buckets[h]) {
      var i :| 0 <= i < |buckets[h]| && buckets[h][i].config == key;
      FoundInBucket(buckets, m, h, i);
    }
  }

  /** Appending a record with a fresh key to its bucket keeps the invariant
      and adds exactly that entry to the map. */
  lemma PutPreservesInvariant(buckets: seq<seq<Data>>, m: map<string, int>, d: Data)
    requires TableInvariant(buckets, m) && |buckets| > 0 && |d.config| > 0 && d.config !in m
    ensures TableInvariant(buckets[HashCode(d.config, |buckets|) := buckets[HashCode(d.config, |buckets|)] + [d]],
                           m[d.config := d.score])
  {
    var h := HashCode(d.config, |buckets|);
    var nb: seq<seq<Data>> := buckets[h := buckets[h] + [d]];
    var nm: map<string, int> := m[d.config := d.score];
    assert |nb| == |buckets|;
    forall b: int, i: int | 0 <= b < |nb| && 0 <= i < |nb[b]|
      ensures |RecordAt(nb, b, i).config| > 0 && HashCode(RecordAt(nb, b, i).config, |nb|) == b
      ensures RecordAt(nb, b, i).config in nm && nm[RecordAt(nb, b, i).config] == RecordAt(nb, b, i).score
    {
      if b == h && i == |buckets[h]| {
        assert RecordAt(nb, b, i) == d;
      } else {
        assert RecordAt(nb, b, i) == RecordAt(buckets, b, i);
      }
    }
    forall b: int, i: int, j: int | 0 <= b < |nb| && 0 <= i < j < |nb[b]|
      ensures RecordAt(nb, b, i).config != RecordAt(nb, b, j).config
    {
      assert RecordAt(nb, b, i) == RecordAt(buckets, b, i);
      if b == h && j == |buckets[h]| {
        assert RecordAt(nb, b, j) == d;
      } else {
        assert RecordAt(nb, b, j) == RecordAt(buckets, b, j);
      }
    }
    forall k: string | k in nm
      ensures AtHome(nb, k)
    {
      if k == d.config {
        assert nb[h][|buckets[h]|] == d;
      } else {
        assert k in m && AtHome(buckets, k);
        var hk := HashCode(k, |buckets|);
        var i :| 0 <= i < |buckets[hk]| && buckets[hk][i].config == k;
        assert nb[hk][i] == buckets[hk][i];
      }
    }
  }

  /** The bucket left after deleting position i: the records before i, then
      the records after it, in their original order. */
  function Without(bucket: seq<Data>, i: int): (rest: seq<Data>)
    requires 0 <= i < |bucket|
    ensures |rest| == |bucket| - 1
    ensures forall j :: 0 <= j < |rest| ==> rest[j] == bucket[if j < i then j else j + 1]
  {
    bucket[..i] + bucket[i + 1..]
  }

  /** The bucket with its first record for key taken out and every other
      record kept in order. */
  function RemoveKey(bucket: seq<Data>, key: string): seq<Data>
  {
    if bucket == [] then []
    else if bucket[0].config == key then bucket[1..]
    else [bucket[0]] + RemoveKey(bucket[1..], key)
  }

  /** When record i is the first one for key, taking key out of the bucket
      deletes exactly position i. */
  lemma {:induction false} RemoveKeyDeletesFirstMatch(bucket: seq<Data>, key: string, i: int)
    requires 0 <= i < |bucket| && bucket[i].config == key
    requires forall j :: 0 <= j < i ==> bucket[j].config != key
    ensures RemoveKey(bucket, key) == Without(bucket, i)
  {
    if i > 0 {
      RemoveKeyDeletesFirstMatch(bucket[1..], key, i - 1);
      assert Without(bucket, i) == [bucket[0]] + Without(bucket[1..], i - 1);
    }
  }

  /** Taking out a key the bucket does not hold leaves the bucket as it was. */
  lemma {:induction false} RemoveKeyAbsent(bucket: seq<Data>, key: string)
    requires forall j :: 0 <= j < |bucket| ==> bucket[j].config != key
    ensures RemoveKey(bucket, key) == bucket
  {
    if bucket != [] {
      RemoveKeyAbsent(bucket[1..], key);
    }
  }

  lemma RemoveKeepsPlacement(buckets: seq<seq<Data>>, h: int, i: int)
    requires WellPlaced(buckets) && 0 <= h < |buckets| && 0 <= i < |buckets[h]|
    ensures WellPlaced(buckets[h := Without(buckets[h], i)])
  {
    var nb: seq<seq<Data>> := buckets[h := Without(buckets[h], i)];
    forall b: int, j: int | 0 <= b < |nb| && 0 <= j < |nb[b]|
      ensures |RecordAt(nb, b, j).config| > 0 && HashCode(RecordAt(nb, b, j).config, |nb|) == b
    {
      var j' := if b == h && j >= i then j + 1 else j;
      assert RecordAt(nb, b, j) == RecordAt(buckets, b, j');
    }
  }

  lemma RemoveKeepsDistinct(buckets: seq<seq<Data>>, h: int, i: int)
    requires DistinctKeys(buckets) && 0 <= h < |buckets| && 0 <= i < |buckets[h]|
    ensures DistinctKeys(buckets[h := Without(buckets[h], i)])
  {
    var nb: seq<seq<Data>> := buckets[h := Without(buckets[h], i)];
    forall b: int, j1: int, j2: int | 0 <= b < |nb| && 0 <= j1 < j2 < |nb[b]|
      ensures RecordAt(nb, b, j1).config != RecordAt(nb, b, j2).config
    {
      var a1 := if b == h && j1 >= i then j1 + 1 else j1;
      var a2 := if b == h && j2 >= i then j2 + 1 else j2;
      assert RecordAt(nb, b, j1) == RecordAt(buckets, b, a1);
      assert RecordAt(nb, b, j2) == RecordAt(buckets, b, a2);
    }
  }

  lemma RemoveKeepsRecordsInMap(buckets: seq<seq<Data>>, m: map<string, int>, h: int, i: int)
    requires TableInvariant(buckets, m) && 0 <= h < |buckets| && 0 <= i < |buckets[h]|
    ensures RecordsInMap(buckets[h := Without(buckets[h], i)], m - {buckets[h][i].config})
  {
    var key := buckets[h][i].config;
    var nb: seq<seq<Data>> := buckets[h := Without(buckets[h], i)];
    var nm: map<string, int> := m - {key};
    forall b: int, j: int | 0 <= b < |nb| && 0 <= j < |nb[b]|
      ensures RecordAt(nb, b, j).config in nm && nm[RecordAt(nb, b, j).config] == RecordAt(nb, b, j).score
    {
      if b == h {
        var j' := if j < i then j else j + 1;
        assert RecordAt(nb, b, j) == RecordAt(buckets, h, j');
        assert RecordAt(buckets, h, i).config == key;
      } else {
        assert RecordAt(nb, b, j) == RecordAt(buckets, b, j);
        assert RecordAt(buckets, h, i).config == key;
      }
    }
  }

  lemma RemoveKeepsMapInBuckets(buckets: seq<seq<Data>>, m: map<string, int>, h: int, i: int)
    requires TableInvariant(buckets, m) && 0 <= h < |buckets| && 0 <= i < |buckets[h]|
    ensures MapInBuckets(buckets[h := Without(buckets[h], i)], m - {buckets[h][i].config})
  {
    var key := buckets[h][i].config;
    var nb: seq<seq<Data>> := buckets[h := Without(buckets[h], i)];
    var nm: map<string, int> := m - {key};
    forall k: string | k in nm
      ensures AtHome(nb, k)
    {
      assert k in m && AtHome(buckets, k);
      var hk := HashCode(k, |buckets|);
      var j :| 0 <= j < |buckets[hk]| && buckets[hk][j].config == k;
      if hk == h {
        assert j != i;
        var j' := if j < i then j else j - 1;
        assert nb[hk][j'] == buckets[hk][j];
      } else {
        assert nb[hk][j] == buckets[hk][j];
      }
    }
  }

  /** Deleting the record at position i of bucket h keeps the invariant and
      removes exactly that record's key from the map. */
  lemma RemovePreservesInvariant(buckets: seq<seq<Data>>, m: map<string, int>, h: int, i: int)
    requires TableInvariant(buckets, m) && 0 <= h < |buckets| && 0 <= i < |buckets[h]|
    ensures TableInvariant(buckets[h := Without(buckets[h], i)], m - {buckets[h][i].config})
  {
    RemoveKeepsPlacement(buckets, h, i);
    RemoveKeepsDistinct(buckets, h, i);
    RemoveKeepsRecordsInMap(buckets, m, h, i);
    RemoveKeepsMapInBuckets(buckets, m, h, i);
  }

  /** Removing a present key from a map leaves one entry fewer. */
  lemma MapRemoveCard(m: map<string, int>, k: string)
    requires k in m
    ensures |m - {k}| == |m| - 1
  {
    assert (m - {k}).Keys == m.Keys - {k};
  }

  // ---------------------------------------------------------------------
  // The table
  // ---------------------------------------------------------------------

  class HashDictionary {
    /** One bucket per slot; the array is never replaced or resized. */
    var hashTable: array<seq<Data>>
    /** The live record count. */
    var numRecords: int
    /** The abstract contents: configuration to score. */
    ghost var Contents: map<string, int>

    ghost predicate Valid()
      reads this, hashTable
    {
      && TableInvariant(hashTable[..], Contents)
      && numRecords == TotalRecords(hashTable[..])
      && numRecords == |Contents|
    }

    /** A table of size empty buckets. */
    constructor (size: nat)
      ensures Valid() && fresh(hashTable)
      ensures hashTable.Length == size && numRecords == 0 && Contents == map[]
      ensures forall b :: 0 <= b < size ==> hashTable[b] == []
    {
      var t := new seq<Data>[size];
      for i := 0 to size
        invariant forall b :: 0 <= b < i ==> t[b] == []
      {
        t[i] := [];
      }
      hashTable := t;
      numRecords := 0;
      Contents := map[];
      EmptyTableInvariant(t[..]);
    }

    /** The hash loop, run on a table of m buckets. */
    static method Hash(key: string, m: int) returns (h: int)
      requires m > 0 && |key| > 0
      ensures h == HashCode(key, m)
    {
      var val := key[0] as int;
      var x := 31;
      for i := 0 to |key|
        invariant val == HashAfter(key, m, i)
      {
        val := (val * x + key[i] as int) % m;
      }
      h := val % m;
    }

    /** Inserts record unless its configuration is already present, which
        throws and changes nothing. Otherwise appends it to its bucket and
        returns 1 when that bucket already held a record (a collision),
        0 when it was empty. */
    method Put(record: Data) returns (r: Result<int>)
      requires Valid() && hashTable.Length > 0 && |record.config| > 0
      modifies this, hashTable
      ensures Valid() && hashTable == old(hashTable)
      ensures var h := HashCode(record.config, hashTable.Length);
        if record.config in old(Contents) then
          && r == DictionaryException
          && hashTable[..] == old(hashTable[..])
          && numRecords == old(numRecords)
          && Contents == old(Contents)
        else
          && r == Ok(if |old(hashTable[h])| > 0 then 1 else 0)
          && hashTable[..] == old(hashTable[..])[h := old(hashTable[h]) + [record]]
          && numRecords == old(numRecords) + 1
          && Contents == old(Contents)[record.config := record.score]
    {
      var position := Hash(record.GetConfiguration(), hashTable.Length);
      var list := hashTable[position];
      for i := 0 to |list|
        invariant forall j :: 0 <= j < i ==> list[j].config != record.config
      {
        if list[i].GetConfiguration() == record.GetConfiguration() {
          FoundInBucket(hashTable[..], Contents, position, i);
          return DictionaryException;
        }
      }
      ghost var buckets, contents := hashTable[..], Contents;
      BucketDecidesMembership(buckets, contents, record.config);
      hashTable[position] := hashTable[position] + [record];
      numRecords := numRecords + 1;
      Contents := Contents[record.config := record.score];
      assert hashTable[..] == buckets[position := list + [record]];
      PutPreservesInvariant(buckets, contents, record);
      TotalRecordsUpdate(buckets, position, list + [record]);
      if |hashTable[position]| - 1 > 0 {
        r := Ok(1);
      } else {
        r := Ok(0);
      }
    }

    /** Deletes the record with configuration config from its bucket, keeping
        the order of the rest; throws and changes nothing when there is none. */
    method Remove(config: string) returns (r: Result<()>)
      requires Valid() && hashTable.Length > 0 && |config| > 0
      modifies this, hashTable
      ensures Valid() && hashTable == old(hashTable)
      ensures var h := HashCode(config, hashTable.Length);
        hashTable[..] == old(hashTable[..])[h := RemoveKey(old(hashTable[h]), config)]
      ensures
        if config in old(Contents) then
          && r == Ok(())
          && numRecords == old(numRecords) - 1
          && Contents == old(Contents) - {config}
        else
          && r == DictionaryException
          && hashTable[..] == old(hashTable[..])
          && numRecords == old(numRecords)
          && Contents == old(Contents)
    {
      ghost var buckets, contents := hashTable[..], Contents;
      var position := Hash(config, hashTable.Length);
      var list := hashTable[position];
      for i := 0 to |list|
        invariant forall j :: 0 <= j < i ==> list[j].config != config
      {
        if list[i].GetConfiguration() == config {
          FoundInBucket(buckets, contents, position, i);
          RemoveKeyDeletesFirstMatch(list, config, i);
          hashTable[position] := Without(list, i);
          numRecords := numRecords - 1;
          Contents := Contents - {config};
          assert hashTable[..] == buckets[position := Without(list, i)];
          RemovePreservesInvariant(buckets, contents, position, i);
          TotalRecordsUpdate(buckets, position, Without(list, i));
          MapRemoveCard(contents, config);
          return Ok(());
        }
      }
      BucketDecidesMembership(buckets, contents, config);
      RemoveKeyAbsent(list, config);
      assert buckets[position := RemoveKey(list, config)] == buckets;
      return DictionaryException;
    }

    /** The score stored for config, or the sentinel -1 when it is absent. */
    method Get(config: string) returns (score: int)
      requires Valid() && hashTable.Length > 0 && |config| > 0
      ensures score == if config in Contents then Contents[config] else NotFound
    {
      var position := Hash(config, hashTable.Length);
      var list := hashTable[position];
      for i := 0 to |list|
        invariant forall j :: 0 <= j < i ==> list[j].config != config
      {
        if list[i].GetConfiguration() == config {
          FoundInBucket(hashTable[..], Contents, position, i);
          return list[i].GetScore();
        }
      }
      BucketDecidesMembership(hashTable[..], Contents, config);
      return NotFound;
    }

    /** The live record count: the number of records in all buckets, which
        is also the number of distinct keys stored. */
    function NumRecords(): (n: int)
      reads this, hashTable
      requires Valid()
      ensures n == TotalRecords(hashTable[..]) && n == |Contents|
    {
      numRecords
    }
  }

  /** After put(k, s) into a table without k, get(k) gives s; after
      remove(k), get(k) gives the sentinel, and the table is back to its
      original contents and count. */
  method PutGetRemove(d: HashDictionary, k: string, s: int)
    returns (put: Result<int>, found: int, removed: Result<()>, after: int)
    requires d.Valid() && d.hashTable.Length > 0 && |k| > 0 && k !in d.Contents
    modifies d, d.hashTable
    ensures put.Ok? && found == s && removed == Ok(()) && after == NotFound
    ensures d.Valid() && d.Contents == old(d.Contents) && d.numRecords == old(d.numRecords)
  {
    put := d.Put(Data(k, s));
    found := d.Get(k);
    removed := d.Remove(k);
    after := d.Get(k);
    assert d.Contents == old(d.Contents)[k := s] - {k};
  }

  /** Two different keys hashing to the same bucket of a new table are both
      retrievable, and the second put reports the collision. */
  method CollidingKeysStayRetrievable(m: nat, k1: string, k2: string, s1: int, s2: int)
    returns (first: Result<int>, second: Result<int>, got1: int, got2: int)
    requires m > 0 && |k1| > 0 && |k2| > 0 && k1 != k2 && HashCode(k1, m) == HashCode(k2, m)
    ensures first == Ok(0) && second == Ok(1) && got1 == s1 && got2 == s2
  {
    var d := new HashDictionary(m);
    first := d.Put(Data(k1, s1));
    second := d.Put(Data(k2, s2));
    got1 := d.Get(k1);
    got2 := d.Get(k2);
  }
}
