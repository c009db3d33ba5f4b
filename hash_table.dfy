/** The separately chained hash table of the network program: an array of
    buckets, each a list of key/value entries, with a running entry count and
    a capacity that doubles once the load factor passes three quarters. */
module HashTables {
  import opened Lang

  /** `String.hashCode`: s[0]*31^(n-1) + ... + s[n-1], in 32-bit arithmetic. */
  function HashCode(s: string): (h: int)
    ensures IsInt32(h)
  {
    if |s| == 0 then 0 else Wrap32(31 * HashCode(s[..|s| - 1]) + s[|s| - 1] as int)
  }

  /** `Math.abs(key.hashCode())`, taken as the mathematical absolute value. */
  function AbsHashCode(key: string): (h: nat)
    ensures h == HashCode(key) || h == -HashCode(key)
    ensures h <= IntMax || HashCode(key) == IntMin
  {
    if HashCode(key) < 0 then -HashCode(key) else HashCode(key)
  }

  /** `hash(key)`: the bucket of a key under the hash function `hash`. */
  function Index(hash: string -> nat, key: string, capacity: int): (i: int)
    requires capacity > 0
    ensures 0 <= i < capacity
  {
    hash(key) % capacity
  }

  datatype Entry<V> = Entry(key: string, value: V)

  /** Every entry of bucket `i` hashes to `i`, agrees with the map `m`, and
      no key occurs twice in it. */
  ghost predicate BucketValid<V>(hash: string -> nat, b: seq<Entry<V>>, i: int, capacity: int, m: map<string, V>)
    requires capacity > 0
  {
    (forall j | 0 <= j < |b| :: Index(hash, b[j].key, capacity) == i && b[j].key in m && m[b[j].key] == b[j].value) &&
    (forall j, j' | 0 <= j < j' < |b| :: b[j].key != b[j'].key)
  }

  predicate HasKey<V>(b: seq<Entry<V>>, key: string)
  {
    exists j | 0 <= j < |b| :: b[j].key == key
  }

  /** The buckets `t` represent the map `m`: every entry sits in the bucket
      its key hashes to, agrees with `m`, and every key of `m` has an entry. */
  ghost predicate TableValid<V>(hash: string -> nat, t: seq<seq<Entry<V>>>, m: map<string, V>)
  {
    |t| > 0 && BucketsValid(hash, t, |t|, m) &&
    (forall k | k in m :: HasKey(t[Index(hash, k, |t|)], k))
  }

  /** Buckets `0..n-1` of `t` are valid for `m`, one bucket at a time. */
  ghost predicate BucketsValid<V>(hash: string -> nat, t: seq<seq<Entry<V>>>, n: int, m: map<string, V>)
    requires 0 <= n <= |t|
  {
    n == 0 || (BucketValid(hash, t[n - 1], n - 1, |t|, m) && BucketsValid(hash, t, n - 1, m))
  }

  lemma {:induction false} AllBuckets<V>(hash: string -> nat, t: seq<seq<Entry<V>>>, n: int, m: map<string, V>)
    requires 0 <= n <= |t|
    ensures BucketsValid(hash, t, n, m) <==> forall i | 0 <= i < n :: BucketValid(hash, t[i], i, |t|, m)
  {
    if n > 0 {
      AllBuckets(hash, t, n - 1, m);
    }
  }

  lemma {:induction false} EmptyValid<V>(hash: string -> nat, t: seq<seq<Entry<V>>>)
    requires |t| > 0 && forall i | 0 <= i < |t| :: t[i] == []
    ensures TableValid(hash, t, map[])
  {
    AllBuckets(hash, t, |t|, map[]);
  }

  /** A key found at position `j` of its bucket is in the map, with that value. */
  lemma {:induction false} Found<V>(hash: string -> nat, t: seq<seq<Entry<V>>>, m: map<string, V>, key: string, j: int)
    requires TableValid(hash, t, m)
    requires 0 <= j < |t[Index(hash, key, |t|)]| && t[Index(hash, key, |t|)][j].key == key
    ensures key in m && m[key] == t[Index(hash, key, |t|)][j].value
  {
    AllBuckets(hash, t, |t|, m);
  }

  /** A key missing from its bucket is not in the map. */
  lemma {:induction false} NotFound<V>(hash: string -> nat, t: seq<seq<Entry<V>>>, m: map<string, V>, key: string)
    requires TableValid(hash, t, m)
    requires forall j | 0 <= j < |t[Index(hash, key, |t|)]| :: t[Index(hash, key, |t|)][j].key != key
    ensures key !in m
  {
    AllBuckets(hash, t, |t|, m);
  }

  lemma {:induction false} OverwriteValid<V>(hash: string -> nat, t: seq<seq<Entry<V>>>, m: map<string, V>, key: string, value: V, j: int)
    requires TableValid(hash, t, m)
    requires 0 <= j < |t[Index(hash, key, |t|)]| && t[Index(hash, key, |t|)][j].key == key
    ensures var x := Index(hash, key, |t|); TableValid(hash, t[x := t[x][j := Entry(key, value)]], m[key := value])
  {
    AllBuckets(hash, t, |t|, m);
    var x := Index(hash, key, |t|);
    var t' := t[x := t[x][j := Entry(key, value)]];
    var m' := m[key := value];
    forall i | 0 <= i < |t'|
      ensures BucketValid(hash, t'[i], i, |t'|, m')
    {
      assert BucketValid(hash, t[i], i, |t|, m);
    }
    forall k | k in m'
      ensures HasKey(t'[Index(hash, k, |t'|)], k)
    {
      if k != key {
        assert HasKey(t[Index(hash, k, |t|)], k);
        var y :| 0 <= y < |t[Index(hash, k, |t|)]| && t[Index(hash, k, |t|)][y].key == k;
        assert t'[Index(hash, k, |t'|)][y].key == k;
      } else {
        assert t'[x][j].key == k;
      }
    }
    AllBuckets(hash, t', |t'|, m');
  }

  lemma {:induction false} AppendValid<V>(hash: string -> nat, t: seq<seq<Entry<V>>>, m: map<string, V>, key: string, value: V)
    requires TableValid(hash, t, m) && key !in m
    ensures var x := Index(hash, key, |t|); TableValid(hash, t[x := t[x] + [Entry(key, value)]], m[key := value])
  {
    AllBuckets(hash, t, |t|, m);
    var x := Index(hash, key, |t|);
    var t' := t[x := t[x] + [Entry(key, value)]];
    var m' := m[key := value];
    forall i | 0 <= i < |t'|
      ensures BucketValid(hash, t'[i], i, |t'|, m')
    {
      assert BucketValid(hash, t[i], i, |t|, m);
    }
    forall k | k in m'
      ensures HasKey(t'[Index(hash, k, |t'|)], k)
    {
      if k != key {
        assert HasKey(t[Index(hash, k, |t|)], k);
        var y :| 0 <= y < |t[Index(hash, k, |t|)]| && t[Index(hash, k, |t|)][y].key == k;
        assert t'[Index(hash, k, |t'|)][y].key == k;
      } else {
        assert t'[x][|t[x]|].key == k;
      }
    }
    AllBuckets(hash, t', |t'|, m');
  }

  lemma {:induction false} BucketRemove<V>(hash: string -> nat, b: seq<Entry<V>>, x: int, capacity: int, m: map<string, V>, j: int)
    requires capacity > 0 && BucketValid(hash, b, x, capacity, m) && 0 <= j < |b|
    ensures BucketValid(hash, b[..j] + b[j + 1..], x, capacity, m - {b[j].key})
  {
    var b' := b[..j] + b[j + 1..];
    assert forall y | 0 <= y < |b'| :: b'[y] == if y < j then b[y] else b[y + 1];
  }

  lemma {:induction false} BucketOther<V>(hash: string -> nat, b: seq<Entry<V>>, i: int, capacity: int, m: map<string, V>, key: string)
    requires capacity > 0 && BucketValid(hash, b, i, capacity, m) && i != Index(hash, key, capacity)
    ensures BucketValid(hash, b, i, capacity, m - {key})
  {
  }

  /** After removal, a key still in the map keeps its entry. */
  lemma {:induction false} StillThere<V>(b: seq<Entry<V>>, j: int, k: string, y: int)
    requires 0 <= j < |b| && 0 <= y < |b| && b[y].key == k && y != j
    ensures HasKey(b[..j] + b[j + 1..], k)
  {
    var b' := b[..j] + b[j + 1..];
    if y < j {
      assert b'[y] == b[y];
    } else {
      assert b'[y - 1] == b[y];
    }
  }

  lemma {:induction false} RemoveValid<V>(hash: string -> nat, t: seq<seq<Entry<V>>>, m: map<string, V>, key: string, j: int)
    requires TableValid(hash, t, m)
    requires 0 <= j < |t[Index(hash, key, |t|)]| && t[Index(hash, key, |t|)][j].key == key
    ensures var x := Index(hash, key, |t|); TableValid(hash, t[x := t[x][..j] + t[x][j + 1..]], m - {key})
  {
    AllBuckets(hash, t, |t|, m);
    var x := Index(hash, key, |t|);
    var b := t[x][..j] + t[x][j + 1..];
    var t' := t[x := b];
    var m' := m - {key};
    forall i | 0 <= i < |t'|
      ensures BucketValid(hash, t'[i], i, |t'|, m')
    {
      assert BucketValid(hash, t[i], i, |t|, m);
      if i == x {
        BucketRemove(hash, t[x], x, |t|, m, j);
      } else {
        BucketOther(hash, t[i], i, |t|, m, key);
      }
    }
    forall k | k in m'
      ensures HasKey(t'[Index(hash, k, |t'|)], k)
    {
      assert HasKey(t[Index(hash, k, |t|)], k);
      var y :| 0 <= y < |t[Index(hash, k, |t|)]| && t[Index(hash, k, |t|)][y].key == k;
      if Index(hash, k, |t|) == x {
        StillThere(t[x], j, k, y);
      } else {
        assert t'[Index(hash, k, |t'|)][y].key == k;
      }
    }
    AllBuckets(hash, t', |t'|, m');
  }

  /** The keys of buckets `0..i-1` and of the first `j` entries of bucket
      `i`: the entries a bucket-by-bucket walk has passed. */
  ghost function Done<V>(t: seq<seq<Entry<V>>>, i: int, j: int): set<string>
    requires 0 <= i < |t| && 0 <= j <= |t[i]|
    decreases i, j
  {
    if j > 0 then Done(t, i, j - 1) + {t[i][j - 1].key}
    else if i > 0 then Done(t, i - 1, |t[i - 1]|)
    else {}
  }

  /** The keys of buckets `0..i-1`. */
  ghost function Passed<V>(t: seq<seq<Entry<V>>>, i: int): set<string>
    requires 0 <= i <= |t|
  {
    if i == 0 then {} else Done(t, i - 1, |t[i - 1]|)
  }

  /** Every key in `Done(t, i, j)` comes from an entry before position `(i, j)`. */
  lemma {:induction false} DoneFrom<V>(t: seq<seq<Entry<V>>>, i: int, j: int, k: string)
    requires 0 <= i < |t| && 0 <= j <= |t[i]| && k in Done(t, i, j)
    ensures exists b, y | 0 <= b <= i && 0 <= y < |t[b]| && (b < i || y < j) :: t[b][y].key == k
    decreases i, j
  {
    if j > 0 {
      if k != t[i][j - 1].key {
        DoneFrom(t, i, j - 1, k);
      }
    } else if i > 0 {
      DoneFrom(t, i - 1, |t[i - 1]|, k);
    }
  }

  /** Every entry before position `(i, j)` has its key in `Done(t, i, j)`. */
  lemma {:induction false} DoneHas<V>(t: seq<seq<Entry<V>>>, i: int, j: int, b: int, y: int)
    requires 0 <= i < |t| && 0 <= j <= |t[i]|
    requires 0 <= b <= i && 0 <= y < |t[b]| && (b < i || y < j)
    ensures t[b][y].key in Done(t, i, j)
    decreases i, j
  {
    if j > 0 {
      if !(b == i && y == j - 1) {
        DoneHas(t, i, j - 1, b, y);
      }
    } else {
      DoneHas(t, i - 1, |t[i - 1]|, b, y);
    }
  }

  ghost function Restrict<V>(m: map<string, V>, keys: set<string>): map<string, V>
  {
    map k | k in m && k in keys :: m[k]
  }

  /** Rehashing entry `j` of bucket `i` adds a key not done before. */
  lemma {:induction false} DoneFresh<V>(hash: string -> nat, t: seq<seq<Entry<V>>>, m: map<string, V>, i: int, j: int)
    requires TableValid(hash, t, m) && 0 <= i < |t| && 0 <= j < |t[i]|
    ensures t[i][j].key !in Done(t, i, j)
    ensures t[i][j].key in m && m[t[i][j].key] == t[i][j].value
  {
    AllBuckets(hash, t, |t|, m);
    var k := t[i][j].key;
    assert BucketValid(hash, t[i], i, |t|, m);
    forall b, y | 0 <= b <= i && 0 <= y < |t[b]| && (b < i || y < j)
      ensures t[b][y].key != k
    {
      assert BucketValid(hash, t[b], b, |t|, m);
    }
    if k in Done(t, i, j) {
      DoneFrom(t, i, j, k);
      assert false;
    }
  }

  lemma {:induction false} RestrictAdd<V>(m: map<string, V>, d: set<string>, k: string)
    requires k in m
    ensures Restrict(m, d + {k}) == Restrict(m, d)[k := m[k]]
  {
  }

  /** One step of the inner loop of `resize()`, on values: the next entry
      is new to the map built so far, and putting it extends that map to the
      entries done one step later. */
  lemma {:induction false} RehashStep<V>(hash: string -> nat, t: seq<seq<Entry<V>>>, m: map<string, V>, i: int, j: int, c: map<string, V>)
    requires TableValid(hash, t, m) && 0 <= i < |t| && 0 <= j < |t[i]| && c == Restrict(m, Done(t, i, j))
    ensures t[i][j].key !in c && |c| + 1 <= |m|
    ensures c[t[i][j].key := t[i][j].value] == Restrict(m, Done(t, i, j + 1))
  {
    DoneFresh(hash, t, m, i, j);
    RestrictAdd(m, Done(t, i, j), t[i][j].key);
    SubsetCard(c.Keys + {t[i][j].key}, m.Keys);
  }

  /** Once every bucket is done, every key of the map is. */
  lemma {:induction false} DoneAll<V>(hash: string -> nat, t: seq<seq<Entry<V>>>, m: map<string, V>)
    requires TableValid(hash, t, m)
    ensures Restrict(m, Passed(t, |t|)) == m
  {
    AllBuckets(hash, t, |t|, m);
    var d := Done(t, |t| - 1, |t[|t| - 1]|);
    forall k | k in m
      ensures k in d
    {
      assert HasKey(t[Index(hash, k, |t|)], k);
      var y :| 0 <= y < |t[Index(hash, k, |t|)]| && t[Index(hash, k, |t|)][y].key == k;
      DoneHas(t, |t| - 1, |t[|t| - 1]|, Index(hash, k, |t|), y);
    }
  }

  lemma {:induction false} SubsetCard<T>(a: set<T>, b: set<T>)
    requires a <= b
    ensures |a| <= |b|
    decreases a
  {
    if a != {} {
      var x :| x in a;
      SubsetCard(a - {x}, b - {x});
    }
  }

  /** A sequence without repetitions has as many elements as its set. */
  lemma {:induction false} DistinctCard<T>(s: seq<T>)
    requires forall i, j | 0 <= i < j < |s| :: s[i] != s[j]
    ensures |set x | x in s| == |s|
  {
    if |s| > 0 {
      var t := s[..|s| - 1];
      DistinctCard(t);
      assert (set x | x in s) == (set x | x in t) + {s[|s| - 1]};
      assert forall y | 0 <= y < |t| :: t[y] != s[|s| - 1];
    }
  }

  /** `v` is the value of some key of `m`. */
  ghost predicate Stored<V>(m: map<string, V>, v: V)
  {
    exists k | k in m :: m[k] == v
  }

  /** `v` occurs in `vs`. */
  ghost predicate Listed<V>(vs: seq<V>, v: V)
  {
    exists i | 0 <= i < |vs| :: vs[i] == v
  }

  /** Values listed along a list of the map's keys are exactly the map's
      values. */
  lemma {:induction false} ValuesOfKeys<V>(vs: seq<V>, keys: seq<string>, m: map<string, V>)
    requires |vs| == |keys|
    requires forall k :: k in keys <==> k in m
    requires forall i | 0 <= i < |keys| :: keys[i] in m && vs[i] == m[keys[i]]
    ensures forall i | 0 <= i < |vs| :: Stored(m, vs[i])
    ensures forall k | k in m :: Listed(vs, m[k])
  {
    forall i | 0 <= i < |vs|
      ensures Stored(m, vs[i])
    {
      assert keys[i] in m && m[keys[i]] == vs[i];
    }
    forall k | k in m
      ensures Listed(vs, m[k])
    {
      var i :| 0 <= i < |keys| && keys[i] == k;
      assert vs[i] == m[k];
    }
  }

  class HashTable<V> {
    var table: array<seq<Entry<V>>>
    var size: int
    var capacity: int
    /** `key.hashCode()`, made non-negative. */
    const hash: string -> nat
    /** The map the table represents. */
    ghost var contents: map<string, V>

    /** The representation invariant without the load bound: the state
        between `size++` and `resize()` in `put`. */
    ghost predicate Buckets()
      reads this, table
    {
      capacity == table.Length && size == |contents| && TableValid(hash, table[..], contents)
    }

    ghost predicate Valid()
      reads this, table
    {
      Buckets() && 4 * size <= 3 * capacity
    }

    /** `HashTable()`: eleven empty buckets. */
    constructor()
      ensures Valid() && contents == map[] && size == 0 && capacity == 11 && hash == AbsHashCode
    {
      hash := AbsHashCode;
      capacity := 11;
      size := 0;
      table := new seq<Entry<V>>[11](_ => []);
      contents := map[];
      new;
      EmptyValid(hash, table[..]);
    }

    /** `HashTable(capacity)`: `capacity` empty buckets. */
    constructor WithCapacity(capacity: int)
      requires capacity > 0
      ensures Valid() && contents == map[] && size == 0 && this.capacity == capacity && hash == AbsHashCode
    {
      hash := AbsHashCode;
      this.capacity := capacity;
      size := 0;
      table := new seq<Entry<V>>[capacity](_ => []);
      contents := map[];
      new;
      EmptyValid(hash, table[..]);
    }

    /** `put(key, value)`: overwrite the entry of `key` or append a new one;
        a new entry that lifts the load factor above 0.75 doubles the
        capacity. */
    method Put(key: string, value: V)
      requires Valid()
      modifies this, table
      decreases if 4 * (size + 1) > 3 * capacity then 4 else 0
      ensures Valid()
      ensures capacity == old(capacity) ==> table == old(table)
      ensures capacity != old(capacity) ==> fresh(table)
      ensures contents == old(contents)[key := value]
      ensures key in old(contents) ==> size == old(size) && capacity == old(capacity)
      ensures key !in old(contents) ==> size == old(size) + 1 &&
                                        capacity == if 4 * size > 3 * old(capacity) then 2 * old(capacity) else old(capacity)
    {
      var index := Index(hash, key, capacity);
      var bucket := table[index];
      var i := 0;
      while i < |bucket|
        invariant 0 <= i <= |bucket|
        invariant forall j | 0 <= j < i :: bucket[j].key != key
      {
        if bucket[i].key == key {
          Found(hash, table[..], contents, key, i);
          OverwriteValid(hash, table[..], contents, key, value, i);
          table[index] := bucket[i := Entry(key, value)];
          contents := contents[key := value];
          return;
        }
        i := i + 1;
      }
      NotFound(hash, table[..], contents, key);
      AppendValid(hash, table[..], contents, key, value);
      table[index] := bucket + [Entry(key, value)];
      contents := contents[key := value];
      size := size + 1;
      if 4 * size > 3 * capacity {
        Resize();
      }
    }

    /** `resize()`: double the capacity and put every entry again. */
    method Resize()
      requires Buckets() && 4 * (size - 1) <= 3 * capacity
      modifies this
      decreases 3
      ensures Valid() && fresh(table)
      ensures contents == old(contents) && size == old(size) && capacity == 2 * old(capacity)
    {
      ghost var oldContents := contents;
      capacity := capacity * 2;
      var oldTable := table;
      ghost var t := oldTable[..];
      table := new seq<Entry<V>>[capacity](_ => []);
      size := 0;
      contents := map[];
      EmptyValid(hash, table[..]);
      PutAll(oldTable, t, oldContents);
    }

    /** The outer loop of `resize()`: put the entries of every old bucket
        into the doubled table. */
    method PutAll(oldTable: array<seq<Entry<V>>>, ghost t: seq<seq<Entry<V>>>, ghost oldContents: map<string, V>)
      requires TableValid(hash, t, oldContents) && oldTable[..] == t && oldTable != table
      requires 4 * (|oldContents| - 1) <= 3 * |t|
      requires Valid() && capacity == 2 * |t| && contents == map[]
      modifies this, table
      decreases 2
      ensures Valid() && capacity == old(capacity) && table == old(table)
      ensures contents == oldContents
    {
      var i := 0;
      assert Passed(t, 0) == {};
      assert contents == Restrict(oldContents, Passed(t, 0));
      while i < oldTable.Length
        invariant 0 <= i <= oldTable.Length && oldTable[..] == t
        invariant Valid() && capacity == old(capacity) && table == old(table)
        invariant contents == Restrict(oldContents, Passed(t, i))
      {
        PutBucket(oldTable[i], t, i, oldContents);
        i := i + 1;
      }
      DoneAll(hash, t, oldContents);
    }

    /** The inner loop of `resize()`: put every entry of old bucket `i`
        into the doubled table. */
    method PutBucket(bucket: seq<Entry<V>>, ghost t: seq<seq<Entry<V>>>, ghost i: int, ghost oldContents: map<string, V>)
      requires TableValid(hash, t, oldContents) && 0 <= i < |t| && bucket == t[i]
      requires 4 * (|oldContents| - 1) <= 3 * |t|
      requires Valid() && capacity == 2 * |t| && contents == Restrict(oldContents, Passed(t, i))
      modifies this, table
      decreases 1
      ensures Valid() && capacity == old(capacity) && table == old(table)
      ensures contents == Restrict(oldContents, Passed(t, i + 1))
    {
      assert Passed(t, i) == Done(t, i, 0);
      var j := 0;
      while j < |bucket|
        invariant 0 <= j <= |bucket|
        invariant Valid() && capacity == old(capacity) && table == old(table)
        invariant contents == Restrict(oldContents, Done(t, i, j))
      {
        RehashStep(hash, t, oldContents, i, j, contents);
        Put(bucket[j].key, bucket[j].value);
        j := j + 1;
      }
    }

    /** `get(key)`: the value stored under `key`, or null. */
    method Get(key: string) returns (r: Option<V>)
      requires Valid()
      ensures r == if key in contents then Some(contents[key]) else None
    {
      var bucket := table[Index(hash, key, capacity)];
      var i := 0;
      while i < |bucket|
        invariant 0 <= i <= |bucket|
        invariant forall j | 0 <= j < i :: bucket[j].key != key
      {
        if bucket[i].key == key {
          Found(hash, table[..], contents, key, i);
          return Some(bucket[i].value);
        }
        i := i + 1;
      }
      NotFound(hash, table[..], contents, key);
      return None;
    }

    /** `containsKey(key)`. */
    method ContainsKey(key: string) returns (b: bool)
      requires Valid()
      ensures b <==> key in contents
    {
      var bucket := table[Index(hash, key, capacity)];
      var i := 0;
      while i < |bucket|
        invariant 0 <= i <= |bucket|
        invariant forall j | 0 <= j < i :: bucket[j].key != key
      {
        if bucket[i].key == key {
          Found(hash, table[..], contents, key, i);
          return true;
        }
        i := i + 1;
      }
      NotFound(hash, table[..], contents, key);
      return false;
    }

    /** `remove(key)`: drop the entry of `key`, if any. */
    method Remove(key: string)
      requires Valid()
      modifies this, table
      ensures Valid() && table == old(table) && capacity == old(capacity)
      ensures contents == old(contents) - {key}
      ensures size == if key in old(contents) then old(size) - 1 else old(size)
    {
      var index := Index(hash, key, capacity);
      var bucket := table[index];
      var i := 0;
      while i < |bucket|
        invariant 0 <= i <= |bucket|
        invariant forall j | 0 <= j < i :: bucket[j].key != key
      {
        if bucket[i].key == key {
          Found(hash, table[..], contents, key, i);
          RemoveValid(hash, table[..], contents, key, i);
          table[index] := bucket[..i] + bucket[i + 1..];
          contents := contents - {key};
          size := size - 1;
          return;
        }
        i := i + 1;
      }
      NotFound(hash, table[..], contents, key);
    }

    /** `values()`: the value of every entry, bucket by bucket; `keys`
        names the entry each value comes from. */
    method Values() returns (vs: seq<V>, ghost keys: seq<string>)
      requires Valid()
      ensures |vs| == size
      ensures |keys| == size
      ensures forall i | 0 <= i < |vs| :: Stored(contents, vs[i])
      ensures forall k | k in contents :: Listed(vs, contents[k])
      ensures forall i, j | 0 <= i < j < |keys| :: keys[i] != keys[j]
      ensures forall k :: k in keys <==> k in contents
      ensures forall i | 0 <= i < |keys| :: keys[i] in contents && vs[i] == contents[keys[i]]
    {
      ghost var t := table[..];
      vs, keys := [], [];
      var i := 0;
      while i < table.Length
        invariant 0 <= i <= table.Length && table[..] == t
        invariant |vs| == |keys|
        invariant forall a, b | 0 <= a < b < |keys| :: keys[a] != keys[b]
        invariant forall k :: k in keys <==> k in Passed(t, i)
        invariant forall a | 0 <= a < |keys| :: keys[a] in contents && vs[a] == contents[keys[a]]
      {
        var bucket := table[i];
        assert Passed(t, i) == Done(t, i, 0);
        var j := 0;
        while j < |bucket|
          invariant 0 <= j <= |bucket| && bucket == t[i]
          invariant |vs| == |keys|
          invariant forall a, b | 0 <= a < b < |keys| :: keys[a] != keys[b]
          invariant forall k :: k in keys <==> k in Done(t, i, j)
          invariant forall a | 0 <= a < |keys| :: keys[a] in contents && vs[a] == contents[keys[a]]
        {
          DoneFresh(hash, t, contents, i, j);
          vs, keys := vs + [bucket[j].value], keys + [bucket[j].key];
          j := j + 1;
        }
        i := i + 1;
      }
      DoneAll(hash, t, contents);
      DistinctCard(keys);
      assert (set k | k in keys) == contents.Keys;
      ValuesOfKeys(vs, keys, contents);
    }
  }
}
