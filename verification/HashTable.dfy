// sdk/as/hashtbl.c: the dictionary, an open-addressing hash table with double hashing.
module HashTable {
  import opened Base
  import opened Powers

  // ----- Probe sequences -----

  const TWO_32 := 0x1_0000_0000

  // hash_inc: always odd.
  function Inc(hash: nat, size: nat): (r: nat)
    requires size > 0
    ensures r % 2 == 1
  {
    var x := hash / TWO_32 % size;
    if x % 2 == 0 then x + 1 else x
  }

  // The position after k steps.
  function Pos(hash: nat, k: nat, size: nat): (p: nat)
    requires size > 0
    ensures p < size
  {
    if k == 0 then hash % size else (Pos(hash, k - 1, size) + Inc(hash, size)) % size
  }

  lemma HalveProduct(a: int, inc: int, n: nat)
    requires n > 0 && inc % 2 == 1 && (a * inc) % (2 * n) == 0
    ensures a % 2 == 0 && (a / 2 * inc) % n == 0
  {
    var q := (a * inc) / (2 * n);
    assert a * inc == q * (2 * n);
    assert q * (2 * n) == 2 * (q * n) by { MulAssoc(q, 2, n); MulAssoc(2, q, n); }
    if a % 2 == 1 {
      OddProduct(a, inc);
    } else {
      MulAssoc(2, a / 2, inc);
      DivModUnique(a / 2 * inc, n, q, 0);
    }
  }

  lemma DoubleMultiple(b: int, n: nat)
    requires n > 0 && b % n == 0
    ensures 2 * b % (2 * n) == 0
  {
    var q := b / n;
    assert 2 * b == q * (2 * n) by { MulAssoc(q, 2, n); MulAssoc(2, q, n); }
    DivModUnique(2 * b, 2 * n, q, 0);
  }

  // An odd factor does not help a number to be a multiple of a power of two.
  lemma {:induction false} OddFactor(a: int, inc: int, m: nat)
    requires inc % 2 == 1 && (a * inc) % Pow2(m) == 0
    ensures a % Pow2(m) == 0
    decreases m
  {
    if m > 0 {
      HalveProduct(a, inc, Pow2(m - 1));
      OddFactor(a / 2, inc, m - 1);
      DoubleMultiple(a / 2, Pow2(m - 1));
    }
  }

  lemma OddProduct(a: int, b: int)
    requires a % 2 == 1 && b % 2 == 1
    ensures (a * b) % 2 == 1
  {
    var c, d := a / 2, b / 2;
    assert a == 2 * c + 1 && b == 2 * d + 1;
    MulDistrib(2 * c, 1, b);
    MulAssoc(2, c, b);
    assert a * b == 2 * (c * b + d) + 1;
  }

  // How often the sequence has wrapped round in k steps.
  function Wraps(hash: nat, k: nat, size: nat): int
    requires size > 0
  {
    if k == 0 then 0 else Wraps(hash, k - 1, size) + (Pos(hash, k - 1, size) + Inc(hash, size)) / size
  }

  lemma {:induction false} PosIs(hash: nat, k: nat, size: nat)
    requires size > 0
    ensures hash % size + k * Inc(hash, size) == Wraps(hash, k, size) * size + Pos(hash, k, size)
  {
    hide Inc;
    if k > 0 {
      PosIs(hash, k - 1, size);
      PosStep(hash % size, k - 1, Inc(hash, size), Wraps(hash, k - 1, size), Pos(hash, k - 1, size), size);
    }
  }

  lemma PosStep(h: int, k: int, inc: int, w: int, p: int, size: int)
    requires size > 0 && h + k * inc == w * size + p
    ensures h + (k + 1) * inc == (w + (p + inc) / size) * size + (p + inc) % size
  {}

  lemma SamePosition(h: int, i: int, j: int, inc: int, q: int, r: int, p: int, size: int)
    requires size > 0 && h + i * inc == q * size + p && h + j * inc == r * size + p
    ensures ((j - i) * inc) % size == 0
  {
    MulDistrib(j, -i, inc);
    MulDistrib(r, -q, size);
    DivModUnique((j - i) * inc, size, r - q, 0);
  }

  // A probe sequence does not return to a position within size steps.
  lemma Injective(hash: nat, i: nat, j: nat, m: nat)
    requires i < j < Pow2(m)
    ensures Pos(hash, i, Pow2(m)) != Pos(hash, j, Pow2(m))
  {
    var size := Pow2(m);
    var inc := Inc(hash, size);
    hide Inc, Pos, Wraps;
    PosIs(hash, i, size);
    PosIs(hash, j, size);
    if Pos(hash, i, size) == Pos(hash, j, size) {
      SamePosition(hash % size, i, j, inc, Wraps(hash, i, size), Wraps(hash, j, size), Pos(hash, i, size), size);
      OddFactor(j - i, inc, m);
      DivModUnique(j - i, size, 0, j - i);
      assert false;
    }
  }

  // The first k positions.
  function Probed(hash: nat, k: nat, size: nat): set<nat>
    requires size > 0
  {
    set j: nat | 0 <= j < k :: Pos(hash, j, size)
  }

  lemma {:induction false} ProbedCount(hash: nat, k: nat, m: nat)
    requires k <= Pow2(m)
    ensures |Probed(hash, k, Pow2(m))| == k
    decreases k
  {
    var size := Pow2(m);
    if k > 0 {
      ProbedCount(hash, k - 1, m);
      forall j: nat | 0 <= j < k - 1 ensures Pos(hash, j, size) != Pos(hash, k - 1, size) {
        Injective(hash, j, k - 1, m);
      }
      assert Probed(hash, k, size) == Probed(hash, k - 1, size) + {Pos(hash, k - 1, size)};
      assert Pos(hash, k - 1, size) !in Probed(hash, k - 1, size);
    }
  }

  function Below(n: nat): set<nat> {
    if n == 0 then {} else Below(n - 1) + {n - 1}
  }

  lemma {:induction false} BelowHas(n: nat, i: nat)
    ensures i in Below(n) <==> i < n
  {
    if n > 0 { BelowHas(n - 1, i); }
  }

  lemma {:induction false} BelowCount(n: nat)
    ensures |Below(n)| == n
  {
    if n > 0 {
      BelowCount(n - 1);
      BelowHas(n - 1, n - 1);
    }
  }

  lemma SubsetSize<T>(a: set<T>, b: set<T>)
    requires a <= b
    ensures |a| <= |b| && (|a| == |b| ==> a == b)
  {
    assert b == a + (b - a);
  }

  // So it visits every slot of the table.
  lemma VisitsAll(hash: nat, target: nat, m: nat)
    requires target < Pow2(m)
    ensures exists k: nat :: k < Pow2(m) && Pos(hash, k, Pow2(m)) == target
  {
    var size := Pow2(m);
    ProbedCount(hash, size, m);
    BelowCount(size);
    forall p | p in Probed(hash, size, size) ensures p in Below(size) {
      BelowHas(size, p);
    }
    SubsetSize(Probed(hash, size, size), Below(size));
    BelowHas(size, target);
    assert target in Probed(hash, size, size);
  }

  // ----- The table -----

  // struct hash_tbl_node; a free node has no key.
  datatype Slot<V> = Free | Used(hash: nat, key: string, data: V)

  function UsedAt<V>(slots: seq<Slot<V>>): set<nat> {
    set i: nat | 0 <= i < |slots| && slots[i].Used?
  }

  // The first k slots of the hash's probe sequence are in use.
  predicate Busy<V>(slots: seq<Slot<V>>, hash: nat, k: nat)
    requires |slots| > 0
  {
    forall j: nat :: j < k ==> slots[Pos(hash, j, |slots|)].Used?
  }

  // The first k slots of the hash's probe sequence do not hold the key.
  predicate Misses<V>(slots: seq<Slot<V>>, hash: nat, key: string, k: nat)
    requires |slots| > 0
  {
    forall j: nat :: j < k ==> slots[Pos(hash, j, |slots|)].Used? && slots[Pos(hash, j, |slots|)].key != key
  }

  // The used slot i can be found: the sequence of its hash comes to it over used slots.
  ghost predicate Reachable<V>(slots: seq<Slot<V>>, i: nat)
    requires |slots| > 0 && i < |slots|
  {
    slots[i].Used? ==> exists k: nat :: Busy(slots, slots[i].hash, k) && Pos(slots[i].hash, k, |slots|) == i
  }

  ghost predicate AllReachable<V>(slots: seq<Slot<V>>)
    requires |slots| > 0
  {
    forall i: nat :: i < |slots| ==> Reachable(slots, i)
  }

  predicate Hashed<V>(slots: seq<Slot<V>>, hashOf: string -> nat) {
    forall i: nat :: i < |slots| && slots[i].Used? ==> slots[i].hash == hashOf(slots[i].key)
  }

  predicate KeysDiffer<V>(slots: seq<Slot<V>>) {
    forall i: nat, j: nat :: i < |slots| && j < |slots| && i != j && slots[i].Used? && slots[j].Used? ==> slots[i].key != slots[j].key
  }

  ghost predicate Holds<V>(slots: seq<Slot<V>>, key: string, data: V) {
    exists i: nat :: i < |slots| && slots[i].Used? && slots[i].key == key && slots[i].data == data
  }

  // The slots hold exactly the bindings of m.
  ghost predicate HoldsMap<V>(slots: seq<Slot<V>>, m: map<string, V>) {
    (forall i: nat :: i < |slots| && slots[i].Used? ==> slots[i].key in m && m[slots[i].key] == slots[i].data) &&
    (forall k :: k in m ==> Holds(slots, k, m[k]))
  }

  ghost predicate GoodSlots<V>(slots: seq<Slot<V>>, hashOf: string -> nat, m: map<string, V>) {
    |slots| > 0 && AllReachable(slots) && Hashed(slots, hashOf) && KeysDiffer(slots) && HoldsMap(slots, m)
  }

  // ----- Searching -----

  lemma ProbedUsed<V>(slots: seq<Slot<V>>, hash: nat, k: nat, m: nat)
    requires |slots| == Pow2(m) && k <= |slots| && Busy(slots, hash, k)
    ensures k <= |UsedAt(slots)|
  {
    ProbedCount(hash, k, m);
    forall p | p in Probed(hash, k, |slots|) ensures p in UsedAt(slots) {}
    SubsetSize(Probed(hash, k, |slots|), UsedAt(slots));
  }

  // With a free slot somewhere a probe sequence meets one.
  lemma MeetsFree<V>(slots: seq<Slot<V>>, hash: nat, k: nat, m: nat)
    requires |slots| == Pow2(m) && Busy(slots, hash, k) && |UsedAt(slots)| < |slots|
    ensures k <= |UsedAt(slots)|
  {
    if k <= |slots| {
      ProbedUsed(slots, hash, k, m);
    } else {
      ProbedUsed(slots, hash, |slots|, m);
    }
  }

  lemma NextProbe<V>(slots: seq<Slot<V>>, hash: nat, k: nat)
    requires |slots| > 0 && slots[Pos(hash, k, |slots|)].Used?
    ensures Pos(hash, k + 1, |slots|) == (Pos(hash, k, |slots|) + Inc(hash, |slots|)) % |slots|
    ensures Busy(slots, hash, k) ==> Busy(slots, hash, k + 1)
    ensures forall key :: Misses(slots, hash, key, k) && slots[Pos(hash, k, |slots|)].key != key ==> Misses(slots, hash, key, k + 1)
    ensures forall key :: Misses(slots, hash, key, k) ==> Busy(slots, hash, k)
  {}

  // Once the sequence of a key meets a free slot the key is not in the table.
  lemma Absent<V>(slots: seq<Slot<V>>, hashOf: string -> nat, m: map<string, V>, key: string, k: nat)
    requires GoodSlots(slots, hashOf, m) && Misses(slots, hashOf(key), key, k)
    requires slots[Pos(hashOf(key), k, |slots|)].Free?
    ensures key !in m
  {
    forall i: nat | i < |slots| && slots[i].Used? ensures slots[i].key != key {
      assert Reachable(slots, i);
      var j: nat :| Busy(slots, slots[i].hash, j) && Pos(slots[i].hash, j, |slots|) == i;
      assert slots[i].hash == hashOf(key) ==> j < k;
    }
    assert key in m ==> Holds(slots, key, m[key]);
  }

  // ----- Inserting -----

  // Where a node with this hash goes: the first free slot of its probe sequence.
  ghost predicate FirstFree<V>(slots: seq<Slot<V>>, hash: nat, where: nat) {
    |slots| > 0 && where < |slots| && slots[where].Free? &&
    exists k: nat :: Busy(slots, hash, k) && Pos(hash, k, |slots|) == where
  }

  lemma BusyStays<V>(slots: seq<Slot<V>>, where: nat, s: Slot<V>, hash: nat, k: nat)
    requires where < |slots| && s.Used? && Busy(slots, hash, k)
    ensures Busy(slots[where := s], hash, k)
  {}

  lemma ReachableStays<V>(slots: seq<Slot<V>>, where: nat, s: Slot<V>)
    requires |slots| > 0 && AllReachable(slots) && s.Used? && FirstFree(slots, s.hash, where)
    ensures AllReachable(slots[where := s])
  {
    var now := slots[where := s];
    forall i: nat | i < |now| ensures Reachable(now, i) {
      if i == where {
        var k: nat :| Busy(slots, s.hash, k) && Pos(s.hash, k, |slots|) == where;
        BusyStays(slots, where, s, s.hash, k);
      } else if slots[i].Used? {
        assert Reachable(slots, i);
        var k: nat :| Busy(slots, slots[i].hash, k) && Pos(slots[i].hash, k, |slots|) == i;
        BusyStays(slots, where, s, slots[i].hash, k);
      }
    }
  }

  lemma MapGrows<V>(slots: seq<Slot<V>>, where: nat, s: Slot<V>, m: map<string, V>)
    requires where < |slots| && slots[where].Free? && s.Used? && s.key !in m && HoldsMap(slots, m)
    ensures HoldsMap(slots[where := s], m[s.key := s.data])
  {
    var now, n := slots[where := s], m[s.key := s.data];
    forall k | k in n ensures Holds(now, k, n[k]) {
      if k == s.key {
        assert now[where].key == k;
      } else {
        assert Holds(slots, k, m[k]);
        var i: nat :| i < |slots| && slots[i].Used? && slots[i].key == k && slots[i].data == m[k];
        assert now[i] == slots[i];
      }
    }
  }

  lemma UsedGrows<V>(slots: seq<Slot<V>>, where: nat, s: Slot<V>)
    requires where < |slots| && slots[where].Free? && s.Used?
    ensures |UsedAt(slots[where := s])| == |UsedAt(slots)| + 1
  {
    assert UsedAt(slots[where := s]) == UsedAt(slots) + {where};
    assert where !in UsedAt(slots);
  }

  // Filling the first free slot of its sequence adds one binding and keeps everything.
  lemma Inserts<V>(slots: seq<Slot<V>>, hashOf: string -> nat, m: map<string, V>, where: nat, s: Slot<V>)
    requires GoodSlots(slots, hashOf, m) && s.Used? && s.hash == hashOf(s.key) && s.key !in m
    requires FirstFree(slots, s.hash, where)
    ensures GoodSlots(slots[where := s], hashOf, m[s.key := s.data])
    ensures |UsedAt(slots[where := s])| == |UsedAt(slots)| + 1
  {
    ReachableStays(slots, where, s);
    MapGrows(slots, where, s, m);
    UsedGrows(slots, where, s);
    hide AllReachable, HoldsMap, UsedAt;
    KeysStay(slots, m, where, s);
  }

  lemma KeysStay<V>(slots: seq<Slot<V>>, m: map<string, V>, where: nat, s: Slot<V>)
    requires HoldsMap(slots, m) && KeysDiffer(slots) && s.Used? && s.key !in m && where < |slots|
    ensures KeysDiffer(slots[where := s])
  {}

  // ----- Rehashing -----

  lemma MapUnique<V>(slots: seq<Slot<V>>, m: map<string, V>, n: map<string, V>)
    requires HoldsMap(slots, m) && HoldsMap(slots, n)
    ensures m == n
  {}

  lemma HoldsMore<V>(slots: seq<Slot<V>>, s: Slot<V>, key: string, data: V)
    requires Holds(slots, key, data)
    ensures Holds(slots + [s], key, data)
  {
    var j: nat :| j < |slots| && slots[j].Used? && slots[j].key == key && slots[j].data == data;
    assert (slots + [s])[j] == slots[j];
  }

  lemma MapExtends<V>(slots: seq<Slot<V>>, s: Slot<V>, m: map<string, V>)
    requires HoldsMap(slots, m) && (s.Used? ==> s.key !in m)
    ensures HoldsMap(slots + [s], if s.Used? then m[s.key := s.data] else m)
  {
    var n := if s.Used? then m[s.key := s.data] else m;
    forall k | k in n ensures Holds(slots + [s], k, n[k]) {
      if k in m {
        HoldsMore(slots, s, k, m[k]);
      } else {
        assert (slots + [s])[|slots|] == s;
      }
    }
  }

  lemma UsedExtends<V>(slots: seq<Slot<V>>, s: Slot<V>)
    ensures |UsedAt(slots + [s])| == |UsedAt(slots)| + if s.Used? then 1 else 0
  {
    if s.Used? {
      assert UsedAt(slots + [s]) == UsedAt(slots) + {|slots|};
    } else {
      assert UsedAt(slots + [s]) == UsedAt(slots);
    }
  }

  lemma NewKey<V>(slots: seq<Slot<V>>, i: nat, done: map<string, V>)
    requires i < |slots| && KeysDiffer(slots) && HoldsMap(slots[..i], done) && slots[i].Used?
    ensures slots[i].key !in done
  {}

  // The first i slots hold done, and the next one, if in use, a key that is not in it.
  lemma NextSlot<V>(slots: seq<Slot<V>>, i: nat, done: map<string, V>)
    requires i < |slots| && KeysDiffer(slots) && HoldsMap(slots[..i], done)
    ensures slots[i].Used? ==> slots[i].key !in done
    ensures HoldsMap(slots[..i + 1], if slots[i].Used? then done[slots[i].key := slots[i].data] else done)
    ensures |UsedAt(slots[..i + 1])| == |UsedAt(slots[..i])| + if slots[i].Used? then 1 else 0
  {
    if slots[i].Used? {
      NewKey(slots, i, done);
    }
    assert slots[..i + 1] == slots[..i] + [slots[i]];
    MapExtends(slots[..i], slots[i], done);
    UsedExtends(slots[..i], slots[i]);
  }

  lemma NoneUsed<V>(slots: seq<Slot<V>>, hashOf: string -> nat)
    requires |slots| > 0 && forall i: nat :: i < |slots| ==> slots[i].Free?
    ensures GoodSlots(slots, hashOf, map[]) && UsedAt(slots) == {}
    ensures HoldsMap<V>([], map[]) && UsedAt<V>([]) == {}
  {}

  lemma UsedPrefix<V>(slots: seq<Slot<V>>, i: nat)
    requires i <= |slots|
    ensures |UsedAt(slots[..i])| <= |UsedAt(slots)|
  {
    SubsetSize(UsedAt(slots[..i]), UsedAt(slots));
  }

  // ----- Iteration -----

  // The first used slot from position i.
  function NextUsed<V>(slots: seq<Slot<V>>, i: nat): (r: Option<nat>)
    ensures r.Some? ==> i <= r.value < |slots| && slots[r.value].Used?
    decreases |slots| - i
  {
    if i >= |slots| then None else if slots[i].Used? then Some(i) else NextUsed(slots, i + 1)
  }

  // The slots that repeated calls visit.
  function Visits<V>(slots: seq<Slot<V>>, i: nat): seq<nat>
    decreases |slots| - i
  {
    var next := NextUsed(slots, i);
    if next.None? then [] else [next.value] + Visits(slots, next.value + 1)
  }

  lemma {:induction false} NextIsFirst<V>(slots: seq<Slot<V>>, i: nat)
    ensures var r := NextUsed(slots, i);
            forall j: nat :: i <= j < (if r.Some? then r.value else |slots|) ==> slots[j].Free?
    decreases |slots| - i
  {
    if i < |slots| && slots[i].Free? {
      NextIsFirst(slots, i + 1);
    }
  }

  // Iterating visits every used slot, once, in the order of the table.
  lemma {:induction false} VisitsUsed<V>(slots: seq<Slot<V>>, i: nat)
    ensures forall j: nat :: j in Visits(slots, i) <==> j in UsedAt(slots) && i <= j
    ensures var v := Visits(slots, i); forall a, b :: 0 <= a < b < |v| ==> v[a] < v[b]
    decreases |slots| - i
  {
    NextIsFirst(slots, i);
    var next := NextUsed(slots, i);
    if next.Some? {
      VisitsUsed(slots, next.value + 1);
      var v := Visits(slots, i);
      assert v[0] == next.value && v[1..] == Visits(slots, next.value + 1);
      forall b | 0 < b < |v| ensures v[0] < v[b] {
        assert v[b] in v[1..];
      }
    }
  }

  // ----- The code -----

  // struct hash_insert: what a failed search found out for the insertion.
  datatype HashInsert = HashInsert(hash: nat, where: nat)

  method AllocTable<V>(size: nat) returns (table: array<Slot<V>>)
    ensures fresh(table) && table.Length == size && forall i: nat :: i < size ==> table[i].Free?
  {
    table := new Slot<V>[size](i => Free);
  }

  // The inner loop of the rehash: the first free slot for a hash.
  method FreeSlot<V>(table: array<Slot<V>>, hash: nat, ghost m: nat) returns (pos: nat)
    requires table.Length == Pow2(m) && |UsedAt(table[..])| < table.Length
    ensures FirstFree(table[..], hash, pos)
  {
    hide Inc, UsedAt;
    pos := Pos(hash, 0, table.Length);
    hide Pos;
    ghost var k := 0;
    while table[pos].Used?
      invariant pos == Pos(hash, k, table.Length) && Busy(table[..], hash, k) && k <= |UsedAt(table[..])|
      decreases |UsedAt(table[..])| - k
    {
      NextProbe(table[..], hash, k);
      hide Busy;
      pos := (pos + Inc(hash, table.Length)) % table.Length;
      k := k + 1;
      MeetsFree(table[..], hash, k, m);
    }
  }

  // struct hash_table. The hash function is fixed when the table is made.
  class Table<V> {
    const hashOf: string -> nat
    var table: array<Slot<V>>
    var load: nat
    var size: nat
    var maxLoad: nat
    ghost var exponent: nat
    ghost var contents: map<string, V>

    ghost predicate Valid()
      reads this, table
    {
      table.Length == size == Pow2(exponent) && load == |UsedAt(table[..])| && maxLoad == size / 2 && load <= maxLoad &&
      GoodSlots(table[..], hashOf, contents)
    }

    // hash_init.
    constructor (size: nat, hashOf: string -> nat, ghost exponent: nat)
      requires size == Pow2(exponent)
      ensures Valid() && fresh(table) && contents == map[] && this.hashOf == hashOf
    {
      this.hashOf, this.load, this.size, this.maxLoad, this.exponent, this.contents := hashOf, 0, size, size / 2, exponent, map[];
      table := new Slot<V>[size](i => Free);
      new;
      NoneUsed(table[..], hashOf);
    }

    // hash_find: the slot of the key, or what hash_add needs to insert it.
    method Find(key: string) returns (slot: Option<nat>, insert: HashInsert)
      requires Valid()
      ensures slot.Some? <==> key in contents
      ensures slot.Some? ==> slot.value < table.Length && table[slot.value] == Used(hashOf(key), key, contents[key])
      ensures slot.None? ==> insert.hash == hashOf(key) && FirstFree(table[..], insert.hash, insert.where)
    {
      var hash := hashOf(key);
      var pos := Pos(hash, 0, size);
      ghost var k := 0;
      hide Inc, UsedAt, Pos, AllReachable, KeysDiffer;
      while table[pos].Used?
        invariant pos == Pos(hash, k, size) && Misses(table[..], hash, key, k) && k <= load
        decreases load - k
      {
        if table[pos].hash == hash && table[pos].key == key {
          return Some(pos), HashInsert(hash, pos);
        }
        NextProbe(table[..], hash, k);
        hide Misses, Busy;
        pos := (pos + Inc(hash, size)) % size;
        k := k + 1;
        MeetsFree(table[..], hash, k, exponent);
      }
      Absent(table[..], hashOf, contents, key, k);
      assert Busy(table[..], hash, k);
      return None, HashInsert(hash, pos);
    }

    // hash_iterate: no cursor for the first call, and again after the last slot.
    method Iterate(cursor: Option<nat>) returns (next: Option<nat>, slot: Option<nat>)
      requires Valid()
      ensures slot == NextUsed(table[..], if cursor.Some? then cursor.value else 0)
      ensures next == if slot.Some? then Some(slot.value + 1) else None
    {
      var np := if cursor.Some? then cursor.value else 0;
      ghost var start := np;
      while np < size
        invariant NextUsed(table[..], start) == NextUsed(table[..], np)
      {
        if table[np].Used? {
          return Some(np + 1), Some(np);
        }
        np := np + 1;
      }
      return None, None;
    }

    // hash_add. The slot it returns is the new key's, also when the table has moved.
    method Add(insert: HashInsert, key: string, data: V) returns (slot: nat)
      requires Valid() && key !in contents && insert.hash == hashOf(key) && FirstFree(table[..], insert.hash, insert.where)
      modifies this, table
      ensures Valid() && contents == old(contents)[key := data] && (table == old(table) || fresh(table))
      ensures slot < table.Length && table[slot] == Used(hashOf(key), key, data)
    {
      slot := insert.where;
      Inserts(table[..], hashOf, contents, slot, Used(insert.hash, key, data));
      table[slot] := Used(insert.hash, key, data);
      contents := contents[key := data];
      load := load + 1;
      if load > maxLoad {
        slot := Expand(slot);
      }
    }

    // The rehash into a table of twice the size.
    method Expand(np: nat) returns (slot: nat)
      requires table.Length == size == Pow2(exponent) && load == |UsedAt(table[..])| && load <= size / 2 + 1
      requires GoodSlots(table[..], hashOf, contents) && np < size && table[np].Used?
      modifies this
      ensures Valid() && contents == old(contents) && fresh(table)
      ensures slot < table.Length && table[slot] == old(table[np])
    {
      hide AllReachable, KeysDiffer, HoldsMap, UsedAt;
      var newSize := size * 2;
      var newTable := AllocTable<V>(newSize);
      NoneUsed(newTable[..], hashOf);
      assert newSize == Pow2(exponent + 1);
      ghost var done: map<string, V> := map[];
      slot := np;
      ghost var slots := table[..];
      assert slots[..0] == [];
      for i := 0 to size
        modifies newTable
        invariant table[..] == slots
        invariant GoodSlots(newTable[..], hashOf, done) && HoldsMap(slots[..i], done)
        invariant |UsedAt(newTable[..])| == |UsedAt(slots[..i])|
        invariant np < i ==> slot < newSize && newTable[slot] == table[np]
      {
        NextSlot(slots, i, done);
        UsedPrefix(slots, i);
        if table[i].Used? {
          var xp := FreeSlot(newTable, table[i].hash, exponent + 1);
          Inserts(newTable[..], hashOf, done, xp, table[i]);
          ghost var before := newTable[..];
          newTable[xp] := table[i];
          assert newTable[..] == before[xp := table[i]];
          done := done[table[i].key := table[i].data];
          if i == np {
            slot := xp;
          }
        }
      }
      assert slots[..size] == slots;
      MapUnique(slots, done, contents);
      table, size, maxLoad, exponent := newTable, newSize, newSize / 2, exponent + 1;
    }
  }
}
