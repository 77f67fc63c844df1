/** RobinHoodHashTable: open addressing with displacement on insertion, an early exit on lookup, and backshift on
    removal, against a plain map. */
module RobinHood {
  import opened Bits
  import opened Circular
  import opened Counting

  /** 0 marks an empty bucket, so no key hashes to it. */
  type HashValue = h: nat | 0 < h < 0x1_0000_0000 witness 1

  datatype Bucket<K, V> = Bucket(key: K, hash: nat, data: V)

  type Buckets<K, V> = seq<Bucket<K, V>>

  // ----- positions -----

  function Next(i: nat, n: nat): nat
  {
    if i + 1 < n then i + 1 else 0
  }

  /** The distance of a bucket's entry from the position it hashes to. */
  function Dist(init: nat, index: nat, n: nat): int
  {
    if init <= index then index - init else index + n - init
  }

  function DistAt<K, V>(t: Buckets<K, V>, i: nat): int
    requires i < |t|
  {
    Dist(t[i].hash % |t|, i, |t|)
  }

  // ----- the order of the buckets -----

  predicate Full<K, V>(t: Buckets<K, V>, i: nat)
    requires i < |t|
  {
    t[i].hash != 0
  }

  /** A bucket away from its home follows a bucket that is at most one step closer to its own. */
  ghost predicate Follows<K, V>(t: Buckets<K, V>, i: nat)
    requires i < |t|
  {
    var j := Next(i, |t|);
    Full(t, j) && DistAt(t, j) > 0 ==> Full(t, i) && DistAt(t, i) + 1 >= DistAt(t, j)
  }

  ghost predicate Ordered<K, V>(t: Buckets<K, V>)
  {
    forall i :: 0 <= i < |t| ==> Follows(t, i)
  }

  /** Some bucket is empty or at home: displacement has a place to stop. */
  ghost predicate Anchored<K, V>(t: Buckets<K, V>)
  {
    exists i :: 0 <= i < |t| && (!Full(t, i) || DistAt(t, i) == 0)
  }

  /** Every bucket between an entry's home and the entry is full, and not closer to its home than the entry was there:
      this is why lookup may stop at the first bucket that is closer. */
  lemma {:induction false} Chain<K, V>(t: Buckets<K, V>, p: nat, v: nat)
    requires Ordered(t) && p < |t| && Full(t, p) && v <= DistAt(t, p)
    ensures 0 <= Wrap(t[p].hash % |t| + v, |t|) < |t|
    ensures var q := Wrap(t[p].hash % |t| + v, |t|); Full(t, q) && DistAt(t, q) >= v
    decreases DistAt(t, p) - v
  {
    if v < DistAt(t, p) {
      Chain(t, p, v + 1);
      var q := Wrap(t[p].hash % |t| + v, |t|);
      assert Follows(t, q);
    }
  }

  // ----- the entries -----

  /** Where each stored key is; the buckets hold these keys and no others. */
  ghost predicate Located<K, V>(t: Buckets<K, V>, at: map<K, nat>, hash: K -> HashValue)
  {
    && (forall i :: 0 <= i < |t| && Full(t, i) ==> t[i].hash == hash(t[i].key) && t[i].key in at && at[t[i].key] == i)
    && (forall k :: k in at ==> at[k] < |t| && Full(t, at[k]) && t[at[k]].key == k)
  }

  ghost function Entries<K, V>(t: Buckets<K, V>, at: map<K, nat>): (m: map<K, V>)
    requires forall k :: k in at ==> at[k] < |t|
    ensures m.Keys == at.Keys
  {
    map k | k in at :: t[at[k]].data
  }

  ghost function Occupied<K, V>(t: Buckets<K, V>): set<nat>
  {
    set i | 0 <= i < |t| && Full(t, i)
  }

  lemma LocatedPlace<K, V>(t: Buckets<K, V>, at: map<K, nat>, hash: K -> HashValue, c: nat, b: Bucket<K, V>)
    requires Located(t, at, hash) && c < |t| && !Full(t, c) && b.hash == hash(b.key) && b.key !in at
    ensures Located(t[c := b], at[b.key := c], hash)
    ensures Entries(t[c := b], at[b.key := c]) == Entries(t, at)[b.key := b.data]
  {
  }

  lemma LocatedSwap<K, V>(t: Buckets<K, V>, at: map<K, nat>, hash: K -> HashValue, c: nat, b: Bucket<K, V>)
    requires Located(t, at, hash) && c < |t| && Full(t, c) && b.hash == hash(b.key) && b.key !in at
    ensures var at', out := at[b.key := c] - {t[c].key}, t[c];
      && Located(t[c := b], at', hash) && out.key !in at'
      && Entries(t[c := b], at')[out.key := out.data] == Entries(t, at)[b.key := b.data]
  {
    assert b.key != t[c].key;
  }

  lemma LocatedUpdate<K, V>(t: Buckets<K, V>, at: map<K, nat>, hash: K -> HashValue, c: nat, data: V)
    requires Located(t, at, hash) && c < |t| && Full(t, c)
    ensures Located(t[c := t[c].(data := data)], at, hash)
    ensures Entries(t[c := t[c].(data := data)], at) == Entries(t, at)[t[c].key := data]
  {
  }

  lemma LocatedRemove<K, V>(t: Buckets<K, V>, at: map<K, nat>, hash: K -> HashValue, c: nat, b: Bucket<K, V>)
    requires Located(t, at, hash) && c < |t| && Full(t, c) && b.hash == 0
    ensures Located(t[c := b], at - {t[c].key}, hash)
    ensures Entries(t[c := b], at - {t[c].key}) == Entries(t, at) - {t[c].key}
  {
  }

  lemma LocatedMove<K, V>(t: Buckets<K, V>, at: map<K, nat>, hash: K -> HashValue, p: nat, q: nat)
    requires Located(t, at, hash) && p < |t| && q < |t| && !Full(t, p) && Full(t, q)
    ensures Located(t[p := t[q]][q := t[p]], at[t[q].key := p], hash)
    ensures Entries(t[p := t[q]][q := t[p]], at[t[q].key := p]) == Entries(t, at)
  {
  }

  // ----- insertion -----

  /** The entry in hand can stand at c: it is probe steps from its home, and the bucket before c is not too close to
      its own. */
  ghost predicate Carried<K, V>(t: Buckets<K, V>, c: nat, probe: nat, b: Bucket<K, V>)
  {
    && c < |t| && b.hash != 0 && Dist(b.hash % |t|, c, |t|) == probe
    && (probe > 0 ==> forall p :: 0 <= p < |t| && Next(p, |t|) == c ==> Full(t, p) && DistAt(t, p) + 1 >= probe)
  }

  lemma CarryOn<K, V>(t: Buckets<K, V>, c: nat, probe: nat, b: Bucket<K, V>)
    requires Carried(t, c, probe, b) && Full(t, c) && probe <= DistAt(t, c) && probe + 1 < |t|
    ensures Carried(t, Next(c, |t|), probe + 1, b)
  {
  }

  /** Displacing an entry that is closer to its home keeps the order, and the displaced entry goes on. */
  lemma Displace<K, V>(t: Buckets<K, V>, c: nat, probe: nat, b: Bucket<K, V>)
    requires Ordered(t) && Carried(t, c, probe, b) && Full(t, c) && probe > DistAt(t, c)
    ensures Ordered(t[c := b])
    ensures DistAt(t, c) >= 0 && DistAt(t, c) + 1 < |t|
    ensures Carried(t[c := b], Next(c, |t|), DistAt(t, c) + 1, t[c])
  {
    var t' := t[c := b];
    assert DistAt(t', c) == probe;
    forall i | 0 <= i < |t|
      ensures Follows(t', i)
    {
      assert Follows(t, i);
    }
  }

  lemma Place<K, V>(t: Buckets<K, V>, c: nat, probe: nat, b: Bucket<K, V>)
    requires Ordered(t) && Carried(t, c, probe, b) && !Full(t, c)
    ensures Ordered(t[c := b]) && Anchored(t[c := b])
  {
    var t' := t[c := b];
    assert DistAt(t', c) == probe;
    forall i | 0 <= i < |t|
      ensures Follows(t', i)
    {
      assert Follows(t, i);
    }
    assert Follows(t, c);
    var a := Next(c, |t|);
    assert !Full(t', a) || DistAt(t', a) == 0;
  }

  // ----- removal -----

  /** Everything follows in order except across the hole, and the bucket behind the hole may move into it. */
  ghost predicate HoleAt<K, V>(t: Buckets<K, V>, h: nat)
  {
    && h < |t| && !Full(t, h)
    && (forall i :: 0 <= i < |t| && i != h ==> Follows(t, i))
    && var q := Next(h, |t|);
       (Full(t, q) && DistAt(t, q) >= 2 ==>
          forall p :: 0 <= p < |t| && Next(p, |t|) == h ==> Full(t, p) && DistAt(t, p) + 2 >= DistAt(t, q))
  }

  lemma Removed<K, V>(t: Buckets<K, V>, c: nat, b: Bucket<K, V>)
    requires Ordered(t) && c < |t| && Full(t, c) && b.hash == 0
    ensures HoleAt(t[c := b], c)
  {
    var t' := t[c := b];
    assert Follows(t, c);
    forall i | 0 <= i < |t| && i != c
      ensures Follows(t', i)
    {
      assert Follows(t, i);
    }
    forall p | 0 <= p < |t| && Next(p, |t|) == c
      ensures Full(t, Next(c, |t|)) && DistAt(t, Next(c, |t|)) >= 2 ==>
        Full(t', p) && DistAt(t', p) + 2 >= DistAt(t, Next(c, |t|))
    {
      assert Follows(t, p);
    }
  }

  /** The bucket behind the hole moves one step towards its home, and the hole moves on. */
  lemma Backshift<K, V>(t: Buckets<K, V>, h: nat)
    requires HoleAt(t, h) && |t| > 1 && Full(t, Next(h, |t|)) && DistAt(t, Next(h, |t|)) > 0
    ensures var q := Next(h, |t|);
      && HoleAt(t[h := t[q]][q := t[h]], q)
      && DistAt(t[h := t[q]][q := t[h]], h) == DistAt(t, q) - 1
  {
    var q := Next(h, |t|);
    var t' := t[h := t[q]][q := t[h]];
    forall i | 0 <= i < |t| && i != q
      ensures Follows(t', i)
    {
      if i != h {
        assert Follows(t, i);
      }
    }
    assert Follows(t, q);
  }

  // ----- the probe sequence -----

  /** The buckets met from home on, before step i, are full and none of them holds the key. */
  ghost predicate Passed<K, V>(t: Buckets<K, V>, home: nat, i: nat)
  {
    forall j :: 0 <= j < |t| && Dist(home, j, |t|) < i ==> Full(t, j)
  }

  ghost predicate Avoided<K, V>(t: Buckets<K, V>, home: nat, i: nat, key: K)
  {
    forall j :: 0 <= j < |t| && Dist(home, j, |t|) < i ==> t[j].key != key
  }

  /** A stored key is met on the probe sequence before any bucket that would stop the search. */
  lemma Meets<K, V>(t: Buckets<K, V>, at: map<K, nat>, hash: K -> HashValue, key: K, i: nat)
    requires Ordered(t) && Located(t, at, hash) && key in at && |t| > 0 && i <= |t|
    requires Avoided(t, hash(key) % |t|, i, key)
    ensures i < |t|
    ensures var c := Wrap(hash(key) % |t| + i, |t|);
      0 <= c < |t| && Full(t, c) && i <= DistAt(t, c)
  {
    var p := at[key];
    assert t[p].key == key;
    Chain(t, p, i);
  }

  /** The table is full exactly when no bucket is free. */
  lemma NoneFree<K, V>(t: Buckets<K, V>)
    ensures |Occupied(t)| <= |t|
    ensures |Occupied(t)| == |t| <==> forall j :: 0 <= j < |t| ==> Full(t, j)
  {
    SubsetSize(Occupied(t), Range(|t|));
    if forall j :: 0 <= j < |t| ==> Full(t, j) {
      assert Occupied(t) == Range(|t|);
    }
    if |Occupied(t)| == |t| {
      forall j: nat | j < |t|
        ensures Full(t, j)
      {
        assert j in Range(|t|);
      }
    }
  }

  lemma OccupiedStep<K, V>(t: Buckets<K, V>, c: nat, b: Bucket<K, V>)
    requires c < |t|
    ensures b.hash != 0 && Full(t, c) ==> Occupied(t[c := b]) == Occupied(t)
    ensures b.hash != 0 && !Full(t, c) ==> |Occupied(t[c := b])| == |Occupied(t)| + 1
    ensures b.hash == 0 && Full(t, c) ==> |Occupied(t[c := b])| == |Occupied(t)| - 1
  {
    SizeStep(Occupied(t), c);
    if b.hash != 0 {
      assert Occupied(t[c := b]) == Occupied(t) + {c};
      assert c in Occupied(t) ==> Occupied(t) + {c} == Occupied(t);
    } else {
      assert Occupied(t[c := b]) == Occupied(t) - {c};
    }
  }

  // ----- the insertion loop -----

  /** Step i of inserting a fresh key: bucket b is in hand, and with it the table holds what it should. */
  ghost predicate Inserting<K, V>(t0: Buckets<K, V>, at0: map<K, nat>, t: Buckets<K, V>, at: map<K, nat>,
                                  hash: K -> HashValue, key: K, data: V, i: nat, probe: nat, b: Bucket<K, V>)
  {
    && |t| == |t0| > 0 && i <= |t| && probe <= i
    && Ordered(t) && Located(t0, at0, hash) && Located(t, at, hash)
    && Occupied(t) == Occupied(t0)
    && Passed(t, hash(key) % |t|, i)
    && b.hash == hash(b.key) && b.key !in at
    && Entries(t, at)[b.key := b.data] == Entries(t0, at0)[key := data]
    && (i < |t| ==> 0 <= Wrap(hash(key) % |t| + i, |t|) && Carried(t, Wrap(hash(key) % |t| + i, |t|), probe, b))
  }

  lemma InsertStart<K, V>(t: Buckets<K, V>, at: map<K, nat>, hash: K -> HashValue, key: K, data: V)
    requires Ordered(t) && Located(t, at, hash) && key !in at && |t| > 0
    ensures Inserting(t, at, t, at, hash, key, data, 0, 0, Bucket(key, hash(key), data))
  {
  }

  lemma PassedOn<K, V>(t: Buckets<K, V>, home: nat, i: nat)
    requires home < |t| && i < |t| && Passed(t, home, i)
    requires 0 <= Wrap(home + i, |t|) && Full(t, Wrap(home + i, |t|))
    ensures Passed(t, home, i + 1)
  {
    forall j | 0 <= j < |t| && Dist(home, j, |t|) < i + 1
      ensures Full(t, j)
    {
      assert Dist(home, j, |t|) == i ==> j == Wrap(home + i, |t|);
    }
  }

  lemma InsertKeep<K, V>(t0: Buckets<K, V>, at0: map<K, nat>, t: Buckets<K, V>, at: map<K, nat>,
                         hash: K -> HashValue, key: K, data: V, i: nat, probe: nat, b: Bucket<K, V>)
    requires Inserting(t0, at0, t, at, hash, key, data, i, probe, b) && i < |t|
    requires var c := Wrap(hash(key) % |t| + i, |t|); Full(t, c) && probe <= DistAt(t, c)
    ensures Inserting(t0, at0, t, at, hash, key, data, i + 1, probe + 1, b)
  {
    hide Located, Ordered, Entries;
    var c := Wrap(hash(key) % |t| + i, |t|);
    PassedOn(t, hash(key) % |t|, i);
    if probe + 1 < |t| {
      CarryOn(t, c, probe, b);
    }
  }

  lemma InsertSwap<K, V>(t0: Buckets<K, V>, at0: map<K, nat>, t: Buckets<K, V>, at: map<K, nat>,
                         hash: K -> HashValue, key: K, data: V, i: nat, probe: nat, b: Bucket<K, V>)
    requires Inserting(t0, at0, t, at, hash, key, data, i, probe, b) && i < |t|
    requires var c := Wrap(hash(key) % |t| + i, |t|); Full(t, c) && probe > DistAt(t, c)
    ensures var c := Wrap(hash(key) % |t| + i, |t|);
      && DistAt(t, c) >= 0
      && Inserting(t0, at0, t[c := b], at[b.key := c] - {t[c].key}, hash, key, data, i + 1, DistAt(t, c) + 1, t[c])
  {
    var c := Wrap(hash(key) % |t| + i, |t|);
    assert t[c].hash == hash(t[c].key);
    hide Located, Ordered, Entries;
    Displace(t, c, probe, b);
    LocatedSwap(t, at, hash, c, b);
    OccupiedStep(t, c, b);
    PassedOn(t, hash(key) % |t|, i);
  }

  lemma InsertPlace<K, V>(t0: Buckets<K, V>, at0: map<K, nat>, t: Buckets<K, V>, at: map<K, nat>,
                          hash: K -> HashValue, key: K, data: V, i: nat, probe: nat, b: Bucket<K, V>)
    requires Inserting(t0, at0, t, at, hash, key, data, i, probe, b) && i < |t|
    requires !Full(t, Wrap(hash(key) % |t| + i, |t|))
    ensures var c := Wrap(hash(key) % |t| + i, |t|);
      && Ordered(t[c := b]) && Anchored(t[c := b]) && Located(t[c := b], at[b.key := c], hash)
      && Entries(t[c := b], at[b.key := c]) == Entries(t0, at0)[key := data]
      && |Occupied(t[c := b])| == |Occupied(t0)| + 1
  {
    var c := Wrap(hash(key) % |t| + i, |t|);
    hide Located, Ordered, Entries;
    Place(t, c, probe, b);
    LocatedPlace(t, at, hash, c, b);
    OccupiedStep(t, c, b);
  }

  /** With no bucket free, the entry left in hand is in no bucket. */
  lemma InsertLost<K, V>(t0: Buckets<K, V>, at0: map<K, nat>, t: Buckets<K, V>, at: map<K, nat>,
                         hash: K -> HashValue, key: K, data: V, probe: nat, b: Bucket<K, V>)
    requires Inserting(t0, at0, t, at, hash, key, data, |t|, probe, b)
    ensures |Occupied(t0)| == |t0|
    ensures Missing(t, Entries(t0, at0)[key := data])
  {
    NoneFree(t);
    var m := Entries(t, at)[b.key := b.data];
    assert b.key in m && Absent(t, b.key);
    assert m == Entries(t0, at0)[key := data];
  }

  ghost predicate Absent<K, V>(t: Buckets<K, V>, k: K)
  {
    forall i :: 0 <= i < |t| && Full(t, i) ==> t[i].key != k
  }

  /** Some key of the map is in no bucket. */
  ghost predicate Missing<K, V>(t: Buckets<K, V>, m: map<K, V>)
  {
    exists k :: k in m && Absent(t, k)
  }

  /** Writing a bucket's data moves nothing. */
  lemma UpdateInPlace<K, V>(t: Buckets<K, V>, at: map<K, nat>, hash: K -> HashValue, c: nat, data: V)
    requires Ordered(t) && Anchored(t) && Located(t, at, hash) && c < |t| && Full(t, c)
    ensures var t' := t[c := t[c].(data := data)];
      && Ordered(t') && Anchored(t') && Located(t', at, hash)
      && Entries(t', at) == Entries(t, at)[t[c].key := data] && Occupied(t') == Occupied(t)
  {
    LocatedUpdate(t, at, hash, c, data);
    OccupiedStep(t, c, t[c].(data := data));
    var t' := t[c := t[c].(data := data)];
    forall i | 0 <= i < |t|
      ensures Follows(t', i)
    {
      assert Follows(t, i);
    }
    var a :| 0 <= a < |t| && (!Full(t, a) || DistAt(t, a) == 0);
    assert !Full(t', a) || DistAt(t', a) == 0;
  }

  /** Step i of storeValue: a stored key is still ahead in the untouched table, a fresh one is being inserted. */
  ghost predicate Probing<K, V>(t0: Buckets<K, V>, at0: map<K, nat>, t: Buckets<K, V>, at: map<K, nat>,
                                hash: K -> HashValue,
                                key: K, data: V, i: nat, probe: nat, b: Bucket<K, V>, used: bool)
  {
    && |t| == |t0| > 0 && Ordered(t0) && Located(t0, at0, hash)
    && (!used ==> b == Bucket(key, hash(key) as nat, data))
    && if key in at0 then
         !used && t == t0 && at == at0 && probe == i && Avoided(t0, hash(key) % |t|, i, key)
       else Inserting(t0, at0, t, at, hash, key, data, i, probe, b)
  }

  lemma ProbeStart<K, V>(t: Buckets<K, V>, at: map<K, nat>, hash: K -> HashValue, key: K, data: V)
    requires Ordered(t) && Located(t, at, hash) && |t| > 0
    ensures Probing(t, at, t, at, hash, key, data, 0, 0, Bucket(key, hash(key) as nat, data), false)
  {
    if key !in at {
      InsertStart(t, at, hash, key, data);
    }
  }

  lemma ProbeUpdate<K, V>(t0: Buckets<K, V>, at0: map<K, nat>, t: Buckets<K, V>, at: map<K, nat>, hash: K -> HashValue,
                          key: K, data: V, i: nat, probe: nat, b: Bucket<K, V>, c: nat)
    requires Probing(t0, at0, t, at, hash, key, data, i, probe, b, false) && Anchored(t0)
    requires c < |t| && Full(t, c) && t[c].key == key
    ensures key in at0 && t == t0 && at == at0
    ensures var t' := t[c := t[c].(data := data)];
      && Ordered(t') && Anchored(t') && Located(t', at, hash)
      && Entries(t', at) == Entries(t0, at0)[key := data] && Occupied(t') == Occupied(t0)
  {
    UpdateInPlace(t0, at0, hash, c, data);
  }

  lemma ProbePlace<K, V>(t0: Buckets<K, V>, at0: map<K, nat>, t: Buckets<K, V>, at: map<K, nat>, hash: K -> HashValue,
                         key: K, data: V, i: nat, probe: nat, b: Bucket<K, V>, used: bool, c: nat)
    requires Probing(t0, at0, t, at, hash, key, data, i, probe, b, used) && i < |t|
    requires c == Wrap(hash(key) % |t| + i, |t|) && c < |t| && !Full(t, c)
    ensures key !in at0
    ensures Ordered(t[c := b]) && Anchored(t[c := b]) && Located(t[c := b], at[b.key := c], hash)
    ensures Entries(t[c := b], at[b.key := c]) == Entries(t0, at0)[key := data]
    ensures |Occupied(t[c := b])| == |Occupied(t0)| + 1 <= |t0|
  {
    NoneFree(t[c := b]);
    if key in at0 {
      Meets(t0, at0, hash, key, i);
    } else {
      InsertPlace(t0, at0, t, at, hash, key, data, i, probe, b);
    }
  }

  lemma ProbeSwap<K, V>(t0: Buckets<K, V>, at0: map<K, nat>, t: Buckets<K, V>, at: map<K, nat>, hash: K -> HashValue,
                        key: K, data: V, i: nat, probe: nat, b: Bucket<K, V>, used: bool, c: nat)
    requires Probing(t0, at0, t, at, hash, key, data, i, probe, b, used) && i < |t|
    requires c == Wrap(hash(key) % |t| + i, |t|) && c < |t| && Full(t, c) && probe > DistAt(t, c) >= 0
    ensures Probing(t0, at0, t[c := b], at[b.key := c] - {t[c].key},
                    hash, key, data, i + 1, DistAt(t, c) + 1, t[c], true)
  {
    if key in at0 {
      Meets(t0, at0, hash, key, i);
    } else {
      InsertSwap(t0, at0, t, at, hash, key, data, i, probe, b);
    }
  }

  lemma ProbeKeep<K, V>(t0: Buckets<K, V>, at0: map<K, nat>, t: Buckets<K, V>, at: map<K, nat>, hash: K -> HashValue,
                        key: K, data: V, i: nat, probe: nat, b: Bucket<K, V>, used: bool, c: nat)
    requires Probing(t0, at0, t, at, hash, key, data, i, probe, b, used) && i < |t|
    requires c == Wrap(hash(key) % |t| + i, |t|) && c < |t| && Full(t, c) && probe <= DistAt(t, c)
    requires key in at0 ==> used || t[c].hash != hash(key) || t[c].key != key
    ensures Probing(t0, at0, t, at, hash, key, data, i + 1, probe + 1, b, used)
  {
    if key !in at0 {
      InsertKeep(t0, at0, t, at, hash, key, data, i, probe, b);
    }
  }

  lemma ProbeEnd<K, V>(t0: Buckets<K, V>, at0: map<K, nat>, t: Buckets<K, V>, at: map<K, nat>, hash: K -> HashValue,
                       key: K, data: V, probe: nat, b: Bucket<K, V>, used: bool)
    requires Probing(t0, at0, t, at, hash, key, data, |t|, probe, b, used)
    ensures key !in at0 && |Occupied(t0)| == |t0|
    ensures Missing(t, Entries(t0, at0)[key := data])
  {
    if key in at0 {
      Meets(t0, at0, hash, key, |t|);
    } else {
      InsertLost(t0, at0, t, at, hash, key, data, probe, b);
    }
  }

  // ----- the backshift loop -----

  /** The buckets behind c: those before step j were away from home, those from step j on have not changed. */
  ghost predicate Trail<K, V>(t0: Buckets<K, V>, t: Buckets<K, V>, c: nat, j: nat)
    requires |t| == |t0| && c < |t|
  {
    && (forall p :: 0 <= p < |t| && 0 < Dist(c, p, |t|) < j ==> Full(t0, p) && DistAt(t0, p) > 0)
    && (forall p :: 0 <= p < |t| && j <= Dist(c, p, |t|) ==> t[p] == t0[p])
    && (j >= 2 ==> Full(t, c) && DistAt(t, c) + 1 == DistAt(t0, Next(c, |t|)))
  }

  /** Step j of the backshift after the entry at c was removed from t0: the hole is j - 1 buckets behind c. */
  ghost predicate Shifting<K, V>(t0: Buckets<K, V>, t: Buckets<K, V>, at: map<K, nat>, hash: K -> HashValue,
                                 m: map<K, V>,
                                 c: nat, j: nat, h: nat)
  {
    && |t| == |t0| && c < |t| && 1 <= j <= |t| && h == Wrap(c + j - 1, |t|)
    && HoleAt(t, h) && Located(t, at, hash) && Entries(t, at) == m
    && |Occupied(t)| + 1 == |Occupied(t0)|
    && Trail(t0, t, c, j)
  }

  lemma ShiftStart<K, V>(t0: Buckets<K, V>, at: map<K, nat>, hash: K -> HashValue, c: nat, b: Bucket<K, V>)
    requires Ordered(t0) && Located(t0, at, hash) && c < |t0| && Full(t0, c) && b.hash == 0
    ensures Shifting(t0, t0[c := b], at - {t0[c].key}, hash, Entries(t0, at) - {t0[c].key}, c, 1, c)
  {
    hide Located, Ordered, Entries, HoleAt;
    Removed(t0, c, b);
    LocatedRemove(t0, at, hash, c, b);
    OccupiedStep(t0, c, b);
  }

  lemma ShiftOn<K, V>(t0: Buckets<K, V>, t: Buckets<K, V>, at: map<K, nat>, hash: K -> HashValue, m: map<K, V>,
                      c: nat, j: nat, h: nat, q: nat)
    requires Shifting(t0, t, at, hash, m, c, j, h) && j < |t| && q == Wrap(c + j, |t|) && q < |t|
    requires Full(t, q) && DistAt(t, q) > 0
    ensures h < |t| && Shifting(t0, t[h := t[q]][q := t[h]], at[t[q].key := h], hash, m, c, j + 1, q)
  {
    hide Located, Ordered, Entries, Occupied, Trail, DistAt;
    assert h < |t| && q == Next(h, |t|) && !Full(t, h);
    TrailOn(t0, t, c, j, h, q);
    Backshift(t, h);
    LocatedMove(t, at, hash, h, q);
    OccupiedStep(t, h, t[q]);
    OccupiedStep(t[h := t[q]], q, t[h]);
    hide HoleAt;
  }

  lemma TrailOn<K, V>(t0: Buckets<K, V>, t: Buckets<K, V>, c: nat, j: nat, h: nat, q: nat)
    requires |t| == |t0| && c < |t| && h < |t| && 1 <= j < |t| && h == Wrap(c + j - 1, |t|) && q == Wrap(c + j, |t|)
      && q < |t|
    requires Trail(t0, t, c, j) && Full(t, q) && DistAt(t, q) > 0
    ensures Trail(t0, t[h := t[q]][q := t[h]], c, j + 1)
  {
    assert t[q] == t0[q];
  }

  lemma ShiftFacts<K, V>(t0: Buckets<K, V>, t: Buckets<K, V>, at: map<K, nat>, hash: K -> HashValue, m: map<K, V>,
                         c: nat, j: nat, h: nat)
    requires Shifting(t0, t, at, hash, m, c, j, h)
    ensures Located(t, at, hash) && Entries(t, at) == m && |Occupied(t)| + 1 == |Occupied(t0)|
  {
  }

  /** The shift stops behind an empty bucket, or one at home. */
  lemma ShiftStop<K, V>(t0: Buckets<K, V>, t: Buckets<K, V>, at: map<K, nat>, hash: K -> HashValue, m: map<K, V>,
                        c: nat, j: nat, h: nat)
    requires Shifting(t0, t, at, hash, m, c, j, h)
    requires var q := Next(h, |t|); q < |t| && (!Full(t, q) || DistAt(t, q) == 0)
    ensures Ordered(t) && Anchored(t)
  {
    assert Follows(t, h);
  }

  /** If it never stops, the removed entry was the only one at home, and its successor has come home instead. */
  lemma ShiftEnd<K, V>(t0: Buckets<K, V>, t: Buckets<K, V>, at: map<K, nat>, hash: K -> HashValue, m: map<K, V>, c: nat,
                       h: nat)
    requires Shifting(t0, t, at, hash, m, c, |t|, h) && Ordered(t0) && Anchored(t0) && Full(t0, c)
    ensures Ordered(t) && Anchored(t)
  {
    var a :| 0 <= a < |t0| && (!Full(t0, a) || DistAt(t0, a) == 0);
    assert a == c;
    assert Follows(t0, c);
    assert Next(h, |t|) == c;
    ShiftStop(t0, t, at, hash, m, c, |t|, h);
  }

  // ----- growing -----

  ghost function OccupiedBelow<K, V>(t: Buckets<K, V>, n: nat): set<nat>
  {
    set i | 0 <= i < n && i < |t| && Full(t, i)
  }

  ghost function EntriesBelow<K, V>(t: Buckets<K, V>, at: map<K, nat>, n: nat): map<K, V>
    requires forall k :: k in at ==> at[k] < |t|
  {
    map k | k in at && at[k] < n :: t[at[k]].data
  }

  lemma BelowNone<K, V>(t: Buckets<K, V>, at: map<K, nat>, hash: K -> HashValue)
    requires Located(t, at, hash)
    ensures forall k :: k in at ==> at[k] < |t|
    ensures OccupiedBelow(t, 0) == {} && EntriesBelow(t, at, 0) == map[]
  {
  }

  lemma BelowStep<K, V>(t: Buckets<K, V>, at: map<K, nat>, hash: K -> HashValue, i: nat)
    requires Located(t, at, hash) && i < |t|
    ensures Full(t, i) ==>
      && EntriesBelow(t, at, i + 1) == EntriesBelow(t, at, i)[t[i].key := t[i].data]
      && t[i].key !in EntriesBelow(t, at, i)
      && |OccupiedBelow(t, i + 1)| == |OccupiedBelow(t, i)| + 1
    ensures !Full(t, i) ==>
      && EntriesBelow(t, at, i + 1) == EntriesBelow(t, at, i)
      && OccupiedBelow(t, i + 1) == OccupiedBelow(t, i)
  {
    if Full(t, i) {
      assert OccupiedBelow(t, i + 1) == OccupiedBelow(t, i) + {i};
      SizeStep(OccupiedBelow(t, i), i);
    }
  }

  lemma BelowAll<K, V>(t: Buckets<K, V>, at: map<K, nat>, hash: K -> HashValue)
    requires Located(t, at, hash)
    ensures OccupiedBelow(t, |t|) == Occupied(t) && EntriesBelow(t, at, |t|) == Entries(t, at)
  {
  }

  class RobinHoodHashTable<K(==, !new), V(==)> {
    var table: array<Bucket<K, V>>
    var count: nat
    const hash: K -> HashValue
    const noKey: K
    const zero: V
    ghost var at: map<K, nat>

    ghost predicate Valid()
      reads this, table
    {
      && table.Length > 0
      && Ordered(table[..]) && Anchored(table[..]) && Located(table[..], at, hash)
      && count == |Occupied(table[..])|
    }

    /** The map the table stands for. */
    ghost function Map(): map<K, V>
      requires Valid()
      reads this, table
    {
      Entries(table[..], at)
    }

    constructor (allocSize: nat, hash: K -> HashValue, noKey: K, zero: V)
      requires allocSize > 0
      ensures Valid() && Map() == map[] && table.Length == allocSize && fresh(table) && count == 0
      ensures this.hash == hash && this.noKey == noKey && this.zero == zero
    {
      this.hash, this.noKey, this.zero := hash, noKey, zero;
      table := new Bucket[allocSize](_ => Bucket(noKey, 0, zero));
      count := 0;
      at := map[];
      new;
      assert Occupied(table[..]) == {};
      assert !Full(table[..], 0);
    }

    function ComputeDistToInit(index: nat): (d: nat)
      requires index < table.Length
      reads this, table
      ensures d == if table[index].hash == 0 then table.Length else DistAt(table[..], index)
      ensures d == table.Length <==> table[index].hash == 0
    {
      if table[index].hash == 0 then table.Length
      else
        var init := table[index].hash % table.Length;
        if init <= index then index - init else index + table.Length - init
    }

    /** Lookup, as the index of the bucket or the table's length for a null result: the early exit never misses a
        stored key. */
    method GetValue(key: K) returns (index: nat)
      requires Valid()
      ensures index <= table.Length
      ensures index < table.Length <==> key in Map()
      ensures index < table.Length ==>
        table[index].hash != 0 && table[index].key == key && table[index].data == Map()[key]
    {
      var n := table.Length;
      var initPos := hash(key) % n;
      ghost var t := table[..];
      var i := 0;
      while i < n
        invariant i <= n
        invariant Avoided(t, initPos, i, key)
      {
        ModWraps(initPos + i, n);
        var current := (initPos + i) % n;
        var probeDist := ComputeDistToInit(current);
        if key in at {
          Meets(t, at, hash, key, i);
        }
        if probeDist == n || i > probeDist {
          return n;
        }
        if key == table[current].key {
          return current;
        }
        i := i + 1;
      }
      if key in at {
        Meets(t, at, hash, key, n);
      }
      return n;
    }

    /** One more entry would fill four fifths of the buckets. */
    function ShouldResize(): (heavy: bool)
      reads this
      ensures heavy <==> (count + 1) as real >= 0.80 * table.Length as real
    {
      5 * (count + 1) >= 4 * table.Length
    }

    /** Stores a fresh key, or updates a stored one. Without a free bucket the last displaced entry is dropped: the
        table then represents the map asked for if and only if a bucket was free. */
    method StoreValue(key: K, data: V, update: bool) returns (ok: bool)
      requires Valid() && (update || key !in Map())
      modifies this, table
      ensures table == old(table)
      ensures !ok <==> update && key !in old(Map()) && 5 * (old(count) + 1) >= 4 * table.Length
      ensures !ok ==> Valid() && Map() == old(Map()) && count == old(count)
      ensures ok && (key in old(Map()) || old(count) < table.Length) ==> Valid() && Map() == old(Map())[key := data]
      ensures ok ==> count == old(count) + (if key in old(Map()) then 0 else 1)
      ensures ok && key !in old(Map()) && old(count) == table.Length ==>
                Missing(table[..], old(Map())[key := data])
    {
      hide Ordered, Anchored, Located, Entries, Occupied, Missing;
      var heavy := ShouldResize();
      if heavy && update {
        var found := GetValue(key);
        if found == table.Length {
          return false;
        }
      }
      Insert(key, data, update);
      return true;
    }

    /** The loop of storeValue. */
    method Insert(key: K, data: V, update: bool)
      requires Valid() && (update || key !in Map())
      modifies this, table
      ensures table == old(table)
      ensures key in old(Map()) || old(count) < table.Length ==> Valid() && Map() == old(Map())[key := data]
      ensures count == old(count) + (if key in old(Map()) then 0 else 1)
      ensures key !in old(Map()) && old(count) == table.Length ==>
                Missing(table[..], old(Map())[key := data])
    {
      hide Ordered, Anchored, Located, Entries, Occupied, Missing, Probing;
      var n := table.Length;
      var bucket := Bucket(noKey, hash(key) as nat, zero);
      var bucketUsed := false;
      var initPos := hash(key) % n;
      var probeCurrent := 0;
      ghost var t0, at0, b := table[..], at, Bucket(key, hash(key) as nat, data);
      ProbeStart(t0, at0, hash, key, data);
      var i := 0;
      while i < n
        invariant table == old(table) && table.Length == n && count == old(count) && i <= n
        invariant Probing(t0, at0, table[..], at, hash, key, data, i, probeCurrent, b, bucketUsed)
        invariant if bucketUsed then bucket == b else b == Bucket(key, hash(key) as nat, data)
      {
        ModWraps(initPos + i, n);
        var current := (initPos + i) % n;
        ghost var t := table[..];
        var currentHash := table[current].hash;
        if update && currentHash == hash(key) && !bucketUsed {
          if key == table[current].key {
            ProbeUpdate(t0, at0, t, at, hash, key, data, i, probeCurrent, b, current);
            table[current] := table[current].(data := data);
            assert table[..] == t[current := t[current].(data := data)];
            return;
          }
        }
        if currentHash == 0 {
          ProbePlace(t0, at0, t, at, hash, key, data, i, probeCurrent, b, bucketUsed, current);
          table[current] := if bucketUsed then bucket else Bucket(key, hash(key) as nat, data);
          assert table[..] == t[current := b];
          at := at[b.key := current];
          count := count + 1;
          return;
        }
        var probeDist := ComputeDistToInit(current);
        if probeCurrent > probeDist {
          ProbeSwap(t0, at0, t, at, hash, key, data, i, probeCurrent, b, bucketUsed, current);
          if !bucketUsed {
            bucket := Bucket(key, hash(key) as nat, data);
            bucketUsed := true;
          }
          at := at[b.key := current] - {t[current].key};
          table[current], bucket := bucket, table[current];
          assert table[..] == t[current := b];
          b := t[current];
          probeCurrent := probeDist;
        } else {
          ProbeKeep(t0, at0, t, at, hash, key, data, i, probeCurrent, b, bucketUsed, current);
        }
        probeCurrent := probeCurrent + 1;
        i := i + 1;
      }
      ProbeEnd(t0, at0, table[..], at, hash, key, data, probeCurrent, b, bucketUsed);
      count := count + 1;
    }

    /** Removes a key and returns its data, or the zero value when the key is not stored. */
    method ExtractValue(key: K) returns (ret: V)
      requires Valid()
      modifies this, table
      ensures Valid() && table == old(table)
      ensures ret == if key in old(Map()) then old(Map())[key] else zero
      ensures Map() == old(Map()) - {key}
      ensures count == old(count) - (if key in old(Map()) then 1 else 0)
    {
      hide Ordered, Anchored, Occupied, Shifting;
      var n := table.Length;
      var initPos := hash(key) % n;
      ghost var t0, at0 := table[..], at;
      var i := 0;
      while i < n
        invariant i <= n && table[..] == t0 && unchanged(this)
        invariant Avoided(t0, initPos, i, key)
      {
        ModWraps(initPos + i, n);
        var current := (initPos + i) % n;
        var probeDist := ComputeDistToInit(current);
        if key in at {
          Meets(t0, at, hash, key, i);
        }
        if probeDist == n || i > probeDist {
          return zero;
        }
        if key == table[current].key {
          ret := table[current].data;
          ShiftStart(t0, at, hash, current, Bucket(noKey, 0, zero));
          table[current] := Bucket(noKey, 0, zero);
          at := at - {key};
          assert table[..] == t0[current := Bucket(noKey, 0, zero)];
          CloseGap(t0, Entries(t0, at0) - {key}, current);
          count := count - 1;
          return ret;
        }
        i := i + 1;
      }
      if key in at {
        Meets(t0, at, hash, key, n);
      }
      return zero;
    }

    /** The second loop of extractValue. */
    method CloseGap(ghost t0: Buckets<K, V>, ghost m: map<K, V>, current: nat)
      requires current < table.Length && Ordered(t0) && Anchored(t0)
      requires Shifting(t0, table[..], at, hash, m, current, 1, current) && |t0| == table.Length && Full(t0, current)
      requires table[current] == Bucket(noKey, 0, zero)
      modifies this`at, table
      ensures Ordered(table[..]) && Anchored(table[..]) && Located(table[..], at, hash)
      ensures Entries(table[..], at) == m && |Occupied(table[..])| + 1 == |Occupied(t0)|
    {
      hide Ordered, Anchored, Shifting, Located, Entries, Occupied;
      var n := table.Length;
      var j := 1;
      while j < n
        invariant 1 <= j <= n
        invariant Shifting(t0, table[..], at, hash, m, current, j, Wrap(current + j - 1, n))
        invariant table[Wrap(current + j - 1, n)] == Bucket(noKey, 0, zero)
      {
        ModWraps(current + j - 1, n);
        ModWraps(current + j, n);
        var prev := (current + j - 1) % n;
        var swap := (current + j) % n;
        ghost var t := table[..];
        if table[swap].hash == 0 {
          ShiftStop(t0, t, at, hash, m, current, j, prev);
          ShiftFacts(t0, t, at, hash, m, current, j, prev);
          table[prev] := table[prev].(data := zero);
          assert table[..] == t;
          return;
        }
        var probeDist := ComputeDistToInit(swap);
        if probeDist == 0 {
          ShiftStop(t0, t, at, hash, m, current, j, prev);
          ShiftFacts(t0, t, at, hash, m, current, j, prev);
          table[prev] := table[prev].(data := zero);
          assert table[..] == t;
          return;
        }
        ShiftOn(t0, t, at, hash, m, current, j, prev, swap);
        at := at[table[swap].key := prev];
        table[prev], table[swap] := table[swap], table[prev];
        assert table[..] == t[prev := t[swap]][swap := t[prev]];
        j := j + 1;
      }
      ShiftEnd(t0, table[..], at, hash, m, current, Wrap(current + n - 1, n));
      ShiftFacts(t0, table[..], at, hash, m, current, n, Wrap(current + n - 1, n));
    }

    /** The occupied buckets counted one by one: the table's count. */
    method ComputeSize() returns (counter: nat)
      requires Valid()
      ensures counter == count
    {
      counter := 0;
      ghost var t, seen: set<nat> := table[..], {};
      for i := 0 to table.Length
        invariant counter == |seen| && seen == OccupiedBelow(t, i)
      {
        if table[i].hash != 0 {
          counter := counter + 1;
          seen := seen + {i};
        }
        assert seen == OccupiedBelow(t, i + 1);
      }
      BelowAll(t, at, hash);
    }

    /** Moves every entry into a table of twice the size. */
    method Resize() returns (ok: bool)
      requires Valid()
      modifies this
      ensures Valid() && fresh(table) && table.Length == 2 * old(table.Length)
      ensures ok && Map() == old(Map()) && count == old(count)
    {
      hide Ordered, Anchored, Occupied, Located, Entries, EntriesBelow, OccupiedBelow;
      var n := table.Length;
      ghost var t, at0 := table[..], at;
      BelowNone(t, at0, hash);
      var other := new RobinHoodHashTable(2 * n, hash, noKey, zero);
      for i := 0 to n
        invariant other.Valid() && fresh(other) && fresh(other.table) && other.table.Length == 2 * n
        invariant other.hash == hash && other.noKey == noKey && other.zero == zero
        invariant other.Map() == EntriesBelow(t, at0, i)
        invariant other.count == |OccupiedBelow(t, i)| && other.count <= i
        invariant unchanged(this) && table[..] == t
      {
        BelowStep(t, at0, hash, i);
        if table[i].hash != 0 {
          var stored := other.StoreValue(table[i].key, table[i].data, false);
          if !stored {
            return false;
          }
        }
      }
      BelowAll(t, at0, hash);
      table := other.table;
      at := other.at;
      return true;
    }

    /** Stores or updates. The table doubles exactly when a new key would bring it to the load limit, so a new key
        always leaves it below the limit and a free bucket is always left. */
    method ReliableStoreValue(key: K, data: V, update: bool) returns (ok: bool)
      requires Valid() && (update || key !in Map())
      modifies this, table
      ensures ok ==> Valid() && Map() == old(Map())[key := data]
      ensures old(count) < old(table.Length) ==> ok && count < table.Length
      ensures count == old(count) + (if ok && key !in old(Map()) then 1 else 0)
      ensures old(count) < old(table.Length) && key !in old(Map()) ==> 5 * count < 4 * table.Length
      ensures table.Length == old(table.Length) || table.Length == 2 * old(table.Length)
      ensures table.Length > old(table.Length) <==> key !in old(Map()) && 5 * (old(count) + 1) >= 4 * old(table.Length)
      ensures table.Length == old(table.Length) ==> table == old(table)
    {
      hide Ordered, Anchored, Occupied, Located, Entries, Missing;
      NoneFree(table[..]);
      if ShouldResize() {
        if update {
          var v := GetValue(key);
          if v < table.Length {
            ghost var t := table[..];
            UpdateInPlace(t, at, hash, v, data);
            table[v] := table[v].(data := data);
            assert table[..] == t[v := t[v].(data := data)];
            return true;
          }
        }
        var resized := Resize();
        if !resized {
          return false;
        }
      }
      ok := StoreValue(key, data, update);
    }
  }
}
