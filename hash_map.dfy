/** The robin-hood hash map: `insert` on the slot array, and the map object
    with its public operations `size`, `capacity`, `has`, `get`, `set`,
    `remove` and `clear`, together with `find`, `rehash`, `grow` and `full`
    that they are built from. */
module HashMap {
  import opened HashMapSlots
  import opened HashMapTable
  import opened Wrappers

  /** The walk of `insert` from slot `i`, carrying `item`, which lies
      `dist` slots past its ideal slot: a slot that is free or tombstoned
      takes the item; an occupant that has probed less than the item takes
      its place and is carried on; otherwise the walk moves to the next slot.
      `stop` is a slot that is not occupied, which the walk reaches at the
      latest; it only bounds the walk. */
  ghost function Walk<K, V>(t: seq<Slot<K, V>>, item: Slot<K, V>, i: nat, dist: nat, stop: nat): (r: seq<Slot<K, V>>)
    requires i < |t| && stop < |t| && !t[stop].Occupied?
    ensures |r| == |t|
    decreases Ahead(i, stop, |t|)
  {
    if !t[i].Occupied? then t[i := item]
    else
      AheadNext(i, stop, |t|);
      var existing := ProbeDistance(t[i].hash, i, |t|);
      if existing < dist then Walk(t[i := item], t[i], Next(i, |t|), existing + 1, stop)
      else Walk(t, item, Next(i, |t|), dist + 1, stop)
  }

  /** The table `insert` leaves: the walk of the new entry from its ideal
      slot. */
  ghost function Inserted<K, V>(s: seq<Slot<K, V>>, hash: Hash, key: K, value: V): (r: seq<Slot<K, V>>)
    requires 0 < |s| && Occupancy(s) < |s|
    ensures |r| == |s|
  {
    Walk(s, Occupied(hash, key, value), Home(hash, |s|), 0, Vacancy(s))
  }

  /** The walk places exactly one more entry. */
  lemma {:induction false} WalkCount<K, V>(t: seq<Slot<K, V>>, item: Slot<K, V>, i: nat, dist: nat, stop: nat)
    requires i < |t| && stop < |t| && !t[stop].Occupied? && item.Occupied?
    ensures Occupancy(Walk(t, item, i, dist, stop)) == Occupancy(t) + 1
    decreases Ahead(i, stop, |t|)
  {
    OccupancyUpdate(t, i, item);
    if t[i].Occupied? {
      AheadNext(i, stop, |t|);
      var existing := ProbeDistance(t[i].hash, i, |t|);
      if existing < dist {
        WalkCount(t[i := item], t[i], Next(i, |t|), existing + 1, stop);
      } else {
        WalkCount(t, item, Next(i, |t|), dist + 1, stop);
      }
    }
  }

  /** Every entry the walk writes carries its key's hash. */
  lemma {:induction false} WalkHashes<K, V>(t: seq<Slot<K, V>>, item: Slot<K, V>, i: nat, dist: nat, stop: nat, keyHash: K -> Hash)
    requires i < |t| && stop < |t| && !t[stop].Occupied?
    requires HashesAgree(t, keyHash) && item.Occupied? && item.hash == keyHash(item.key)
    ensures HashesAgree(Walk(t, item, i, dist, stop), keyHash)
    decreases Ahead(i, stop, |t|)
  {
    if t[i].Occupied? {
      AheadNext(i, stop, |t|);
      var existing := ProbeDistance(t[i].hash, i, |t|);
      if existing < dist {
        WalkHashes(t[i := item], t[i], Next(i, |t|), existing + 1, stop, keyHash);
      } else {
        WalkHashes(t, item, Next(i, |t|), dist + 1, stop, keyHash);
      }
    }
  }

  /** On a table without tombstones in robin-hood order, the walk keeps the
      order: the carried item is `dist` slots from its ideal slot, the free
      slot `stop` lies within reach, and the slot behind the item is
      displaced far enough. */
  lemma {:induction false} WalkOrdered<K, V>(t: seq<Slot<K, V>>, item: Slot<K, V>, i: nat, dist: nat, stop: nat)
    requires i < |t| && stop < |t| && !t[stop].Occupied?
    requires TombstoneFree(t) && RobinHood(t) && item.Occupied?
    requires dist == ProbeDistance(item.hash, i, |t|) && dist + Ahead(i, stop, |t|) < |t|
    requires dist > 0 ==> !t[Prev(i, |t|)].Free? && SlotDistance(t, Prev(i, |t|)) + 1 >= dist
    ensures TombstoneFree(Walk(t, item, i, dist, stop)) && RobinHood(Walk(t, item, i, dist, stop))
    decreases Ahead(i, stop, |t|)
  {
    var n := |t|;
    if !t[i].Occupied? {
      RobinHoodPlace(t, i, item);
    } else {
      AheadNext(i, stop, n);
      var existing := ProbeDistance(t[i].hash, i, n);
      if existing < dist {
        RobinHoodPlace(t, i, item);
        ProbeDistanceNext(t[i].hash, i, n);
        WalkOrdered(t[i := item], t[i], Next(i, n), existing + 1, stop);
      } else {
        ProbeDistanceNext(item.hash, i, n);
        WalkOrdered(t, item, Next(i, n), dist + 1, stop);
      }
    }
  }

  /** When the carried key is absent, the walk keeps keys unique and adds
      the carried pair to the contents. */
  lemma {:induction false} WalkContents<K, V>(t: seq<Slot<K, V>>, item: Slot<K, V>, i: nat, dist: nat, stop: nat)
    requires i < |t| && stop < |t| && !t[stop].Occupied?
    requires UniqueKeys(t) && item.Occupied? && !HasKey(t, item.key)
    ensures UniqueKeys(Walk(t, item, i, dist, stop))
    ensures Contents(Walk(t, item, i, dist, stop)) == Contents(t)[item.key := item.value]
    decreases Ahead(i, stop, |t|)
  {
    if !t[i].Occupied? {
      ContentsWrite(t, i, item);
    } else {
      AheadNext(i, stop, |t|);
      var existing := ProbeDistance(t[i].hash, i, |t|);
      if existing < dist {
        ContentsSwap(t, i, item);
        WalkContents(t[i := item], t[i], Next(i, |t|), existing + 1, stop);
      } else {
        WalkContents(t, item, Next(i, |t|), dist + 1, stop);
      }
    }
  }

  /** `insert` adds one entry. */
  lemma InsertedCount<K, V>(s: seq<Slot<K, V>>, hash: Hash, key: K, value: V)
    requires 0 < |s| && Occupancy(s) < |s|
    ensures Occupancy(Inserted(s, hash, key, value)) == Occupancy(s) + 1
  {
    WalkCount(s, Occupied(hash, key, value), Home(hash, |s|), 0, Vacancy(s));
  }

  /** `insert` of an entry carrying its key's hash keeps every entry
      carrying its key's hash. */
  lemma InsertedHashes<K, V>(s: seq<Slot<K, V>>, hash: Hash, key: K, value: V, keyHash: K -> Hash)
    requires 0 < |s| && Occupancy(s) < |s|
    requires HashesAgree(s, keyHash) && hash == keyHash(key)
    ensures HashesAgree(Inserted(s, hash, key, value), keyHash)
  {
    WalkHashes(s, Occupied(hash, key, value), Home(hash, |s|), 0, Vacancy(s), keyHash);
  }

  /** `insert` into a table without tombstones in robin-hood order leaves it
      so. */
  lemma InsertedOrdered<K, V>(s: seq<Slot<K, V>>, hash: Hash, key: K, value: V)
    requires 0 < |s| && Occupancy(s) < |s|
    requires TombstoneFree(s) && RobinHood(s)
    ensures TombstoneFree(Inserted(s, hash, key, value)) && RobinHood(Inserted(s, hash, key, value))
  {
    var n := |s|;
    var h := Home(hash, n);
    ProbeDistanceBack(hash, h, n);
    WalkOrdered(s, Occupied(hash, key, value), h, 0, Vacancy(s));
  }

  /** `insert` of an absent key keeps keys unique and maps the key to the
      value. */
  lemma InsertedContents<K, V>(s: seq<Slot<K, V>>, hash: Hash, key: K, value: V)
    requires 0 < |s| && Occupancy(s) < |s|
    requires UniqueKeys(s) && !HasKey(s, key)
    ensures UniqueKeys(Inserted(s, hash, key, value))
    ensures Contents(Inserted(s, hash, key, value)) == Contents(s)[key := value]
  {
    WalkContents(s, Occupied(hash, key, value), Home(hash, |s|), 0, Vacancy(s));
  }

  /** The walk adds exactly the carried pair to the copies of each pair,
      whatever the state of the table: entries are moved, never lost or
      duplicated. */
  lemma {:induction false} WalkCopies<K, V>(t: seq<Slot<K, V>>, item: Slot<K, V>, i: nat, dist: nat, stop: nat, k: K, v: V)
    requires i < |t| && stop < |t| && !t[stop].Occupied?
    ensures Copies(Walk(t, item, i, dist, stop), k, v) == Copies(t, k, v) + Holding(item, k, v)
    decreases Ahead(i, stop, |t|)
  {
    CopiesUpdate(t, i, item, k, v);
    if t[i].Occupied? {
      AheadNext(i, stop, |t|);
      var existing := ProbeDistance(t[i].hash, i, |t|);
      if existing < dist {
        WalkCopies(t[i := item], t[i], Next(i, |t|), existing + 1, stop, k, v);
      } else {
        WalkCopies(t, item, Next(i, |t|), dist + 1, stop, k, v);
      }
    }
  }

  /** The walk from slot `j` changes no slot lying beyond `stop`. */
  lemma {:induction false} WalkFrame<K, V>(t: seq<Slot<K, V>>, item: Slot<K, V>, j: nat, dist: nat, stop: nat, q: nat)
    requires j < |t| && stop < |t| && !t[stop].Occupied? && q < |t|
    requires Ahead(j, stop, |t|) < Ahead(j, q, |t|)
    ensures Walk(t, item, j, dist, stop)[q] == t[q]
    decreases Ahead(j, stop, |t|)
  {
    if t[j].Occupied? {
      AheadNext(j, stop, |t|);
      AheadNext(j, q, |t|);
      var existing := ProbeDistance(t[j].hash, j, |t|);
      if existing < dist {
        WalkFrame(t[j := item], t[j], Next(j, |t|), existing + 1, stop, q);
      } else {
        WalkFrame(t, item, Next(j, |t|), dist + 1, stop, q);
      }
    }
  }

  /** The probe loop stops at a slot holding its key at the expected
      distance. */
  lemma ProbeHere<K, V>(w: seq<Slot<K, V>>, key: K, value: V, h: Hash, i: nat, dist: nat)
    requires i < |w| && dist <= |w| && w[i] == Occupied(h, key, value) && dist == ProbeDistance(h, i, |w|)
    ensures Probe(w, key, h, i, dist) == Some(i)
  {
  }

  /** The probe loop passes an occupied slot with another key whose entry
      has probed at least as far. */
  lemma ProbePasses<K, V>(w: seq<Slot<K, V>>, key: K, h: Hash, i: nat, dist: nat)
    requires i < |w| && dist < |w| && w[i].Occupied? && dist <= ProbeDistance(w[i].hash, i, |w|)
    requires !(w[i].hash == h && w[i].key == key)
    ensures Probe(w, key, h, i, dist) == Probe(w, key, h, Next(i, |w|), dist + 1)
  {
  }

  /** While the walk still carries the new entry, lookup of its key from the
      walk's position, which failed on the old table, finds the entry on the
      new one: the slots the walk passed are unchanged and the entry lands
      where the lookup arrives. */
  lemma {:induction false} WalkFinds<K, V>(t: seq<Slot<K, V>>, key: K, value: V, h: Hash, i: nat, dist: nat, stop: nat)
    requires i < |t| && stop < |t| && !t[stop].Occupied?
    requires dist == ProbeDistance(h, i, |t|) && dist + Ahead(i, stop, |t|) < |t|
    requires Probe(t, key, h, i, dist).None?
    ensures Probe(Walk(t, Occupied(h, key, value), i, dist, stop), key, h, i, dist).Some?
    ensures Walk(t, Occupied(h, key, value), i, dist, stop)[Probe(Walk(t, Occupied(h, key, value), i, dist, stop), key, h, i, dist).value].value == value
    decreases Ahead(i, stop, |t|)
  {
    var n := |t|;
    var item := Occupied(h, key, value);
    var w := Walk(t, item, i, dist, stop);
    if !t[i].Occupied? {
      ProbeHere(w, key, value, h, i, dist);
    } else {
      AheadNext(i, stop, n);
      AheadNext(Next(i, n), i, n);
      var existing := ProbeDistance(t[i].hash, i, n);
      if existing < dist {
        WalkFrame(t[i := item], t[i], Next(i, n), existing + 1, stop, i);
        ProbeHere(w, key, value, h, i, dist);
      } else {
        ProbeDistanceNext(h, i, n);
        ProbePasses(t, key, h, i, dist);
        WalkFinds(t, key, value, h, Next(i, n), dist + 1, stop);
        WalkFrame(t, item, Next(i, n), dist + 1, stop, i);
        ProbePasses(w, key, h, i, dist);
      }
    }
  }

  /** `insert` adds exactly the new pair to the live pairs, on any table. */
  lemma InsertedCopies<K, V>(s: seq<Slot<K, V>>, hash: Hash, key: K, value: V, k: K, v: V)
    requires 0 < |s| && Occupancy(s) < |s|
    ensures Copies(Inserted(s, hash, key, value), k, v) == Copies(s, k, v) + Holding(Occupied(hash, key, value), k, v)
  {
    WalkCopies(s, Occupied(hash, key, value), Home(hash, |s|), 0, Vacancy(s), k, v);
  }


  /** On any table, after `insert` of a key that `find` did not locate,
      `find` locates the key and its slot holds the value inserted. */
  lemma InsertThenFind<K, V>(s: seq<Slot<K, V>>, size: nat, key: K, value: V, h: Hash)
    requires 0 < |s| && Occupancy(s) < |s| && size == Occupancy(s)
    requires FindSlot(s, size, key, h).None?
    ensures FindSlot(Inserted(s, h, key, value), size + 1, key, h).Some?
    ensures Inserted(s, h, key, value)[FindSlot(Inserted(s, h, key, value), size + 1, key, h).value].value == value
  {
    var n := |s|;
    var home := Home(h, n);
    ProbeDistanceBack(h, home, n);
    var r := Probe(s, key, h, home, 0);
    if r.Some? {
      OccupancyUpdate(s, r.value, Free);
    }
    WalkFinds(s, key, value, h, home, 0, Vacancy(s));
  }

  /** When the ideal slot is free or a tombstone, `insert` writes the entry
      there and changes nothing else, whatever the probe distance of the
      tombstone was. */
  lemma InsertedAtHome<K, V>(s: seq<Slot<K, V>>, hash: Hash, key: K, value: V)
    requires 0 < |s| && Occupancy(s) < |s| && !s[Home(hash, |s|)].Occupied?
    ensures Inserted(s, hash, key, value) == s[Home(hash, |s|) := Occupied(hash, key, value)]
  {
  }

  /** The table of 16 slots left by setting the keys 1, 2 and 3, which all
      hash to 0, and then removing key 2: entries at slots 0 and 2, and the
      tombstone of key 2 at slot 1. */
  function TombstoneTable(): (s: seq<Slot<int, int>>)
    ensures |s| == 16
  {
    [Occupied(0, 1, 10), Tombstone(0), Occupied(0, 3, 30)] + seq(13, _ => Free)
  }

  /** `insert` takes a tombstone whatever the probe distance of the entry
      that left it. On the table above, which is in robin-hood order with
      unique keys, inserting key 4 with hash 1 puts it on the tombstone at
      slot 1 with probe distance 0. The order is then broken, and `find`
      for key 3 gives up at slot 1 although key 3 is still held. */
  lemma TombstoneReuseLosesKey()
    ensures RobinHood(TombstoneTable()) && UniqueKeys(TombstoneTable())
    ensures Occupancy(TombstoneTable()) < 16
    ensures 3 in Contents(Inserted(TombstoneTable(), 1, 4, 40))
    ensures FindSlot(Inserted(TombstoneTable(), 1, 4, 40), 3, 3, 0).None?
    ensures !RobinHood(Inserted(TombstoneTable(), 1, 4, 40))
  {
    var s := TombstoneTable();
    forall i | 0 <= i < 16
      ensures OrderedAt(s, i)
    {
      if i >= 3 {
        assert s[i].Free?;
      }
    }
    OccupancyUpdate(s, 3, Occupied(0, 5, 50));
    InsertedAtHome(s, 1, 4, 40);
    var u := Inserted(s, 1, 4, 40);
    assert u == s[1 := Occupied(1, 4, 40)];
    assert u[2].key in Keys(u);
    assert Probe(u, 3, 0, 1, 1).None?;
    assert Probe(u, 3, 0, 0, 0).None?;
    assert !OrderedAt(u, 2);
  }

  /** `insert`: walk from the ideal slot of `hash`, swapping the carried
      entry with every occupant that has probed less than it, until a free
      or tombstoned slot takes the carried entry. The caller guarantees a
      slot that is not occupied (the load ceiling keeps one). */
  method Insert<K, V>(a: array<Slot<K, V>>, hash: Hash, key: K, value: V)
    requires a.Length > 0 && Occupancy(a[..]) < a.Length
    modifies a
    ensures a[..] == Inserted(old(a[..]), hash, key, value)
  {
    var n := a.Length;
    ghost var s0 := a[..];
    ghost var stop := Vacancy(s0);
    var item := Occupied(hash, key, value);
    var i: nat := Home(hash, n);
    var dist: nat := 0;
    while true
      invariant i < n && !a[stop].Occupied?
      invariant Walk(a[..], item, i, dist, stop) == Inserted(s0, hash, key, value)
      decreases Ahead(i, stop, n)
    {
      if a[i].Free? {
        break;
      }
      var existing := ProbeDistance(a[i].hash, i, n);
      if a[i].Tombstone? || existing < dist {
        if a[i].Tombstone? {
          break;
        }
        ghost var before := a[..];
        item, a[i] := a[i], item;
        assert a[..] == before[i := a[i]];
        dist := existing;
      }
      AheadNext(i, stop, n);
      i := Next(i, n);
      dist := dist + 1;
    }
    a[i] := item;
  }

  /** The table after the find-or-make step of `set`: the slot `find`
      returns gets the new value, or, when `find` returns none, the pair is
      inserted. */
  ghost function Written<K, V>(s: seq<Slot<K, V>>, size: nat, key: K, value: V, h: Hash): (r: seq<Slot<K, V>>)
    requires size == Occupancy(s) && size < |s|
    ensures |r| == |s|
  {
    var f := FindSlot(s, size, key, h);
    if f.Some? then s[f.value := s[f.value].(value := value)] else Inserted(s, h, key, value)
  }

  /** The find-or-make step adds an entry exactly when `find` misses, keeps
      the hashes, keeps a tombstone-free table in robin-hood order, and on a
      healthy table maps `key` to `value` and leaves the rest. */
  lemma WrittenShape<K, V>(s: seq<Slot<K, V>>, size: nat, key: K, value: V, keyHash: K -> Hash)
    requires size == Occupancy(s) && size < |s| && HashesAgree(s, keyHash)
    ensures Occupancy(Written(s, size, key, value, keyHash(key)))
            == size + if FindSlot(s, size, key, keyHash(key)).None? then 1 else 0
    ensures HashesAgree(Written(s, size, key, value, keyHash(key)), keyHash)
    ensures TombstoneFree(s) && RobinHood(s) ==>
              TombstoneFree(Written(s, size, key, value, keyHash(key))) && RobinHood(Written(s, size, key, value, keyHash(key)))
    ensures RobinHood(s) && UniqueKeys(s) ==>
              UniqueKeys(Written(s, size, key, value, keyHash(key)))
              && Contents(Written(s, size, key, value, keyHash(key))) == Contents(s)[key := value]
  {
    var h := keyHash(key);
    var f := FindSlot(s, size, key, h);
    if RobinHood(s) && UniqueKeys(s) {
      FindSlotExact(s, size, key, keyHash);
      KeyPresence(s, key);
    }
    if f.None? {
      InsertedCount(s, h, key, value);
      InsertedHashes(s, h, key, value, keyHash);
      if TombstoneFree(s) && RobinHood(s) {
        InsertedOrdered(s, h, key, value);
      }
      if RobinHood(s) && UniqueKeys(s) {
        InsertedContents(s, h, key, value);
      }
    } else {
      ValueUpdate(s, f.value, value, keyHash);
    }
  }

  /** On a healthy table, `find` locates `key` after the find-or-make step
      and its slot holds the new value, even where reusing a tombstone
      breaks the robin-hood order for other keys. */
  lemma WrittenFinds<K, V>(s: seq<Slot<K, V>>, size: nat, key: K, value: V, keyHash: K -> Hash)
    requires size == Occupancy(s) && size < |s| && HashesAgree(s, keyHash) && RobinHood(s) && UniqueKeys(s)
    ensures var w := Written(s, size, key, value, keyHash(key));
            && FindSlot(w, Occupancy(w), key, keyHash(key)).Some?
            && w[FindSlot(w, Occupancy(w), key, keyHash(key)).value].value == value
  {
    var h := keyHash(key);
    var f := FindSlot(s, size, key, h);
    if f.None? {
      InsertedCount(s, h, key, value);
      InsertThenFind(s, size, key, value, h);
    } else {
      var w := s[f.value := s[f.value].(value := value)];
      ValueUpdate(s, f.value, value, keyHash);
      FindSlotExact(s, size, key, keyHash);
      FindSlotExact(w, size, key, keyHash);
    }
  }

  /** The slot whose pair the find-or-make step replaces: the one `find`
      returns, or a free slot, holding no pair, when there is none. */
  ghost function Overwritten<K, V>(s: seq<Slot<K, V>>, size: nat, key: K, h: Hash): Slot<K, V>
    requires size == 0 || |s| > 0
  {
    var f := FindSlot(s, size, key, h);
    if f.Some? then s[f.value] else Free
  }

  /** The find-or-make step replaces the pair of the slot `find` returns,
      or nothing, by the new pair: no other pair is lost or duplicated. */
  lemma WrittenCopies<K, V>(s: seq<Slot<K, V>>, size: nat, key: K, value: V, h: Hash, k: K, v: V)
    requires size == Occupancy(s) && size < |s|
    ensures Copies(Written(s, size, key, value, h), k, v) + Holding(Overwritten(s, size, key, h), k, v)
            == Copies(s, k, v) + Holding(Occupied(h, key, value), k, v)
  {
    var f := FindSlot(s, size, key, h);
    if f.Some? {
      CopiesUpdate(s, f.value, s[f.value].(value := value), k, v);
    } else {
      InsertedCopies(s, h, key, value, k, v);
    }
  }

  /** What `rehash`'s copy loop leaves in the new table `t` after old slot
      `j`: `t` itself when the slot is not live, otherwise `t` with the
      slot's entry inserted. */
  ghost function Reinserted<K, V>(t: seq<Slot<K, V>>, e: Slot<K, V>): (r: seq<Slot<K, V>>)
    requires e.Occupied? ==> 0 < |t| && Occupancy(t) < |t|
    ensures |r| == |t|
  {
    if e.Occupied? then Inserted(t, e.hash, e.key, e.value) else t
  }

  /** A table of `n` free slots. */
  ghost function Frees<K, V>(n: nat): (r: seq<Slot<K, V>>)
    ensures |r| == n && Occupancy(r) == 0 && forall i | 0 <= i < n :: r[i].Free?
  {
    var r := seq(n, _ => Free);
    AllFreeEmpty(r);
    r
  }

  /** The table `rehash` builds: the live entries of `s`, in slot order,
      inserted one by one into table `t`. */
  ghost function Rebuilt<K, V>(s: seq<Slot<K, V>>, t: seq<Slot<K, V>>): (r: seq<Slot<K, V>>)
    requires Occupancy(t) + Occupancy(s) < |t|
    ensures |r| == |t| && Occupancy(r) == Occupancy(t) + Occupancy(s)
    decreases |s|
  {
    if s == [] then t
    else
      var r := Rebuilt(s[..|s| - 1], t);
      var e := s[|s| - 1];
      if e.Occupied? then
        InsertedCount(r, e.hash, e.key, e.value);
        Inserted(r, e.hash, e.key, e.value)
      else r
  }

  /** One more old slot for the copy loop of `rehash`: the table built
      from the first `j` slots has room for slot `j`'s entry, and taking it
      gives the table built from the first `j + 1`. */
  lemma RebuiltStep<K, V>(s: seq<Slot<K, V>>, j: nat, t: seq<Slot<K, V>>)
    requires j < |s| && Occupancy(t) + Occupancy(s) < |t|
    ensures Occupancy(t) + Occupancy(s[..j]) < |t| && Occupancy(t) + Occupancy(s[..j + 1]) < |t|
    ensures s[j].Occupied? ==> Occupancy(Rebuilt(s[..j], t)) < |t|
    ensures Rebuilt(s[..j + 1], t) == Reinserted(Rebuilt(s[..j], t), s[j])
  {
    OccupancyPrefix(s, j);
    OccupancyPrefixBound(s, j + 1);
    assert s[..j + 1][..j] == s[..j];
  }

  /** Rebuilding moves entries without losing or duplicating any: the
      result holds the live pairs of both tables, with multiplicity. */
  lemma {:induction false} RebuiltCopies<K, V>(s: seq<Slot<K, V>>, t: seq<Slot<K, V>>, k: K, v: V)
    requires Occupancy(t) + Occupancy(s) < |t|
    ensures Copies(Rebuilt(s, t), k, v) == Copies(t, k, v) + Copies(s, k, v)
    decreases |s|
  {
    if s != [] {
      var r := Rebuilt(s[..|s| - 1], t);
      RebuiltCopies(s[..|s| - 1], t, k, v);
      var e := s[|s| - 1];
      if e.Occupied? {
        InsertedCopies(r, e.hash, e.key, e.value, k, v);
      }
    }
  }

  /** Rebuilding into free slots keeps exactly the live pairs. */
  lemma RebuiltFresh<K, V>(s: seq<Slot<K, V>>, n: nat, k: K, v: V)
    requires Occupancy(s) < n
    ensures Copies(Rebuilt(s, Frees(n)), k, v) == Copies(s, k, v)
  {
    RebuiltCopies(s, Frees(n), k, v);
    AllFreeCopies(Frees<K, V>(n), k, v);
  }

  /** Rebuilding from entries that carry their keys' hashes into a table
      without tombstones and in robin-hood order keeps that shape. */
  lemma {:induction false} RebuiltOrder<K, V>(s: seq<Slot<K, V>>, t: seq<Slot<K, V>>, keyHash: K -> Hash)
    requires Occupancy(t) + Occupancy(s) < |t|
    requires HashesAgree(s, keyHash) && HashesAgree(t, keyHash) && TombstoneFree(t) && RobinHood(t)
    ensures HashesAgree(Rebuilt(s, t), keyHash)
    ensures TombstoneFree(Rebuilt(s, t)) && RobinHood(Rebuilt(s, t))
    decreases |s|
  {
    if s != [] {
      var e := s[|s| - 1];
      var p := s[..|s| - 1];
      RebuiltOrder(p, t, keyHash);
      if e.Occupied? {
        var r := Rebuilt(p, t);
        InsertedHashes(r, e.hash, e.key, e.value, keyHash);
        InsertedOrdered(r, e.hash, e.key, e.value);
      }
    }
  }

  /** Rebuilding entries with unique keys into a table holding nothing
      yields unique keys and exactly their contents. */
  lemma {:induction false} RebuiltContents<K, V>(s: seq<Slot<K, V>>, t: seq<Slot<K, V>>)
    requires Occupancy(t) + Occupancy(s) < |t|
    requires UniqueKeys(s) && UniqueKeys(t) && Contents(t) == map[]
    ensures UniqueKeys(Rebuilt(s, t)) && Contents(Rebuilt(s, t)) == Contents(s)
    decreases |s|
  {
    if s == [] {
      assert Keys(s) == {};
    } else {
      var j := |s| - 1;
      var e := s[j];
      var p := s[..j];
      assert s[..j + 1] == s;
      ContentsPrefix(s, j);
      RebuiltContents(p, t);
      if e.Occupied? {
        var r := Rebuilt(p, t);
        KeyPresence(r, e.key);
        InsertedContents(r, e.hash, e.key, e.value);
      }
    }
  }

  /** The table `rehash` builds into `n` free slots keeps the number of
      entries and every live pair, carries the keys' hashes, has no
      tombstones, is in robin-hood order and, with unique old keys, has
      unique keys and the same contents. */
  lemma RebuiltTable<K, V>(s: seq<Slot<K, V>>, n: nat, keyHash: K -> Hash)
    requires Occupancy(s) < n && HashesAgree(s, keyHash)
    ensures |Rebuilt(s, Frees(n))| == n && Occupancy(Rebuilt(s, Frees(n))) == Occupancy(s)
    ensures HashesAgree(Rebuilt(s, Frees(n)), keyHash)
    ensures TombstoneFree(Rebuilt(s, Frees(n))) && RobinHood(Rebuilt(s, Frees(n)))
    ensures UniqueKeys(s) ==> UniqueKeys(Rebuilt(s, Frees(n))) && Contents(Rebuilt(s, Frees(n))) == Contents(s)
  {
    var t0: seq<Slot<K, V>> := Frees(n);
    AllFreeOrdered(t0, keyHash);
    RebuiltOrder(s, t0, keyHash);
    if UniqueKeys(s) {
      AllFreeContents(t0);
      RebuiltContents(s, t0);
    }
  }

  /** The copy loop of `rehash`: every live entry of `src`, in slot order,
      is inserted into `dst`. */
  method Reinsert<K, V>(src: array<Slot<K, V>>, n: nat, dst: array<Slot<K, V>>)
    requires src != dst && n == src.Length && Occupancy(dst[..]) + Occupancy(src[..]) < dst.Length
    modifies dst
    ensures dst[..] == Rebuilt(src[..], old(dst[..]))
  {
    ghost var s0 := src[..];
    ghost var t0 := dst[..];
    for j := 0 to n
      invariant Occupancy(t0) + Occupancy(s0[..j]) < |t0| && dst[..] == Rebuilt(s0[..j], t0)
    {
      var e := src[j];
      RebuiltStep(s0, j, t0);
      if e.Occupied? {
        Insert(dst, e.hash, e.key, e.value);
      }
    }
    assert s0[..n] == s0;
  }

  /** The map object. The hash functor is fixed at construction; the
      capacity is 0 until the first growth, then a power of two; `size`
      counts the live entries; the slot array is `_index` and `_data`
      together. */
  class HashMap<K(==), V> {
    const keyHash: K -> Hash
    var capacity: nat
    var size: nat
    var slots: array<Slot<K, V>>

    /** The bookkeeping every operation keeps: the array has the recorded
        capacity, the capacity has its allowed shape, `size` is the number
        of occupied slots, and every entry carries its key's hash. */
    ghost predicate Consistent()
      reads this, slots
    {
      && slots.Length == capacity
      && ValidCapacity(capacity)
      && size == Occupancy(slots[..])
      && HashesAgree(slots[..], keyHash)
    }

    /** Consistent, and an allocated table is below the load ceiling of
        `full`, so it always has a slot that is not occupied. */
    ghost predicate Valid()
      reads this, slots
    {
      Consistent() && (capacity > 0 ==> !Full(size, capacity))
    }

    /** The table is in robin-hood order and no key occurs twice: the state
        in which `find` answers exactly. */
    ghost predicate Healthy()
      reads this, slots
    {
      RobinHood(slots[..]) && UniqueKeys(slots[..])
    }

    /** No slot is a tombstone. */
    ghost predicate NoTombstones()
      reads this, slots
    {
      TombstoneFree(slots[..])
    }

    /** The key/value pairs the map holds. */
    ghost function Pairs(): map<K, V>
      reads this, slots
    {
      Contents(slots[..])
    }

    /** The constructor: no table is allocated, nothing is held. */
    constructor(keyHash: K -> Hash)
      ensures Valid() && Healthy() && NoTombstones()
      ensures this.keyHash == keyHash && capacity == 0 && size == 0 && Pairs() == map[]
      ensures fresh(slots)
    {
      this.keyHash := keyHash;
      capacity := 0;
      size := 0;
      slots := new Slot<K, V>[0];
      new;
      AllFreeContents(slots[..]);
    }

    /** `size`: the number of live entries, which is the number of pairs
        when keys are unique. */
    function Size(): (r: nat)
      reads this, slots
      requires Consistent()
      ensures r == Occupancy(slots[..]) && r <= capacity
      ensures UniqueKeys(slots[..]) ==> r == |Pairs()|
    {
      ContentsCount(slots[..]);
      size
    }

    /** `capacity`: 0 or a power of two at least 16, and on a valid map
        above the number of entries by the load ceiling. */
    function Capacity(): (r: nat)
      reads this, slots
      requires Valid()
      ensures r == slots.Length
      ensures r == 0 || (r >= 16 && IsPow2(r))
      ensures r > 0 ==> 10 * Size() < 9 * r
    {
      capacity
    }

    /** `find`: the slot holding `key`, or none (END_OF_LIST). */
    method Find(key: K) returns (r: Option<nat>)
      requires Consistent()
      ensures r == FindSlot(slots[..], size, key, keyHash(key))
    {
      if size == 0 {
        return None;
      }
      var h := keyHash(key);
      var n := capacity;
      var i: nat := Home(h, n);
      var dist: nat := 0;
      while true
        invariant i < n && dist <= n
        invariant FindSlot(slots[..], size, key, h) == Probe(slots[..], key, h, i, dist)
        decreases n - dist
      {
        var e := slots[i];
        if e.Free? {
          return None;
        }
        if dist > ProbeDistance(e.hash, i, n) {
          return None;
        }
        if e.Occupied? && e.hash == h && e.key == key {
          return Some(i);
        }
        i := Next(i, n);
        dist := dist + 1;
      }
    }

    /** `has`: whether `find` locates the key; a key it reports is held,
        and on a healthy map it reports exactly the held keys. */
    method Has(key: K) returns (b: bool)
      requires Consistent()
      ensures b == FindSlot(slots[..], size, key, keyHash(key)).Some?
      ensures b ==> key in Pairs()
      ensures Healthy() ==> (b <==> key in Pairs())
    {
      var i := Find(key);
      b := i.Some?;
      if b {
        KeyPresence(slots[..], key);
      }
      if Healthy() {
        FindSlotExact(slots[..], size, key, keyHash);
      }
    }

    /** `get`: the value in the slot `find` locates, or `deflt` when it
        locates none; on a healthy map, the value held for `key`, or
        `deflt` when it is absent. */
    method Get(key: K, deflt: V) returns (v: V)
      requires Consistent()
      ensures v == if FindSlot(slots[..], size, key, keyHash(key)).Some?
                   then slots[FindSlot(slots[..], size, key, keyHash(key)).value].value else deflt
      ensures key !in Pairs() ==> v == deflt
      ensures Healthy() ==> v == if key in Pairs() then Pairs()[key] else deflt
    {
      var i := Find(key);
      if i.None? {
        v := deflt;
      } else {
        v := slots[i.value].value;
        KeyPresence(slots[..], key);
      }
      if Healthy() {
        FindSlotExact(slots[..], size, key, keyHash);
      }
    }

    /** `rehash`: a fresh table of `newCapacity` free slots into which every
        live entry is inserted again, in slot order; tombstones are dropped
        and no pair is lost or duplicated. */
    method Rehash(newCapacity: nat)
      requires Consistent() && ValidCapacity(newCapacity) && size < newCapacity
      modifies this
      ensures Consistent() && capacity == newCapacity && size == old(size) && fresh(slots)
      ensures NoTombstones() && RobinHood(slots[..])
      ensures slots[..] == Rebuilt(old(slots[..]), Frees(newCapacity))
      ensures forall k: K, v: V :: Copies(slots[..], k, v) == Copies(old(slots[..]), k, v)
      ensures old(UniqueKeys(slots[..])) ==> UniqueKeys(slots[..]) && Pairs() == old(Pairs())
    {
      var na := new Slot<K, V>[newCapacity](_ => Free);
      ghost var s0 := slots[..];
      assert na[..] == Frees(newCapacity);
      Reinsert(slots, capacity, na);
      RebuiltTable(s0, newCapacity, keyHash);
      forall k: K, v: V {
        RebuiltFresh(s0, newCapacity, k, v);
      }
      slots := na;
      capacity := newCapacity;
    }

    /** `grow`: rehash to 16 slots from an unallocated table, otherwise to
        twice the capacity. */
    method Grow()
      requires Consistent()
      modifies this
      ensures Consistent() && capacity == GrowCapacity(old(capacity)) && size == old(size) && fresh(slots)
      ensures NoTombstones() && RobinHood(slots[..])
      ensures forall k: K, v: V :: Copies(slots[..], k, v) == Copies(old(slots[..]), k, v)
      ensures old(UniqueKeys(slots[..])) ==> UniqueKeys(slots[..]) && Pairs() == old(Pairs())
    {
      Rehash(if capacity == 0 then 16 else capacity * 2);
    }
  
    /** The find-or-make step of `set`: overwrite the value in the slot
        `find` returns, or insert the pair and count it when there is none. */
    method FindOrMake(key: K, value: V)
      requires Consistent() && size < capacity
      modifies this, slots
      ensures Consistent() && capacity == old(capacity) && slots == old(slots)
      ensures slots[..] == Written(old(slots[..]), old(size), key, value, keyHash(key))
      ensures size == old(size) + if old(FindSlot(slots[..], size, key, keyHash(key))).None? then 1 else 0
    {
      var i := Find(key);
      ghost var s := slots[..];
      WrittenShape(s, size, key, value, keyHash);
      if i.None? {
        Insert(slots, keyHash(key), key, value);
        size := size + 1;
      } else {
        slots[i.value] := slots[i.value].(value := value);
      }
    }

    /** `set`: allocate on first use, overwrite the value of a present key
        or insert a new entry, then grow once the load ceiling is reached. */
    method Set(key: K, value: V)
      requires Valid()
      modifies this, slots
      ensures slots == old(slots) || fresh(slots)
      ensures Valid() && capacity >= 16 && !Full(size, capacity)
      ensures var c := if old(capacity) == 0 then 16 else old(capacity);
              capacity == if Full(size, c) then 2 * c else c
      ensures size == old(size) + if old(FindSlot(slots[..], size, key, keyHash(key))).None? then 1 else 0
      ensures var gone := old(Overwritten(slots[..], size, key, keyHash(key)));
              forall k: K, v: V ::
                Copies(slots[..], k, v) + Holding(gone, k, v)
                == Copies(old(slots[..]), k, v) + Holding(Occupied(keyHash(key), key, value), k, v)
      ensures old(Healthy()) ==> UniqueKeys(slots[..]) && Pairs() == old(Pairs())[key := value]
      ensures old(Healthy()) ==> FindSlot(slots[..], size, key, keyHash(key)).Some?
                                 && slots[FindSlot(slots[..], size, key, keyHash(key)).value].value == value
      ensures old(Healthy() && NoTombstones()) ==> Healthy() && NoTombstones()
    {
      ghost var healthy := Healthy();
      ghost var s0 := slots[..];
      ghost var gone := Overwritten(s0, size, key, keyHash(key));
      var grew := capacity == 0;
      if grew {
        Grow();
      }
      ghost var s := slots[..];
      ghost var n0 := size;
      WrittenShape(s, n0, key, value, keyHash);
      if healthy {
        WrittenFinds(s, n0, key, value, keyHash);
      }
      FindOrMake(key, value);
      ghost var s2 := slots[..];
      var regrow := Full(size, capacity);
      if regrow {
        Grow();
        if healthy {
          FindSlotExact(slots[..], size, key, keyHash);
        }
      }
      forall k: K, v: V
        ensures Copies(slots[..], k, v) + Holding(gone, k, v)
                == Copies(s0, k, v) + Holding(Occupied(keyHash(key), key, value), k, v)
      {
        if grew {
          EmptyCopies(s0, k, v);
          EmptyCopies(s, k, v);
        }
        WrittenCopies(s, n0, key, value, keyHash(key), k, v);
      }
    }
  
    /** `remove`: the found entry becomes a tombstone that keeps its hash;
        an absent key changes nothing. */
    method Remove(key: K)
      requires Valid()
      modifies this, slots
      ensures Valid() && capacity == old(capacity) && slots == old(slots)
      ensures size == old(size) - if old(FindSlot(slots[..], size, key, keyHash(key))).Some? then 1 else 0
      ensures var f := old(FindSlot(slots[..], size, key, keyHash(key)));
              slots[..] == if f.Some? then old(slots[..])[f.value := Tombstone(old(slots[f.value].hash))] else old(slots[..])
      ensures old(UniqueKeys(slots[..])) ==> UniqueKeys(slots[..]) && FindSlot(slots[..], size, key, keyHash(key)).None?
      ensures old(UniqueKeys(slots[..]) && FindSlot(slots[..], size, key, keyHash(key)).Some?) ==> Pairs() == old(Pairs()) - {key}
      ensures old(Healthy()) ==> Healthy() && Pairs() == old(Pairs()) - {key}
    {
      ghost var healthy := Healthy();
      ghost var s := slots[..];
      var i := Find(key);
      if healthy {
        FindSlotExact(s, size, key, keyHash);
        KeyPresence(s, key);
      }
      if i.None? {
        return;
      }
      Bury(s, i.value, keyHash);
      slots[i.value] := Tombstone(slots[i.value].hash);
      assert slots[..] == s[i.value := Tombstone(s[i.value].hash)];
      size := size - 1;
      FoundHeld(slots[..], size, key, keyHash(key));
    }

    /** `clear`: every slot becomes free; the capacity is kept. */
    method Clear()
      requires Valid()
      modifies this, slots
      ensures Valid() && capacity == old(capacity) && slots == old(slots)
      ensures size == 0 && Pairs() == map[]
      ensures Healthy() && NoTombstones()
    {
      var a := slots;
      for k := 0 to capacity
        modifies a
        invariant forall j | 0 <= j < k :: a[j].Free?
      {
        a[k] := Free;
      }
      size := 0;
      AllFreeEmpty(a[..]);
      AllFreeContents(a[..]);
      AllFreeOrdered(a[..], keyHash);
    }
  }

  /** A client of the map: a new map with keys 1, 2 and 3 set to
      themselves. */
  method SetThree(keyHash: int -> Hash) returns (m: HashMap<int, int>)
    ensures fresh(m) && fresh(m.slots) && m.keyHash == keyHash
    ensures m.Valid() && m.Healthy() && m.Pairs() == map[1 := 1, 2 := 2, 3 := 3]
  {
    m := new HashMap<int, int>(keyHash);
    m.Set(1, 1);
    m.Set(2, 2);
    m.Set(3, 3);
  }

  /** A client of the map: keys 1, 2 and 3 set to themselves, then key 2
      removed. */
  method SetThreeRemoveTwo(keyHash: int -> Hash) returns (m: HashMap<int, int>)
    ensures fresh(m) && fresh(m.slots) && m.keyHash == keyHash
    ensures m.Valid() && m.Healthy() && m.Pairs() == map[1 := 1, 2 := 2, 3 := 3] - {2}
  {
    m := SetThree(keyHash);
    m.Remove(2);
  }

  /** A client of the map: set three keys, remove the middle one, and set
      it again with a new value. The removed key is reported absent while
      the others stay, and afterwards it is found with its new value. */
  method SetRemoveSet(keyHash: int -> Hash) returns (goneAfterRemove: bool, kept: int, found: bool, v: int)
    ensures goneAfterRemove && kept == 1 && found && v == 5
  {
    var m := SetThreeRemoveTwo(keyHash);
    var has2 := m.Has(2);
    goneAfterRemove := !has2;
    kept := m.Get(1, -1);
    m.Set(2, 5);
    found := m.Has(2);
    v := m.Get(2, -1);
  }
}
