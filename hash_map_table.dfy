/** The table of slots seen as a value: how many entries it holds, the
    key/value pairs they make up, the robin-hood ordering of probe runs, and
    the lookup that `find` performs on it. */
module HashMapTable {
  import opened HashMapSlots
  import opened Wrappers

  // ---------------------------------------------------------------------
  // Occupancy

  /** One for an occupied slot, zero for a free or tombstoned one. */
  function Occ<K, V>(x: Slot<K, V>): nat {
    if x.Occupied? then 1 else 0
  }

  /** The number of occupied slots, which the map keeps in `_size`. */
  ghost function Occupancy<K, V>(s: seq<Slot<K, V>>): (c: nat)
    ensures c <= |s|
  {
    if s == [] then 0 else Occupancy(s[..|s| - 1]) + Occ(s[|s| - 1])
  }

  /** Rewriting one slot changes the count by what it removes and adds. */
  lemma {:induction false} OccupancyUpdate<K, V>(s: seq<Slot<K, V>>, i: nat, x: Slot<K, V>)
    requires i < |s|
    ensures Occupancy(s[i := x]) + Occ(s[i]) == Occupancy(s) + Occ(x)
    decreases |s|
  {
    var n := |s|;
    var t := s[i := x];
    if i == n - 1 {
      assert t[..n - 1] == s[..n - 1];
    } else {
      assert t[..n - 1] == s[..n - 1][i := x];
      OccupancyUpdate(s[..n - 1], i, x);
    }
  }

  /** Counting one more slot of a prefix. */
  lemma OccupancyPrefix<K, V>(s: seq<Slot<K, V>>, j: nat)
    requires j < |s|
    ensures Occupancy(s[..j + 1]) == Occupancy(s[..j]) + Occ(s[j])
  {
    assert s[..j + 1][..j] == s[..j];
  }

  /** A prefix holds no more entries than the whole table. */
  lemma {:induction false} OccupancyPrefixBound<K, V>(s: seq<Slot<K, V>>, j: nat)
    requires j <= |s|
    ensures Occupancy(s[..j]) <= Occupancy(s)
    decreases |s| - j
  {
    if j < |s| {
      OccupancyPrefix(s, j);
      OccupancyPrefixBound(s, j + 1);
    } else {
      assert s[..j] == s;
    }
  }

  /** A table with fewer entries than slots has a slot that is free or
      tombstoned, where an insertion can stop. */
  lemma {:induction false} NonOccupiedExists<K, V>(s: seq<Slot<K, V>>)
    requires Occupancy(s) < |s|
    ensures exists i | 0 <= i < |s| :: !s[i].Occupied?
    decreases |s|
  {
    var n := |s|;
    if s[n - 1].Occupied? {
      NonOccupiedExists(s[..n - 1]);
      var i :| 0 <= i < n - 1 && !s[..n - 1][i].Occupied?;
      assert !s[i].Occupied?;
    }
  }

  /** A slot that is free or tombstoned. */
  ghost function Vacancy<K, V>(s: seq<Slot<K, V>>): (i: nat)
    requires Occupancy(s) < |s|
    ensures i < |s| && !s[i].Occupied?
  {
    NonOccupiedExists(s);
    var i :| 0 <= i < |s| && !s[i].Occupied?; i
  }

  lemma {:induction false} AllFreeEmpty<K, V>(s: seq<Slot<K, V>>)
    requires forall i | 0 <= i < |s| :: s[i].Free?
    ensures Occupancy(s) == 0
    decreases |s|
  {
    if s != [] {
      AllFreeEmpty(s[..|s| - 1]);
    }
  }

  /** One when slot `x` holds the pair (`k`, `v`), zero otherwise. */
  ghost function Holding<K, V>(x: Slot<K, V>, k: K, v: V): nat {
    if x.Occupied? && x.key == k && x.value == v then 1 else 0
  }

  /** The number of occupied slots holding the pair (`k`, `v`): the live
      pairs of the table counted with multiplicity, whether or not its keys
      are unique. */
  ghost function Copies<K, V>(s: seq<Slot<K, V>>, k: K, v: V): nat
  {
    if s == [] then 0 else Copies(s[..|s| - 1], k, v) + Holding(s[|s| - 1], k, v)
  }

  /** Rewriting one slot changes the copies of a pair by what it removes
      and adds. */
  lemma {:induction false} CopiesUpdate<K, V>(s: seq<Slot<K, V>>, i: nat, x: Slot<K, V>, k: K, v: V)
    requires i < |s|
    ensures Copies(s[i := x], k, v) + Holding(s[i], k, v) == Copies(s, k, v) + Holding(x, k, v)
    decreases |s|
  {
    var n := |s|;
    var t := s[i := x];
    if i == n - 1 {
      assert t[..n - 1] == s[..n - 1];
    } else {
      assert t[..n - 1] == s[..n - 1][i := x];
      CopiesUpdate(s[..n - 1], i, x, k, v);
    }
  }

  /** A table without entries holds no pair. */
  lemma {:induction false} EmptyCopies<K, V>(s: seq<Slot<K, V>>, k: K, v: V)
    requires Occupancy(s) == 0
    ensures Copies(s, k, v) == 0
    decreases |s|
  {
    if s != [] {
      EmptyCopies(s[..|s| - 1], k, v);
    }
  }

  /** A table of free slots holds no pair. */
  lemma {:induction false} AllFreeCopies<K, V>(s: seq<Slot<K, V>>, k: K, v: V)
    requires forall i | 0 <= i < |s| :: s[i].Free?
    ensures Copies(s, k, v) == 0
    decreases |s|
  {
    if s != [] {
      AllFreeCopies(s[..|s| - 1], k, v);
    }
  }

  // ---------------------------------------------------------------------
  // Keys and contents

  /** No slot of the table is a tombstone. */
  ghost predicate TombstoneFree<K, V>(s: seq<Slot<K, V>>) {
    forall i | 0 <= i < |s| :: !s[i].Tombstone?
  }

  /** Every entry carries the full hash of its key. */
  ghost predicate HashesAgree<K, V>(s: seq<Slot<K, V>>, keyHash: K -> Hash) {
    forall i | 0 <= i < |s| && s[i].Occupied? :: s[i].hash == keyHash(s[i].key)
  }

  /** No key is held by two occupied slots. */
  ghost predicate UniqueKeys<K, V>(s: seq<Slot<K, V>>) {
    forall i, j | 0 <= i < |s| && 0 <= j < |s| && s[i].Occupied? && s[j].Occupied? && s[i].key == s[j].key :: i == j
  }

  /** Some occupied slot holds `key`. */
  ghost predicate HasKey<K, V>(s: seq<Slot<K, V>>, key: K) {
    exists i | 0 <= i < |s| :: s[i].Occupied? && s[i].key == key
  }

  /** The keys held by occupied slots. */
  ghost function Keys<K, V>(s: seq<Slot<K, V>>): set<K> {
    set i | 0 <= i < |s| && s[i].Occupied? :: s[i].key
  }

  /** A slot holding `key`. */
  ghost function KeySlot<K, V>(s: seq<Slot<K, V>>, key: K): (i: nat)
    requires HasKey(s, key)
    ensures i < |s| && s[i].Occupied? && s[i].key == key
  {
    var i :| 0 <= i < |s| && s[i].Occupied? && s[i].key == key; i
  }

  /** What the table maps each present key to; meaningful when keys are
      unique, which the map's operations keep. */
  ghost function Contents<K, V>(s: seq<Slot<K, V>>): (m: map<K, V>)
    ensures m.Keys == Keys(s)
  {
    map k | k in Keys(s) :: s[KeySlot(s, k)].value
  }

  /** The pairs `m` holds after the entry in slot `y` is gone. */
  function Erase<K, V>(m: map<K, V>, y: Slot<K, V>): map<K, V> {
    if y.Occupied? then m - {y.key} else m
  }

  /** The pairs `m` holds once `x`, if it is an entry, is added. */
  function Put<K, V>(m: map<K, V>, x: Slot<K, V>): map<K, V> {
    if x.Occupied? then m[x.key := x.value] else m
  }

  /** Each occupied slot's pair is in the contents. */
  lemma ContentsAt<K, V>(s: seq<Slot<K, V>>, i: nat)
    requires UniqueKeys(s) && i < |s| && s[i].Occupied?
    ensures s[i].key in Contents(s) && Contents(s)[s[i].key] == s[i].value
  {
    assert HasKey(s, s[i].key);
  }

  /** Rewriting slot `i` with `x`, when no other slot holds x's key, keeps
      keys unique and replaces the pair of the old occupant by x's. */
  lemma ContentsWrite<K, V>(s: seq<Slot<K, V>>, i: nat, x: Slot<K, V>)
    requires UniqueKeys(s) && i < |s|
    requires x.Occupied? ==> forall j | 0 <= j < |s| && j != i && s[j].Occupied? :: s[j].key != x.key
    ensures UniqueKeys(s[i := x])
    ensures Contents(s[i := x]) == Put(Erase(Contents(s), s[i]), x)
  {
    WriteKeepsPairs(s, i, x);
    WriteAddsNothing(s, i, x);
  }

  /** The first half of ContentsWrite: every pair that should remain, or
      be added, is in the rewritten table. */
  lemma WriteKeepsPairs<K, V>(s: seq<Slot<K, V>>, i: nat, x: Slot<K, V>)
    requires UniqueKeys(s) && i < |s|
    requires x.Occupied? ==> forall j | 0 <= j < |s| && j != i && s[j].Occupied? :: s[j].key != x.key
    ensures UniqueKeys(s[i := x])
    ensures forall k | k in Put(Erase(Contents(s), s[i]), x) ::
              k in Contents(s[i := x]) && Contents(s[i := x])[k] == Put(Erase(Contents(s), s[i]), x)[k]
  {
    var t := s[i := x];
    var m := Put(Erase(Contents(s), s[i]), x);
    forall k | k in m
      ensures k in Contents(t) && Contents(t)[k] == m[k]
    {
      if x.Occupied? && k == x.key {
        ContentsAt(t, i);
      } else {
        var j := KeySlot(s, k);
        assert j != i;
        ContentsAt(t, j);
        ContentsAt(s, j);
      }
    }
  }

  /** The second half of ContentsWrite: the rewritten table holds no other
      key. */
  lemma WriteAddsNothing<K, V>(s: seq<Slot<K, V>>, i: nat, x: Slot<K, V>)
    requires UniqueKeys(s) && i < |s|
    ensures Contents(s[i := x]).Keys <= Put(Erase(Contents(s), s[i]), x).Keys
  {
    var t := s[i := x];
    var m := Put(Erase(Contents(s), s[i]), x);
    forall k | k in Contents(t)
      ensures k in m
    {
      var j := KeySlot(t, k);
      if j != i {
        assert s[j] == t[j];
        assert HasKey(s, k);
        assert !(s[i].Occupied? && s[i].key == k);
      }
    }
  }

  /** Swapping a carried entry with the occupant of slot `i`, when the
      carried key is absent: keys stay unique, the evicted occupant's key is
      then absent, and table plus carried entry describe the same pairs. */
  lemma ContentsSwap<K, V>(s: seq<Slot<K, V>>, i: nat, x: Slot<K, V>)
    requires UniqueKeys(s) && i < |s| && s[i].Occupied? && x.Occupied? && !HasKey(s, x.key)
    ensures UniqueKeys(s[i := x]) && !HasKey(s[i := x], s[i].key)
    ensures Put(Contents(s[i := x]), s[i]) == Put(Contents(s), x)
  {
    var t := s[i := x];
    ContentsWrite(s, i, x);
    ContentsAt(s, i);
    forall j | 0 <= j < |t| && t[j].Occupied?
      ensures t[j].key != s[i].key
    {
      if j != i {
        assert t[j] == s[j];
      }
    }
  }

  /** A prefix of a table with unique keys has unique keys. */
  lemma UniqueKeysPrefix<K, V>(s: seq<Slot<K, V>>, j: nat)
    requires UniqueKeys(s) && j <= |s|
    ensures UniqueKeys(s[..j])
  {
    assert forall i | 0 <= i < j :: s[..j][i] == s[i];
  }

  /** The key of an occupied slot is not held anywhere before it. */
  lemma PrefixLacksKey<K, V>(s: seq<Slot<K, V>>, j: nat)
    requires UniqueKeys(s) && j < |s| && s[j].Occupied?
    ensures !HasKey(s[..j], s[j].key)
  {
    forall i | 0 <= i < j && s[..j][i].Occupied?
      ensures s[..j][i].key != s[j].key
    {
      assert s[..j][i] == s[i];
    }
  }

  /** Extending a prefix of a table with unique keys by one slot adds that
      slot's pair, under a key the prefix does not hold. */
  lemma ContentsPrefix<K, V>(s: seq<Slot<K, V>>, j: nat)
    requires UniqueKeys(s) && j < |s|
    ensures s[j].Occupied? ==> s[j].key !in Contents(s[..j])
    ensures Contents(s[..j + 1]) == Put(Contents(s[..j]), s[j])
  {
    var p, q := s[..j], s[..j + 1];
    UniqueKeysPrefix(s, j);
    UniqueKeysPrefix(s, j + 1);
    if s[j].Occupied? {
      PrefixLacksKey(s, j);
    }
    var m := Put(Contents(p), s[j]);
    forall k | k in m
      ensures k in Contents(q) && Contents(q)[k] == m[k]
    {
      if s[j].Occupied? && k == s[j].key {
        assert q[j] == s[j];
        ContentsAt(q, j);
      } else {
        var i := KeySlot(p, k);
        assert q[i] == p[i];
        ContentsAt(p, i);
        ContentsAt(q, i);
      }
    }
    forall k | k in Contents(q)
      ensures k in m
    {
      var i := KeySlot(q, k);
      if i < j {
        assert q[i] == p[i];
        assert HasKey(p, k);
      } else {
        assert q[i] == s[j];
      }
    }
  }

  /** With unique keys, the map holds one pair per occupied slot. */
  lemma ContentsCount<K, V>(s: seq<Slot<K, V>>)
    ensures UniqueKeys(s) ==> |Contents(s)| == Occupancy(s)
  {
    if UniqueKeys(s) {
      ContentsSize(s, |s|);
      assert s[..|s|] == s;
    }
  }

  lemma {:induction false} ContentsSize<K, V>(s: seq<Slot<K, V>>, j: nat)
    requires UniqueKeys(s) && j <= |s|
    ensures |Contents(s[..j])| == Occupancy(s[..j])
    decreases j
  {
    if j > 0 {
      ContentsSize(s, j - 1);
      ContentsPrefix(s, j - 1);
      UniqueKeysPrefix(s, j - 1);
      OccupancyPrefix(s, j - 1);
    } else {
      assert Keys(s[..0]) == {};
    }
  }

  /** A table of free slots maps nothing. */
  lemma AllFreeContents<K, V>(s: seq<Slot<K, V>>)
    requires forall i | 0 <= i < |s| :: s[i].Free?
    ensures UniqueKeys(s) && Contents(s) == map[]
  {
    assert Keys(s) == {};
  }

  /** A key is present in the table exactly when it is in the contents. */
  lemma KeyPresence<K, V>(s: seq<Slot<K, V>>, key: K)
    ensures HasKey(s, key) <==> key in Contents(s)
  {
    if HasKey(s, key) {
      var i := KeySlot(s, key);
      assert s[i].key in Keys(s);
    }
  }

  // ---------------------------------------------------------------------
  // The robin-hood ordering

  /** The slot before `i` in probing order. */
  function Prev(i: nat, n: nat): (r: nat)
    requires i < n
    ensures r < n && Next(r, n) == i
  {
    if i == 0 then n - 1 else i - 1
  }

  /** The probe distance of the entry (live or tombstoned) in slot `i`. */
  function SlotDistance<K, V>(s: seq<Slot<K, V>>, i: nat): (r: nat)
    requires i < |s| && !s[i].Free?
    ensures r < |s|
  {
    ProbeDistance(s[i].hash, i, |s|)
  }

  /** The robin-hood ordering of probe runs, stated between neighbours: an
      entry away from its ideal slot follows a non-free slot whose entry is
      displaced by at most one step less. */
  ghost predicate RobinHood<K, V>(s: seq<Slot<K, V>>) {
    forall i | 0 <= i < |s| :: OrderedAt(s, i)
  }

  /** The robin-hood condition between slot `i` and its predecessor. */
  ghost predicate OrderedAt<K, V>(s: seq<Slot<K, V>>, i: nat)
    requires i < |s|
  {
    !s[i].Free? && SlotDistance(s, i) > 0 ==>
      !s[Prev(i, |s|)].Free? && SlotDistance(s, Prev(i, |s|)) + 1 >= SlotDistance(s, i)
  }

  /** Following the ordering back from a non-free slot: every slot between
      the entry's ideal slot and the entry itself is non-free, and the one
      `m` steps back is displaced by at least `m` less. */
  lemma {:induction false} RobinHoodChain<K, V>(s: seq<Slot<K, V>>, t: nat, m: nat)
    requires RobinHood(s) && t < |s| && !s[t].Free? && m <= SlotDistance(s, t)
    ensures !s[Back(t, m, |s|)].Free?
    ensures SlotDistance(s, Back(t, m, |s|)) + m >= SlotDistance(s, t)
    decreases m
  {
    if m > 0 {
      RobinHoodChain(s, t, m - 1);
      var q := Back(t, m - 1, |s|);
      assert OrderedAt(s, q);
      assert Prev(q, |s|) == Back(t, m, |s|);
    }
  }

  /** Writing an entry into slot `p` keeps the ordering when it is displaced
      at least as far as what it replaces (or lands on a free slot) and its
      predecessor is displaced far enough. */
  lemma RobinHoodPlace<K, V>(s: seq<Slot<K, V>>, p: nat, x: Slot<K, V>)
    requires RobinHood(s) && p < |s| && !x.Free?
    requires s[p].Free? || ProbeDistance(x.hash, p, |s|) >= SlotDistance(s, p)
    requires ProbeDistance(x.hash, p, |s|) > 0 ==>
               !s[Prev(p, |s|)].Free? && SlotDistance(s, Prev(p, |s|)) + 1 >= ProbeDistance(x.hash, p, |s|)
    ensures RobinHood(s[p := x])
  {
    var n := |s|;
    var t := s[p := x];
    forall i | 0 <= i < n && !t[i].Free? && SlotDistance(t, i) > 0
      ensures !t[Prev(i, n)].Free? && SlotDistance(t, Prev(i, n)) + 1 >= SlotDistance(t, i)
    {
      assert OrderedAt(s, i);
      if i == p {
        assert Prev(p, n) != p;
      } else if Prev(i, n) == p {
        assert !s[p].Free?;
      }
      assert OrderedAt(t, i);
    }
  }

  /** Rewriting a non-free slot with an entry of the same hash (a value
      update, or a removal leaving a tombstone) keeps the ordering. */
  lemma RobinHoodSameHash<K, V>(s: seq<Slot<K, V>>, p: nat, x: Slot<K, V>)
    requires RobinHood(s) && p < |s| && !s[p].Free? && !x.Free? && x.hash == s[p].hash
    ensures RobinHood(s[p := x])
  {
    assert OrderedAt(s, p);
    RobinHoodPlace(s, p, x);
  }

  /** A table of free slots is trivially ordered: nothing is displaced. */
  lemma AllFreeOrdered<K, V>(s: seq<Slot<K, V>>, keyHash: K -> Hash)
    requires forall i | 0 <= i < |s| :: s[i].Free?
    ensures TombstoneFree(s) && RobinHood(s) && HashesAgree(s, keyHash)
  {
    forall i | 0 <= i < |s|
      ensures OrderedAt(s, i)
    {
    }
  }

  /** Overwriting the value in an occupied slot (the found branch of `set`)
      keeps the count, the hashes, the ordering and unique keys, and maps the
      slot's key to the new value. */
  lemma ValueUpdate<K, V>(s: seq<Slot<K, V>>, i: nat, v: V, keyHash: K -> Hash)
    requires i < |s| && s[i].Occupied?
    ensures Occupancy(s[i := s[i].(value := v)]) == Occupancy(s)
    ensures HashesAgree(s, keyHash) ==> HashesAgree(s[i := s[i].(value := v)], keyHash)
    ensures TombstoneFree(s) ==> TombstoneFree(s[i := s[i].(value := v)])
    ensures RobinHood(s) ==> RobinHood(s[i := s[i].(value := v)])
    ensures UniqueKeys(s) ==>
              UniqueKeys(s[i := s[i].(value := v)]) && Contents(s[i := s[i].(value := v)]) == Contents(s)[s[i].key := v]
  {
    var x := s[i].(value := v);
    OccupancyUpdate(s, i, x);
    if RobinHood(s) {
      RobinHoodSameHash(s, i, x);
    }
    if UniqueKeys(s) {
      ContentsWrite(s, i, x);
    }
  }

  /** Turning the entry in slot `i` into a tombstone with the same hash (the
      effect of `remove`) drops one entry and its key, and keeps the hashes,
      the ordering and unique keys. */
  lemma Bury<K, V>(s: seq<Slot<K, V>>, i: nat, keyHash: K -> Hash)
    requires i < |s| && s[i].Occupied?
    ensures Occupancy(s[i := Tombstone(s[i].hash)]) + 1 == Occupancy(s)
    ensures HashesAgree(s, keyHash) ==> HashesAgree(s[i := Tombstone(s[i].hash)], keyHash)
    ensures RobinHood(s) ==> RobinHood(s[i := Tombstone(s[i].hash)])
    ensures UniqueKeys(s) ==>
              UniqueKeys(s[i := Tombstone(s[i].hash)]) && Contents(s[i := Tombstone(s[i].hash)]) == Contents(s) - {s[i].key}
  {
    var x: Slot<K, V> := Tombstone(s[i].hash);
    OccupancyUpdate(s, i, x);
    if RobinHood(s) {
      RobinHoodSameHash(s, i, x);
    }
    if UniqueKeys(s) {
      ContentsWrite(s, i, x);
    }
  }

  // ---------------------------------------------------------------------
  // Lookup

  /** The probe loop of `find`, from slot `i` at distance `dist`: stop at a
      free slot, stop once `dist` exceeds the occupant's probe distance, and
      return a live slot whose hash and key both match. */
  function Probe<K(==), V>(s: seq<Slot<K, V>>, key: K, h: Hash, i: nat, dist: nat): (r: Option<nat>)
    requires i < |s| && dist <= |s|
    ensures r.Some? ==> r.value < |s| && s[r.value].Occupied? && s[r.value].hash == h && s[r.value].key == key
    decreases |s| - dist
  {
    if s[i].Free? then None
    else if dist > ProbeDistance(s[i].hash, i, |s|) then None
    else if s[i].Occupied? && s[i].hash == h && s[i].key == key then Some(i)
    else Probe(s, key, h, Next(i, |s|), dist + 1)
  }

  /** `find`: nothing on an empty map, otherwise probe from the ideal slot. */
  function FindSlot<K(==), V>(s: seq<Slot<K, V>>, size: nat, key: K, h: Hash): (r: Option<nat>)
    requires size == 0 || |s| > 0
    ensures size == 0 ==> r == None
    ensures r.Some? ==> r.value < |s| && s[r.value].Occupied? && s[r.value].hash == h && s[r.value].key == key
  {
    if size == 0 then None else Probe(s, key, h, Home(h, |s|), 0)
  }

  /** A slot `find` returns holds a present key. */
  lemma FoundHeld<K, V>(s: seq<Slot<K, V>>, size: nat, key: K, h: Hash)
    requires size == 0 || |s| > 0
    ensures FindSlot(s, size, key, h).Some? ==> key in Contents(s)
  {
    var r := FindSlot(s, size, key, h);
    if r.Some? {
      assert s[r.value].key == key;
      KeyPresence(s, key);
    }
  }

  /** The probe loop reaches every entry whose probe run it starts on: from
      `dist` steps along the run of the entry in slot `t`, it returns a slot
      with that key. */
  lemma {:induction false} ProbeReaches<K, V>(s: seq<Slot<K, V>>, key: K, h: Hash, t: nat, dist: nat)
    requires RobinHood(s) && t < |s| && s[t].Occupied? && s[t].key == key && s[t].hash == h
    requires dist <= SlotDistance(s, t)
    ensures Probe(s, key, h, Back(t, SlotDistance(s, t) - dist, |s|), dist).Some?
    decreases SlotDistance(s, t) - dist
  {
    var n := |s|;
    var d := SlotDistance(s, t);
    var i := Back(t, d - dist, n);
    RobinHoodChain(s, t, d - dist);
    if !(s[i].Occupied? && s[i].hash == h && s[i].key == key) {
      assert dist < d;
      BackStep(t, d - dist, n);
      ProbeReaches(s, key, h, t, dist + 1);
    }
  }

  /** On a table in robin-hood order with unique keys, `find` succeeds
      exactly for the keys present, and the slot it returns holds the value
      the key maps to. */
  lemma FindSlotExact<K, V>(s: seq<Slot<K, V>>, size: nat, key: K, keyHash: K -> Hash)
    requires RobinHood(s) && UniqueKeys(s) && HashesAgree(s, keyHash)
    requires size == Occupancy(s)
    ensures FindSlot(s, size, key, keyHash(key)).Some? <==> key in Contents(s)
    ensures FindSlot(s, size, key, keyHash(key)).Some? ==>
              s[FindSlot(s, size, key, keyHash(key)).value].value == Contents(s)[key]
  {
    var r := FindSlot(s, size, key, keyHash(key));
    if r.Some? {
      ContentsAt(s, r.value);
    }
    if key in Contents(s) {
      var t := KeySlot(s, key);
      OccupancyUpdate(s, t, Free);
      ProbeReaches(s, key, keyHash(key), t, 0);
    }
  }
}
