/** Slots of the robin-hood hash map and the arithmetic of probing.

    The C++ container keeps two parallel arrays, `_index` (hash + state word)
    and `_data` (key/value pairs). Here both are folded into one tagged slot,
    so that a pair exists exactly when the slot says it is occupied. */
module HashMapSlots {

  /** A 32-bit hash value, as returned by the map's hash functor. */
  type Hash = h: int | 0 <= h < 0x1_0000_0000

  /** One slot of the table: free, tombstoned (keeps the hash it had), or
      occupied by a key/value pair together with the key's full hash. */
  datatype Slot<K, V> =
    | Free
    | Tombstone(hash: Hash)
    | Occupied(hash: Hash, key: K, value: V)

  // The state word kept in `_index[i].index` by the C++ code.
  const FREE: bv32 := 0x0000_0000
  const DELETED: bv32 := 0x8000_0000
  const OCCUPIED: bv32 := 0x0123_abcd

  /** The tombstone test on a state word: the most significant bit is set. */
  function IsDeleted(index: bv32): (r: bool)
    ensures r <==> index & DELETED == DELETED
  {
    (index >> 31) != 0
  }

  /** The state word the C++ code stores for a slot: `insert` writes
      OCCUPIED, `remove` ORs DELETED into it, `clear` and `rehash` write FREE. */
  function IndexWord<K, V>(s: Slot<K, V>): bv32 {
    match s
    case Free => FREE
    case Tombstone(_) => OCCUPIED | DELETED
    case Occupied(_, _, _) => OCCUPIED
  }

  /** The three tests the C++ code makes on a state word (`== FREE`,
      `is_deleted`, `== 0x0123abcd`) tell the three slot states apart. */
  lemma IndexWordDecodes<K, V>(s: Slot<K, V>)
    ensures (IndexWord(s) == FREE) <==> s.Free?
    ensures IsDeleted(IndexWord(s)) <==> s.Tombstone?
    ensures (IndexWord(s) == OCCUPIED) <==> s.Occupied?
    ensures (IndexWord(s) != FREE && !IsDeleted(IndexWord(s))) <==> s.Occupied?
  {
    match s
    case Free =>
    case Tombstone(_) =>
      assert (OCCUPIED | DELETED) >> 31 == 1;
    case Occupied(_, _, _) =>
      assert OCCUPIED >> 31 == 0;
  }

  /** Removal sets the tombstone bit on the occupied word, giving the
      tombstone word, and the word stays distinct from FREE. */
  lemma RemoveMarksTombstone<K, V>(h: Hash, k: K, v: V)
    ensures IndexWord(Occupied(h, k, v)) | DELETED == IndexWord<K, V>(Tombstone(h))
    ensures IsDeleted(IndexWord(Occupied(h, k, v)) | DELETED)
    ensures IndexWord(Occupied(h, k, v)) | DELETED != FREE
  {
    assert (OCCUPIED | DELETED) >> 31 == 1;
    assert OCCUPIED >> 31 == 0;
  }

  /** Powers of two; the capacity is always 0 or one of these, at least 16. */
  ghost predicate IsPow2(n: nat)
    decreases n
  {
    n == 1 || (n >= 2 && n % 2 == 0 && IsPow2(n / 2))
  }

  /** The capacities the map may have: 0 before the first growth, otherwise a
      power of two no smaller than 16. */
  ghost predicate ValidCapacity(c: nat) {
    c == 0 || (c >= 16 && IsPow2(c))
  }

  /** The capacity `grow` moves to: 16 from an unallocated table, otherwise
      twice the current capacity. */
  function GrowCapacity(c: nat): (r: nat)
    ensures ValidCapacity(c) ==> ValidCapacity(r)
    ensures r > c && (ValidCapacity(c) ==> r >= 16)
  {
    if c == 0 then 16 else c * 2
  }

  /** The load-factor test of `full`, with the single-precision product
      `capacity * 0.9f` replaced by exact integer arithmetic. */
  predicate Full(size: nat, capacity: nat) {
    10 * size >= 9 * capacity
  }

  /** The ideal slot of a hash: `hash & _mask`, which for a power-of-two
      capacity is the remainder modulo the capacity. */
  function Home(h: Hash, n: nat): (r: nat)
    requires n > 0
    ensures r < n
  {
    h % n
  }

  /** The slot after `i` in probing order, `(i + 1) & _mask`. */
  function Next(i: nat, n: nat): (r: nat)
    requires i < n
    ensures r < n
  {
    if i + 1 == n then 0 else i + 1
  }

  /** The slot `m` steps before `t` in probing order. */
  function Back(t: nat, m: nat, n: nat): (r: nat)
    requires t < n && m < n
    ensures r < n
  {
    if t >= m then t - m else t + n - m
  }

  /** How many steps forward from `p` the slot `q` lies. */
  function Ahead(p: nat, q: nat, n: nat): (r: nat)
    requires p < n && q < n
    ensures r < n
  {
    if q >= p then q - p else q + n - p
  }

  /** Stepping forward from `p` brings it one step closer to `q`. */
  lemma AheadNext(p: nat, q: nat, n: nat)
    requires p < n && q < n && p != q
    ensures Ahead(Next(p, n), q, n) + 1 == Ahead(p, q, n)
  {
  }

  /** `probe_distance`: how far slot `i` lies from the ideal slot of `h`,
      counted forward around the table. */
  function ProbeDistance(h: Hash, i: nat, n: nat): (r: nat)
    requires n > 0 && i < n
    ensures r < n
  {
    Ahead(Home(h, n), i, n)
  }

  /** Going back from slot `i` by its probe distance reaches the ideal slot,
      and the distance is zero exactly at the ideal slot. */
  lemma ProbeDistanceBack(h: Hash, i: nat, n: nat)
    requires n > 0 && i < n
    ensures ProbeDistance(h, i, n) == 0 <==> i == Home(h, n)
    ensures Back(i, ProbeDistance(h, i, n), n) == Home(h, n)
  {
  }

  lemma ModOfSmall(x: nat, n: nat)
    requires 0 < n && x < 2 * n
    ensures x % n == if x < n then x else x - n
  {
    if x >= n {
      assert x == n * 1 + (x - n);
    } else {
      assert x == n * 0 + x;
    }
  }

  /** The probing arithmetic agrees with the wrapped arithmetic of the C++
      code: the next slot is `(i + 1) mod n` and the probe distance is
      `(i + n - home) mod n`, the remainder standing for `& _mask`. */
  lemma WrappedArithmetic(h: Hash, i: nat, n: nat)
    requires n > 0 && i < n
    ensures Next(i, n) == (i + 1) % n
    ensures ProbeDistance(h, i, n) == (i + n - Home(h, n)) % n
  {
    ModOfSmall(i + 1, n);
    ModOfSmall(i + n - Home(h, n), n);
  }

  /** One step forward adds one to the probe distance, unless it wraps back
      to the ideal slot. */
  lemma ProbeDistanceNext(h: Hash, i: nat, n: nat)
    requires n > 0 && i < n && ProbeDistance(h, i, n) + 1 < n
    ensures ProbeDistance(h, Next(i, n), n) == ProbeDistance(h, i, n) + 1
  {
  }

  /** The slot `m` steps back from `t` is one step back from the slot
      `m - 1` steps back, and the slot after it is `m - 1` steps back. */
  lemma BackStep(t: nat, m: nat, n: nat)
    requires t < n && 0 < m < n
    ensures Next(Back(t, m, n), n) == Back(t, m - 1, n)
  {
  }
}
