/** The open-addressing hash table (SkTHash.h): linear probing towards lower indices, deletion by
    shifting entries back, and resizing. */
module HashTable {
  import opened Basics
  import opened Words

  /** A slot is empty when its stored hash is 0; a full slot stores its value and a non-zero hash. */
  datatype Slot<T> = Empty | Full(val: T, hash: nat)

  // ----- The ring of slots

  /** `next`: probing goes down by one and wraps to the top. */
  function Next(index: int, cap: int): int {
    if index - 1 < 0 then index - 1 + cap else index - 1
  }

  /** How many `next` steps lead from one index to another. */
  function Dist(from: int, to: int, cap: int): int {
    if to <= from then from - to else from - to + cap
  }

  /** The native slot of a hash; masking works for any capacity, a power of two or not. */
  function Home(hash: nat, cap: nat): (h: nat)
    ensures cap > 0 ==> h < cap
  {
    And(hash, Wrap32(cap - 1))
  }

  /** For a power of two the mask is the remainder: the table is indexed by the low bits of the hash. */
  lemma HomeIsRemainder(hash: nat, k: nat)
    requires k < 32
    ensures Home(hash, Pow2(k)) == hash % Pow2(k)
  {
    PowBelow32(k);
    Wrap32Small(Pow2(k) - 1);
    hide And, Wrap32, Pow2;
    LowBits(hash, k);
  }

  lemma {:induction false} PowBelow32(k: nat)
    requires k < 32
    ensures Pow2(k) < W32
    decreases 32 - k
  {
    if k == 31 {
      Pow2Values();
    } else {
      PowBelow32(k + 1);
    }
  }

  lemma {:induction false} LowBits(x: nat, k: nat)
    ensures And(x, Pow2(k) - 1) == x % Pow2(k)
  {
    hide And;
    if k == 0 {
      AndNone(x);
    } else {
      var m := Pow2(k - 1);
      LowBits(x / 2, k - 1);
      AndDouble(x / 2, x % 2, m - 1, 1);
      BitIsAnd(x % 2);
      HalfRemainder(x, m);
    }
  }

  lemma AndNone(x: nat)
    ensures And(x, 0) == 0
  {
  }

  lemma BitIsAnd(b: nat)
    requires b < 2
    ensures And(b, 1) == b
  {
    assert And(0, 0) == 0;
  }

  lemma HalfRemainder(x: nat, m: nat)
    requires m > 0
    ensures x % (2 * m) == 2 * (x / 2 % m) + x % 2
  {
    var h := x / 2;
    var q, r := h / m, h % m;
    assert h == q * m + r;
    assert x == q * (2 * m) + (2 * r + x % 2);
    DivModUnique(x, 2 * m, q, 2 * r + x % 2);
  }

  /** The condition under which `removeSlot` leaves a candidate where it is. */
  predicate StaysPut(index: int, originalIndex: int, emptyIndex: int) {
    || (index <= originalIndex && originalIndex < emptyIndex)
    || (originalIndex < emptyIndex && emptyIndex < index)
    || (emptyIndex < index && index <= originalIndex)
  }

  /** The three comparisons say that the empty slot is not on the candidate's probe path. */
  lemma StaysPutMeaning(index: int, originalIndex: int, emptyIndex: int, cap: int)
    requires 0 <= index < cap && 0 <= originalIndex < cap && 0 <= emptyIndex < cap && index != emptyIndex
    ensures StaysPut(index, originalIndex, emptyIndex)
       <==> Dist(originalIndex, emptyIndex, cap) >= Dist(originalIndex, index, cap)
  {
  }

  /** Every slot that an entry's probe passes before reaching it is full; the hole, if any, counts as
      neither entry nor obstacle. */
  ghost predicate Probing<T>(s: seq<Slot<T>>, hole: int) {
    forall i, j :: 0 <= i < |s| && 0 <= j < |s| && i != hole && j != hole && s[i].Full?
                   && Dist(Home(s[i].hash, |s|), j, |s|) < Dist(Home(s[i].hash, |s|), i, |s|)
                   ==> s[j].Full?
  }

  /** The entry at i can be reached without passing e. */
  predicate Avoids<T>(s: seq<Slot<T>>, i: int, e: int)
    requires 0 <= i < |s|
  {
    s[i].Full? && Dist(Home(s[i].hash, |s|), e, |s|) >= Dist(Home(s[i].hash, |s|), i, |s|)
  }

  /** The slots strictly after e, up to the given number of steps, are full and avoid e. */
  ghost predicate Scanned<T>(s: seq<Slot<T>>, e: int, steps: int) {
    forall i :: 0 <= i < |s| && 0 < Dist(e, i, |s|) <= steps ==> Avoids(s, i, e)
  }

  /** Shifting an entry back into the hole leaves a hole at its old place. */
  lemma MoveIntoHole<T>(s: seq<Slot<T>>, e: int, c: int)
    requires 0 <= e < |s| && 0 <= c < |s| && e != c && s[c].Full? && Probing(s, e) && !Avoids(s, c, e)
    ensures Probing(s[e := s[c]], c)
  {
    hide Home;
    var t := s[e := s[c]];
    forall i, j | 0 <= i < |t| && 0 <= j < |t| && i != c && j != c && t[i].Full?
                  && Dist(Home(t[i].hash, |t|), j, |t|) < Dist(Home(t[i].hash, |t|), i, |t|)
      ensures t[j].Full?
    {
      if i == e {
        assert s[j].Full? by { assert j != e; }
      } else if j != e {
        assert s[i] == t[i] && s[j] == t[j];
      }
    }
  }

  lemma HoleOffPath<T>(s: seq<Slot<T>>, e: int, y: int, i: int)
    requires 0 <= e < |s| && 0 <= y < |s| && e != y && s[y].Empty? && 0 <= i < |s| && i != e && s[i].Full?
    requires Probing(s, e) && Scanned(s, e, Dist(e, y, |s|) - 1)
    ensures Avoids(s, i, e)
  {
    hide Home;
    var h := Home(s[i].hash, |s|);
    if Dist(e, i, |s|) >= Dist(e, y, |s|) {
      assert Dist(h, y, |s|) >= Dist(h, i, |s|);
    }
  }

  /** When the scan meets an empty slot, the hole can be cleared: no entry needs it. */
  lemma ClearHole<T>(s: seq<Slot<T>>, e: int, y: int)
    requires 0 <= e < |s| && 0 <= y < |s| && e != y && s[y].Empty?
    requires Probing(s, e) && Scanned(s, e, Dist(e, y, |s|) - 1)
    ensures Probing(s[e := Empty], -1)
  {
    hide Home;
    var t := s[e := Empty];
    forall i, j | 0 <= i < |t| && 0 <= j < |t| && t[i].Full?
                  && Dist(Home(t[i].hash, |t|), j, |t|) < Dist(Home(t[i].hash, |t|), i, |t|)
      ensures t[j].Full?
    {
      assert i != e && s[i] == t[i];
      HoleOffPath(s, e, y, i);
      assert j != e && s[j] == t[j];
    }
  }

  lemma ScanStart<T>(s: seq<Slot<T>>, e: int, z: int)
    requires 0 <= e < |s| && 0 <= z < |s| && z != e
    ensures Dist(e, e, |s|) == 0 < Dist(e, z, |s|) && Scanned(s, e, 0)
  {
    hide Avoids;
  }

  /** One more `next` step stays on this side of z or reaches it. */
  lemma ScanStep<T>(s: seq<Slot<T>>, e: int, index: int, z: int)
    requires 0 <= e < |s| && 0 <= z < |s| && 0 <= index < |s| && 0 <= Dist(e, index, |s|) < Dist(e, z, |s|)
    ensures var i := Next(index, |s|);
            && 0 <= i < |s| && i != e
            && Dist(e, i, |s|) == Dist(e, index, |s|) + 1 <= Dist(e, z, |s|)
            && (Dist(e, i, |s|) == Dist(e, z, |s|) ==> i == z)
  {
  }

  /** Looking at one candidate: leave it and scan on, or it can be moved. */
  lemma ScanCandidate<T>(s: seq<Slot<T>>, e: int, c: int)
    requires 0 <= e < |s| && 0 <= c < |s| && c != e && s[c].Full?
    requires Scanned(s, e, Dist(e, c, |s|) - 1)
    ensures StaysPut(c, Home(s[c].hash, |s|), e) <==> Avoids(s, c, e)
    ensures Avoids(s, c, e) ==> Scanned(s, e, Dist(e, c, |s|))
  {
    hide Home;
    StaysPutMeaning(c, Home(s[c].hash, |s|), e, |s|);
    assert forall i :: 0 <= i < |s| && Dist(e, i, |s|) == Dist(e, c, |s|) ==> i == c;
  }

  lemma HoleAdvances(e: int, c: int, z: int, cap: int)
    requires 0 <= e < cap && 0 <= c < cap && 0 <= z < cap && c != e
    requires 0 <= Dist(e, c, cap) < Dist(e, z, cap)
    ensures 0 <= Dist(c, z, cap) < Dist(e, z, cap)
  {
  }

  lemma SubsetSize<K>(a: set<K>, b: set<K>)
    requires a <= b
    ensures |a| <= |b|
  {
    assert b == a + (b - a);
  }

  lemma OneMoreKey<K, T>(m: map<K, T>, key: K, val: T)
    ensures 0 < |m[key := val]| <= |m| + 1 && |m| <= |m[key := val]|
  {
    assert m[key := val].Keys == m.Keys + {key};
    SubsetSize(m.Keys, m.Keys + {key});
  }

  /** 4 times a power of two. */
  predicate PowerSize(cap: int)
    ensures PowerSize(cap) ==> cap >= 4 && cap % 4 == 0
  {
    cap == 4 || (cap > 4 && cap % 2 == 0 && PowerSize(cap / 2))
  }

  // ----- Loads

  /** The numbers of entries and of slots. */
  datatype Load = Load(count: int, cap: int)
  {
    /** Some slot is empty, or there is no slot and no entry yet. */
    predicate HasRoom() { 0 <= count < cap || cap == count == 0 }
  }

  /** What `set` and `remove` do to a load. */
  datatype Change = Adding(isNew: bool) | Dropping

  function Changed(load: Load, change: Change): Load {
    match change
    case Adding(isNew) =>
      Load(load.count + if isNew then 1 else 0,
           if 4 * load.count < 3 * load.cap then load.cap else if load.cap > 0 then 2 * load.cap else 4)
    case Dropping =>
      Load(load.count - 1, if 4 * (load.count - 1) <= load.cap && load.cap > 4 then load.cap / 2 else load.cap)
  }

  /** Only present keys are overwritten or removed, and removing ends only where a slot is empty. */
  predicate Possible(load: Load, changes: seq<Change>)
    decreases |changes|
  {
    |changes| > 0 ==>
      && (changes[0] == Adding(false) ==> 0 < load.count)
      && (changes[0].Dropping? ==> 0 < load.count < load.cap)
      && Possible(Changed(load, changes[0]), changes[1..])
  }

  function After(load: Load, changes: seq<Change>): Load
    decreases |changes|
  {
    if |changes| == 0 then load else After(Changed(load, changes[0]), changes[1..])
  }

  /** Capacities that halving takes to exactly four: their leading binary digits are 100. */
  predicate Safe(cap: int) { cap == 0 || cap == 4 || (cap > 4 && Safe(cap / 2)) }

  lemma {:induction false} SafeKeepsRoom(load: Load, changes: seq<Change>)
    requires load.HasRoom() && Safe(load.cap) && Possible(load, changes)
    ensures After(load, changes).HasRoom()
    decreases |changes|
  {
    if |changes| > 0 {
      var next := Changed(load, changes[0]);
      assert load.cap > 0 ==> Safe(2 * load.cap);
      SafeKeepsRoom(next, changes[1..]);
    }
  }

  /** From any other capacity removing and adding in turn leads to a small table that one more entry fills. */
  lemma {:induction false} UnsafeFillsUp(load: Load) returns (changes: seq<Change>)
    requires load.HasRoom() && !Safe(load.cap)
    ensures Possible(load, changes) && !After(load, changes).HasRoom()
    decreases load.cap, if load.cap < 4 then load.cap - load.count else load.count
  {
    var c := if load.cap < 4 || load.count == 0 then Adding(true) else Dropping;
    var next := Changed(load, c);
    var rest := [];
    if load.cap > 4 && load.count == 0 {
      rest := UnsafeFillsUp(Changed(next, Dropping));
      rest := [Dropping] + rest;
    } else if next.HasRoom() {
      rest := UnsafeFillsUp(next);
    }
    changes := [c] + rest;
    assert changes[1..] == rest;
  }

  /** A table that still has room keeps room whatever is added and removed, if and only if its capacity is
      safe. */
  lemma RoomForEverIff(load: Load)
    requires load.HasRoom()
    ensures (forall changes :: Possible(load, changes) ==> After(load, changes).HasRoom()) <==> Safe(load.cap)
  {
    if Safe(load.cap) {
      forall changes | Possible(load, changes)
        ensures After(load, changes).HasRoom()
      {
        SafeKeepsRoom(load, changes);
      }
    } else {
      var changes := UnsafeFillsUp(load);
    }
  }

  /** The capacity of a list's table is never three quarters full before its last pair. */
  lemma ListNeverGrows(n: nat, count: int, i: int)
    requires 0 <= count <= i < n
    ensures Changed(Load(count, n * 5 / 3), Adding(true)) == Load(count + 1, n * 5 / 3)
    ensures Changed(Load(count, n * 5 / 3), Adding(false)) == Load(count, n * 5 / 3)
  {
  }

  /** A table made from a list of three pairs, two of them removed and one added: full. */
  lemma ThreePairsFillUp()
    ensures var start, changes := Load(3, 3 * 5 / 3), [Dropping, Dropping, Adding(true)];
            start.HasRoom() && Possible(start, changes) && After(start, changes) == Load(2, 2)
  {
    var changes := [Dropping, Dropping, Adding(true)];
    assert changes[1..] == [Dropping, Adding(true)] && changes[1..][1..] == [Adding(true)];
    assert Changed(Changed(Load(3, 5), Dropping), Dropping) == Load(1, 2);
  }

  /** Between a quarter and three quarters full; a table of four may be emptier. */
  predicate BalancedLoad(count: int, cap: int) {
    cap == count == 0 || (PowerSize(cap) && 4 * count <= 3 * cap && (cap == 4 || 4 * count > cap))
  }

  /** `set` keeps the load balanced: it grows where one more entry could be too many. */
  lemma GrowthKeepsLoad(count: int, count': int, cap: int)
    requires 0 <= count <= cap && BalancedLoad(count, cap) && count <= count' <= count + 1 && count' > 0
    ensures var cap' := Changed(Load(count, cap), Adding(true)).cap;
            BalancedLoad(count', cap') && count' < cap'
  {
  }

  /** `remove` keeps the load balanced: it shrinks where it falls to a quarter. */
  lemma ShrinkKeepsLoad(count: int, cap: int)
    requires 0 < count && BalancedLoad(count, cap)
    ensures BalancedLoad(count - 1, Changed(Load(count, cap), Dropping).cap)
  {
  }

  // ----- The table

  class SkTHashTable<T, K(==, !new)> {
    // The traits: the key of a value, and the hash of a key before it is made non-zero.
    const getKey: T -> K
    const rawHash: K -> nat

    var fCount: int
    var fCapacity: int
    var fSlots: array<Slot<T>>
    ghost var where: map<K, int>  // the slot of every key in the table

    constructor (getKey: T -> K, rawHash: K -> nat)
      ensures Valid() && Contents() == map[] && fCapacity == 0 && Balanced()
      ensures this.getKey == getKey && this.rawHash == rawHash && fresh(fSlots)
    {
      this.getKey, this.rawHash := getKey, rawHash;
      fCount, fCapacity := 0, 0;
      fSlots := new Slot<T>[0];
      where := map[];
    }

    /** `Hash`: 32 bits, with 0 reserved for empty slots. */
    function Hash(key: K): (h: nat)
      ensures 0 < h < W32
    {
      var h := Wrap32(rawHash(key));
      if h == 0 then 1 else h
    }

    /** The 32 bits of the key's own hash are kept, except that 0 becomes 1: only there can two different
        hashes collide. */
    lemma HashIsFaithful(a: K, b: K)
      ensures Wrap32(rawHash(a)) != 0 ==> Hash(a) == rawHash(a) % W32
      ensures Hash(a) == Hash(b) <==> rawHash(a) % W32 == rawHash(b) % W32
                                      || {rawHash(a) % W32, rawHash(b) % W32} == {0, 1}
    {
      var p, q := rawHash(a) % W32, rawHash(b) % W32;
      assert p in {p, q} && q in {p, q};
      if Hash(a) == Hash(b) && p != q {
        assert (p == 0 && q == 1) || (p == 1 && q == 0);
      }
    }

    /** Full slots other than the hole, and the keys of the table, are in one-to-one correspondence. */
    ghost predicate Indexed(s: seq<Slot<T>>, at: map<K, int>, hole: int) {
      && (forall k :: k in at ==> 0 <= at[k] < |s| && at[k] != hole && s[at[k]].Full? && getKey(s[at[k]].val) == k)
      && (forall i :: 0 <= i < |s| && i != hole && s[i].Full?
            ==> getKey(s[i].val) in at && at[getKey(s[i].val)] == i && s[i].hash == Hash(getKey(s[i].val)))
    }

    ghost predicate Valid()
      reads this, fSlots
    {
      && fCapacity == fSlots.Length
      && 0 <= fCount == |where| <= fCapacity
      && Indexed(fSlots[..], where, -1)
      && Probing(fSlots[..], -1)
    }

    /** The values in the slots, by key. */
    ghost function Lookup(s: seq<Slot<T>>, at: map<K, int>, hole: int): (m: map<K, T>)
      requires Indexed(s, at, hole)
      ensures m.Keys == at.Keys && |m| == |at|
    {
      var m := map k | k in at :: s[at[k]].val;
      assert m.Keys == at.Keys;
      m
    }

    /** The table as a map from keys to values. */
    ghost function Contents(): (m: map<K, T>)
      requires Valid()
      reads this, fSlots
      ensures |m| == fCount
    {
      Lookup(fSlots[..], where, -1)
    }

    function Filled(): Load
      reads this
    {
      Load(fCount, fCapacity)
    }

    /** The load that `set` and `remove` maintain by themselves. */
    ghost predicate Balanced()
      reads this
    {
      BalancedLoad(fCount, fCapacity)
    }

    /** The keys of the first n slots of a table without empty slots. */
    lemma FirstKeys(s: seq<Slot<T>>, at: map<K, int>, n: nat) returns (ks: set<K>)
      requires Indexed(s, at, -1) && n <= |s| && forall i :: 0 <= i < n ==> s[i].Full?
      ensures ks <= at.Keys && |ks| == n && forall k :: k in ks ==> at[k] < n
    {
      if n == 0 {
        ks := {};
      } else {
        ks := FirstKeys(s, at, n - 1);
        ks := ks + {getKey(s[n - 1].val)};
      }
    }

    /** A table with fewer keys than slots has an empty slot. */
    lemma FreeSlot(s: seq<Slot<T>>, at: map<K, int>) returns (z: int)
      requires Indexed(s, at, -1) && |at| < |s|
      ensures 0 <= z < |s| && s[z].Empty?
    {
      if forall i :: 0 <= i < |s| ==> s[i].Full? {
        var ks := FirstKeys(s, at, |s|);
        SubsetSize(ks, at.Keys);
        assert false;
      }
      z :| 0 <= z < |s| && s[z].Empty?;
    }

    /** The keys of the first n slots: one slot of them empty leaves at most n - 1. */
    lemma KeysOfSlots(s: seq<Slot<T>>, at: map<K, int>, z: int, n: nat) returns (ks: set<K>)
      requires Indexed(s, at, -1) && 0 <= z < |s| && s[z].Empty? && n <= |s|
      ensures |ks| <= if z < n then n - 1 else n
      ensures forall k :: k in at && at[k] < n ==> k in ks
    {
      hide Hash;
      if n == 0 {
        ks := {};
      } else {
        ks := KeysOfSlots(s, at, z, n - 1);
        if s[n - 1].Full? {
          ks := ks + {getKey(s[n - 1].val)};
        }
      }
    }

    /** A table is full exactly when it has no empty slot. */
    lemma EmptySlotIff()
      requires Valid()
      ensures fCount < fCapacity <==> exists z :: 0 <= z < fCapacity && fSlots[z].Empty?
    {
      var s := fSlots[..];
      if fCount < fCapacity {
        var z := FreeSlot(s, where);
        assert fSlots[z].Empty?;
      } else if z :| 0 <= z < fCapacity && fSlots[z].Empty? {
        var ks := KeysOfSlots(s, where, z, |s|);
        assert where.Keys <= ks;
        SubsetSize(where.Keys, ks);
        assert false;
      }
    }

    /** The first n slots probed for a key are full and hold other keys. */
    ghost predicate Missed(s: seq<Slot<T>>, key: K, n: int) {
      forall j :: 0 <= j < |s| && Dist(Home(Hash(key), |s|), j, |s|) < n
                  ==> s[j].Full? && getKey(s[j].val) != key
    }

    lemma MissedNone(s: seq<Slot<T>>, key: K)
      ensures Missed(s, key, 0)
      ensures var h := Home(Hash(key), |s|); Dist(h, h, |s|) == 0
    {
      hide Home;
    }

    /** Stepping past a full slot with another key. */
    lemma MissedOneMore(s: seq<Slot<T>>, at: map<K, int>, key: K, index: int, n: int)
      requires Indexed(s, at, -1) && 0 <= index < |s| && Missed(s, key, n)
      requires Dist(Home(Hash(key), |s|), index, |s|) == n
      requires s[index].Full? && !(Hash(key) == s[index].hash && key == getKey(s[index].val))
      ensures Missed(s, key, n + 1)
      ensures n + 1 < |s| ==> Dist(Home(Hash(key), |s|), Next(index, |s|), |s|) == n + 1
    {
      hide Home, Hash;
    }

    /** The way to a key that is in the table has no empty slot. */
    lemma PathToKey(s: seq<Slot<T>>, at: map<K, int>, key: K, index: int)
      requires Indexed(s, at, -1) && Probing(s, -1) && key in at && 0 <= index < |s|
      ensures Dist(Home(Hash(key), |s|), index, |s|) <= Dist(Home(Hash(key), |s|), at[key], |s|) ==> s[index].Full?
    {
      hide Home;
      var i := at[key];
      assert s[i].hash == Hash(key);
    }

    /** An empty slot ends the search: the key is not in the table. */
    lemma EmptyMeansAbsent(s: seq<Slot<T>>, at: map<K, int>, key: K, index: int)
      requires Indexed(s, at, -1) && Probing(s, -1) && 0 <= index < |s| && s[index].Empty?
      requires Missed(s, key, Dist(Home(Hash(key), |s|), index, |s|))
      ensures key !in at
    {
      hide Home;
      if key in at {
        PathToKey(s, at, key, index);
        assert false;
      }
    }

    /** A search passes every slot without an answer exactly when the table is full and lacks the key. */
    lemma SearchFailsIff(key: K)
      requires Valid()
      ensures Missed(fSlots[..], key, fCapacity) <==> fCount == fCapacity && key !in Contents()
    {
      hide Home, Hash, Probing;
      var s := fSlots[..];
      NotAllMissed(s, where, key);
      EmptySlotIff();
      if fCount == fCapacity && key !in where {
        assert forall j :: 0 <= j < |s| ==> s[j].Full?;
      }
    }

    /** `find`: the slot of the entry with this key, or none.  The source closes with an assertion that
        fCapacity is 0; it fails exactly when every slot of a table is full and the key is absent. */
    method Find(key: K) returns (slot: Option<int>, ghost asserts: bool)
      requires Valid()
      ensures slot.Some? <==> key in Contents()
      ensures slot.Some? ==> 0 <= slot.value < fSlots.Length && fSlots[slot.value].Full?
                             && fSlots[slot.value].val == Contents()[key]
      ensures asserts <==> fCapacity == 0 || key in Contents() || exists z :: 0 <= z < fCapacity && fSlots[z].Empty?
    {
      hide Home, Hash, Dist, Missed, Probing;
      var hash := Hash(key);
      var index := Home(hash, fCapacity);
      var n := 0;
      MissedNone(fSlots[..], key);
      while n < fCapacity
        invariant 0 <= n <= fCapacity
        invariant n < fCapacity ==> 0 <= index < fCapacity && Dist(Home(hash, fCapacity), index, fCapacity) == n
        invariant Missed(fSlots[..], key, n)
      {
        if fSlots[index].Empty? {
          EmptyMeansAbsent(fSlots[..], where, key, index);
          return None, true;
        }
        if hash == fSlots[index].hash && key == getKey(fSlots[index].val) {
          return Some(index), true;
        }
        MissedOneMore(fSlots[..], where, key, index, n);
        index := Next(index, fCapacity);
        n := n + 1;
      }
      SearchFailsIff(key);
      EmptySlotIff();
      return None, fCapacity == 0;
    }

    /** `uncheckedSet`: overwrites the entry with this key or fills the first empty slot on its path. */
    method UncheckedSet(val: T) returns (slot: int)
      requires Valid() && (fCount < fCapacity || getKey(val) in Contents())
      modifies this, fSlots
      ensures Valid() && fSlots == old(fSlots) && fCapacity == old(fCapacity)
      ensures Contents() == old(Contents())[getKey(val) := val]
      ensures 0 <= slot < fSlots.Length && fSlots[slot].Full? && fSlots[slot].val == val
    {
      hide Home, Hash, Dist, Missed, Probing, Indexed, Lookup;
      var key := getKey(val);
      var hash := Hash(key);
      var index := Home(hash, fCapacity);
      var n := 0;
      ghost var s := fSlots[..];
      MissedNone(s, key);
      while n < fCapacity
        invariant fSlots == old(fSlots) && fCapacity == old(fCapacity) && fCount == old(fCount) && where == old(where)
        invariant 0 <= n <= fCapacity && fSlots[..] == s
        invariant n < fCapacity ==> 0 <= index < fCapacity && Dist(Home(hash, fCapacity), index, fCapacity) == n
        invariant Missed(s, key, n)
      {
        if fSlots[index].Empty? {
          EmptyMeansAbsent(s, where, key, index);
          FillProbing(s, key, index, val);
          FillIndexed(s, where, index, val);
          fSlots[index] := Full(val, hash);
          where := where[key := index];
          fCount := fCount + 1;
          assert fSlots[..] == s[index := Full(val, hash)];
          return index;
        }
        if hash == fSlots[index].hash && key == getKey(fSlots[index].val) {
          OverwriteSlot(s, where, index, val);
          fSlots[index] := Full(val, hash);
          assert fSlots[..] == s[index := Full(val, hash)];
          return index;
        }
        MissedOneMore(s, where, key, index, n);
        index := Next(index, fCapacity);
        n := n + 1;
      }
      NotAllMissed(s, where, key);
      assert false;
      return 0;
    }

    /** The inner loop of `removeSlot`: steps on from the hole to an empty slot, or to the first entry that
        can be moved into the hole. */
    method NextMovable(emptyIndex: int, ghost z: int, ghost start: Shift<T>) returns (index: int)
      requires fCapacity == fSlots.Length && 0 <= emptyIndex < fCapacity && fSlots[emptyIndex].Full?
      requires start.Ok() && Reaches(start, Shift(fSlots[..], emptyIndex, emptyIndex))
      requires 0 <= z < fCapacity && z != emptyIndex && fSlots[z].Empty?
      ensures 0 <= index < fCapacity && index != emptyIndex
      ensures Scanned(fSlots[..], emptyIndex, Dist(emptyIndex, index, fCapacity) - 1)
      ensures fSlots[index].Full? ==> !Avoids(fSlots[..], index, emptyIndex)
                                      && 0 <= Dist(emptyIndex, index, fCapacity) < Dist(emptyIndex, z, fCapacity)
      ensures if fSlots[index].Empty? then EndsWith(start, fSlots[..], emptyIndex)
              else Reaches(start, Shift(fSlots[..][emptyIndex := fSlots[index]], index, index))
    {
      hide Next, Home, Hash, Dist, Scanned, Avoids, StaysPut, Reaches, EndsWith;
      ghost var s := fSlots[..];
      index := emptyIndex;
      ScanStart(s, emptyIndex, z);
      var leave := true;
      while leave
        invariant 0 <= index < |s|
        invariant 0 <= Dist(emptyIndex, index, |s|) < Dist(emptyIndex, z, |s|)
        invariant leave ==> Scanned(s, emptyIndex, Dist(emptyIndex, index, |s|))
        invariant !leave ==> index != emptyIndex && s[index].Full? && !Avoids(s, index, emptyIndex)
                             && Scanned(s, emptyIndex, Dist(emptyIndex, index, |s|) - 1)
        invariant leave ==> Reaches(start, Shift(s, emptyIndex, index))
        invariant !leave ==> Reaches(start, Shift(s[emptyIndex := s[index]], index, index))
        decreases leave, Dist(emptyIndex, z, |s|) - Dist(emptyIndex, index, |s|)
      {
        ScanStep(s, emptyIndex, index, z);
        ReachesNext(start, s, emptyIndex, index);
        index := Next(index, fCapacity);
        if fSlots[index].Empty? {
          return;
        }
        var originalIndex := Home(fSlots[index].hash, fCapacity);
        leave := StaysPut(index, originalIndex, emptyIndex);
        ScanCandidate(s, emptyIndex, index);
      }
    }

    /** `removeSlot`: takes the entry out and shifts later entries back until the hole can be left
        empty.  It needs an empty slot somewhere, or its loop would not end. */
    method RemoveSlot(slot: int)
      requires Valid() && fCount < fCapacity && 0 <= slot < fCapacity && fSlots[slot].Full?
      modifies this, fSlots
      ensures Valid() && fSlots == old(fSlots) && fCapacity == old(fCapacity)
      ensures Contents() == old(Contents()) - {getKey(old(fSlots[slot].val))}
      ensures fCount == old(fCount) - 1
      ensures exists s, hole :: EndsWith(Shift(old(fSlots[..]), slot, slot), s, hole) && 0 <= hole < |s|
                                && fSlots[..] == s[hole := Empty]
    {
      hide Home, Hash, Dist, Probing, Indexed, Lookup, Scanned, Avoids, Reaches, EndsWith;
      ghost var s, m := fSlots[..], Contents() - {getKey(fSlots[slot].val)};
      ghost var start := Shift(s, slot, slot);
      ReachesItself(start);
      ghost var z := FreeSlot(s, where);
      OpenHole(s, where, slot);
      where := where - {getKey(fSlots[slot].val)};
      fCount := fCount - 1;
      var emptyIndex := slot;
      while true
        invariant fSlots == old(fSlots) && fCapacity == old(fCapacity) && fCapacity == |s| && fSlots[..] == s
        invariant 0 <= emptyIndex < |s| && 0 <= z < |s| && s[z].Empty? && s[emptyIndex].Full?
        invariant Probing(s, emptyIndex) && Indexed(s, where, emptyIndex)
        invariant Lookup(s, where, emptyIndex) == m && fCount == |where|
        invariant Reaches(start, Shift(s, emptyIndex, emptyIndex))
        decreases Dist(emptyIndex, z, |s|)
      {
        var index := NextMovable(emptyIndex, z, start);
        if fSlots[index].Empty? {
          ClearHole(s, emptyIndex, index);
          CloseIndexed(s, where, emptyIndex);
          fSlots[emptyIndex] := Empty;
          assert fSlots[..] == s[emptyIndex := Empty];
          return;
        }
        MoveIntoHole(s, emptyIndex, index);
        MoveIndexed(s, where, emptyIndex, index);
        HoleAdvances(emptyIndex, index, z, |s|);
        where := where[getKey(fSlots[index].val) := emptyIndex];
        fSlots[emptyIndex] := fSlots[index];
        s := s[emptyIndex := s[index]];
        assert fSlots[..] == s;
        emptyIndex := index;
      }
    }

    /** Treating an entry's slot as a hole removes its key. */
    lemma OpenHole(s: seq<Slot<T>>, at: map<K, int>, e: int)
      requires Indexed(s, at, -1) && Probing(s, -1) && 0 <= e < |s| && s[e].Full?
      ensures var at' := at - {getKey(s[e].val)};
              && Indexed(s, at', e) && Probing(s, e) && |at'| == |at| - 1
              && Lookup(s, at', e) == Lookup(s, at, -1) - {getKey(s[e].val)}
    {
      hide Home, Hash, Lookup, Probing;
      var k := getKey(s[e].val);
      var at' := at - {k};
      assert at'.Keys == at.Keys - {k};
      assert Indexed(s, at', e);
      OpenProbing(s, e);
      OpenLookup(s, at, at', e);
    }

    lemma OpenProbing(s: seq<Slot<T>>, e: int)
      requires Probing(s, -1)
      ensures Probing(s, e)
    {
      hide Home, Dist;
    }

    lemma OpenLookup(s: seq<Slot<T>>, at: map<K, int>, at': map<K, int>, e: int)
      requires Indexed(s, at, -1) && 0 <= e < |s| && s[e].Full?
      requires at' == at - {getKey(s[e].val)} && Indexed(s, at', e)
      ensures Lookup(s, at', e) == Lookup(s, at, -1) - {getKey(s[e].val)}
    {
      hide Hash;
    }

    lemma CloseIndexed(s: seq<Slot<T>>, at: map<K, int>, e: int)
      requires Indexed(s, at, e) && 0 <= e < |s|
      ensures var t := s[e := Empty];
              Indexed(t, at, -1) && Lookup(t, at, -1) == Lookup(s, at, e)
    {
      hide Hash;
    }

    lemma MoveIndexed(s: seq<Slot<T>>, at: map<K, int>, e: int, c: int)
      requires Indexed(s, at, e) && 0 <= e < |s| && 0 <= c < |s| && c != e && s[c].Full?
      ensures var t, at' := s[e := s[c]], at[getKey(s[c].val) := e];
              Indexed(t, at', c) && Lookup(t, at', c) == Lookup(s, at, e) && |at'| == |at|
    {
      hide Hash;
      assert at[getKey(s[c].val) := e].Keys == at.Keys;
    }

    /** Filling the empty slot where a probe stopped keeps every probe path full. */
    lemma FillProbing(s: seq<Slot<T>>, key: K, index: int, val: T)
      requires Probing(s, -1) && 0 <= index < |s| && s[index].Empty?
      requires Missed(s, key, Dist(Home(Hash(key), |s|), index, |s|))
      ensures Probing(s[index := Full(val, Hash(key))], -1)
    {
      hide Home, Hash;
    }

    lemma FillIndexed(s: seq<Slot<T>>, at: map<K, int>, index: int, val: T)
      requires Indexed(s, at, -1) && 0 <= index < |s| && s[index].Empty? && getKey(val) !in at
      ensures var s', at' := s[index := Full(val, Hash(getKey(val)))], at[getKey(val) := index];
              && Indexed(s', at', -1)
              && Lookup(s', at', -1) == Lookup(s, at, -1)[getKey(val) := val]
              && |at'| == |at| + 1
    {
      hide Hash, Lookup;
      var full := Full(val, Hash(getKey(val)));
      assert Indexed(s[index := full], at[getKey(val) := index], -1);
      hide Indexed;
      FillLookup(s, at, index, full);
    }

    lemma FillLookup(s: seq<Slot<T>>, at: map<K, int>, index: int, full: Slot<T>)
      requires Indexed(s, at, -1) && 0 <= index < |s| && s[index].Empty? && full.Full? && getKey(full.val) !in at
      requires Indexed(s[index := full], at[getKey(full.val) := index], -1)
      ensures Lookup(s[index := full], at[getKey(full.val) := index], -1)
           == Lookup(s, at, -1)[getKey(full.val) := full.val]
    {
      hide Hash;
    }

    lemma OverwriteSlot(s: seq<Slot<T>>, at: map<K, int>, index: int, val: T)
      requires Indexed(s, at, -1) && Probing(s, -1)
      requires 0 <= index < |s| && s[index].Full? && getKey(s[index].val) == getKey(val)
      ensures var s' := s[index := Full(val, Hash(getKey(val)))];
              && Indexed(s', at, -1) && Probing(s', -1)
              && Lookup(s', at, -1) == Lookup(s, at, -1)[getKey(val) := val]
    {
      hide Hash, Home;
      var s' := s[index := Full(val, Hash(getKey(val)))];
      assert forall i :: 0 <= i < |s| && s[i].Full? ==> s'[i].Full? && s'[i].hash == s[i].hash;
      assert forall i :: 0 <= i < |s| ==> s'[i].Full? == s[i].Full?;
    }

    lemma NotAllMissed(s: seq<Slot<T>>, at: map<K, int>, key: K)
      requires Indexed(s, at, -1)
      ensures |at| < |s| || key in at ==> !Missed(s, key, |s|)
    {
      hide Home;
      if |at| < |s| {
        var z := FreeSlot(s, at);
        assert Dist(Home(Hash(key), |s|), z, |s|) < |s|;
      } else if key in at {
        assert Dist(Home(Hash(key), |s|), at[key], |s|) < |s|;
      }
    }

    // ----- Resizing, set and remove

    /** Exactly the entries of the first n old slots have been copied. */
    ghost predicate Copied(m: map<K, T>, all: map<K, T>, at: map<K, int>, n: int)
      requires all.Keys == at.Keys
    {
      && (forall k :: k in m <==> k in at && at[k] < n)
      && forall k :: k in m ==> m[k] == all[k]
    }

    /** The only key that can live in slot n is the key of its value. */
    lemma SlotOwner(s: seq<Slot<T>>, at: map<K, int>, n: int)
      requires Indexed(s, at, -1) && 0 <= n < |s|
      ensures forall k :: k in at && at[k] == n ==> s[n].Full? && k == getKey(s[n].val)
      ensures s[n].Full? ==> getKey(s[n].val) in at && at[getKey(s[n].val)] == n
                             && Lookup(s, at, -1)[getKey(s[n].val)] == s[n].val
    {
    }

    lemma CopyNone(s: seq<Slot<T>>, at: map<K, int>)
      requires Indexed(s, at, -1)
      ensures Copied(map[], Lookup(s, at, -1), at, 0)
    {
    }

    lemma CopyNext(s: seq<Slot<T>>, at: map<K, int>, m: map<K, T>, n: int)
      requires Indexed(s, at, -1) && 0 <= n < |s| && Copied(m, Lookup(s, at, -1), at, n)
      ensures s[n].Empty? ==> Copied(m, Lookup(s, at, -1), at, n + 1)
      ensures s[n].Full? ==> Copied(m[getKey(s[n].val) := s[n].val], Lookup(s, at, -1), at, n + 1) && |m| < |at|
    {
      SlotOwner(s, at, n);
      hide Indexed, Lookup;
      if s[n].Full? {
        var own := getKey(s[n].val);
        assert m.Keys <= at.Keys - {own};
        SubsetSize(m.Keys, at.Keys - {own});
      }
    }

    lemma CopiedAll(s: seq<Slot<T>>, at: map<K, int>, m: map<K, T>)
      requires Indexed(s, at, -1) && Copied(m, Lookup(s, at, -1), at, |s|)
      ensures m == Lookup(s, at, -1)
    {
      hide Hash;
      assert m.Keys == at.Keys;
    }

    /** `resize`: moves every entry to a fresh array of slots; nothing is lost. */
    method Resize(capacity: int)
      requires Valid() && capacity >= fCount
      modifies this
      ensures Valid() && fresh(fSlots) && fCapacity == capacity
      ensures Contents() == old(Contents())
    {
      var oldCapacity := fCapacity;
      var oldSlots := fSlots;
      ghost var at := where;
      fCount := 0;
      fCapacity := capacity;
      fSlots := new Slot<T>[capacity](_ => Empty);
      where := map[];
      hide Home, Hash, Probing, Indexed, Lookup;
      EmptyTable(fSlots[..]);
      Refill(oldSlots, oldCapacity, at);
    }

    /** The loop of `resize`. */
    method Refill(oldSlots: array<Slot<T>>, oldCapacity: int, ghost at: map<K, int>)
      requires Valid() && Contents() == map[] && oldSlots != fSlots
      requires oldCapacity == oldSlots.Length && Indexed(oldSlots[..], at, -1) && |at| <= fCapacity
      modifies this, fSlots
      ensures Valid() && fSlots == old(fSlots) && fCapacity == old(fCapacity)
      ensures Contents() == Lookup(old(oldSlots[..]), at, -1)
    {
      ghost var s := oldSlots[..];
      hide Home, Hash, Probing, Indexed, Lookup, Copied;
      ghost var all, m := Lookup(s, at, -1), Contents();
      CopyNone(s, at);
      var i := 0;
      while i < oldCapacity
        invariant 0 <= i <= oldCapacity == |s| && oldSlots[..] == s
        invariant Valid() && fSlots == old(fSlots) && fCapacity == old(fCapacity)
        invariant Contents() == m && Copied(m, all, at, i)
      {
        CopyNext(s, at, m, i);
        if oldSlots[i].Full? {
          m := m[getKey(s[i].val) := s[i].val];
          var _ := UncheckedSet(oldSlots[i].val);
        }
        i := i + 1;
      }
      CopiedAll(s, at, m);
    }

    lemma EmptyTable(s: seq<Slot<T>>)
      requires forall i :: 0 <= i < |s| ==> s[i].Empty?
      ensures Indexed(s, map[], -1) && Probing(s, -1) && Lookup(s, map[], -1) == map[]
    {
    }

    /** `set`: grows at three quarters full, then overwrites or adds.  From capacity 4 on it never fills
        the last slot. */
    method Set(val: T) returns (slot: int)
      requires Valid()
      modifies this, fSlots
      ensures Valid() && (fSlots == old(fSlots) || fresh(fSlots))
      ensures Contents() == old(Contents())[getKey(val) := val]
      ensures 0 <= slot < fSlots.Length && fSlots[slot].Full? && fSlots[slot].val == val
      ensures Filled() == Changed(old(Filled()), Adding(getKey(val) !in old(Contents())))
      ensures old(Balanced()) ==> Balanced() && fCount < fCapacity
    {
      hide Probing, Indexed, Lookup, BalancedLoad;
      ghost var count, cap := fCount, fCapacity;
      OneMoreKey(Contents(), getKey(val), val);
      if 4 * fCount >= 3 * fCapacity {
        Resize(if fCapacity > 0 then fCapacity * 2 else 4);
      }
      slot := UncheckedSet(val);
      if BalancedLoad(count, cap) {
        GrowthKeepsLoad(count, fCount, cap);
      }
    }

    /** What `remove` does with the entry it has found. */
    method RemoveAndShrink(index: int)
      requires Valid() && fCount < fCapacity && 0 <= index < fCapacity && fSlots[index].Full?
      modifies this, fSlots
      ensures Valid() && (fSlots == old(fSlots) || fresh(fSlots))
      ensures Contents() == old(Contents()) - {getKey(old(fSlots[index].val))}
      ensures Filled() == Changed(old(Filled()), Dropping) && fCount < fCapacity
      ensures old(Balanced()) ==> Balanced()
    {
      hide Probing, Indexed, Lookup, BalancedLoad;
      RemoveSlot(index);
      if BalancedLoad(fCount + 1, fCapacity) {
        ShrinkKeepsLoad(fCount + 1, fCapacity);
      }
      if 4 * fCount <= fCapacity && fCapacity > 4 {
        Resize(fCapacity / 2);
      }
    }

    /** `remove`: takes the entry of a key that is in the table out, and halves a table that is at most a
        quarter full. */
    method Remove(key: K)
      requires Valid() && key in Contents() && fCount < fCapacity
      modifies this, fSlots
      ensures Valid() && (fSlots == old(fSlots) || fresh(fSlots))
      ensures Contents() == old(Contents()) - {key}
      ensures Filled() == Changed(old(Filled()), Dropping)
      ensures old(Balanced()) ==> Balanced()
      ensures fCount < fCapacity
    {
      var hash := Hash(key);
      var index := Home(hash, fCapacity);
      var n := 0;
      ghost var s := fSlots[..];
      hide Home, Hash, Dist, Missed, Probing, Indexed, Lookup, Balanced;
      MissedNone(s, key);
      while n < fCapacity
        invariant fSlots == old(fSlots) && fCapacity == old(fCapacity) && fCount == old(fCount) && where == old(where)
        invariant 0 <= n <= fCapacity && fSlots[..] == s
        invariant n < fCapacity ==> 0 <= index < fCapacity && Dist(Home(hash, fCapacity), index, fCapacity) == n
        invariant Missed(s, key, n)
      {
        PresentMeansFull(s, where, key, index);
        if hash == fSlots[index].hash && key == getKey(fSlots[index].val) {
          RemoveAndShrink(index);
          return;
        }
        MissedOneMore(s, where, key, index, n);
        index := Next(index, fCapacity);
        n := n + 1;
      }
      NotAllMissed(s, where, key);
      assert false;
    }

    lemma PresentMeansFull(s: seq<Slot<T>>, at: map<K, int>, key: K, index: int)
      requires Indexed(s, at, -1) && Probing(s, -1) && 0 <= index < |s| && key in at
      requires Missed(s, key, Dist(Home(Hash(key), |s|), index, |s|))
      ensures s[index].Full?
    {
      hide Home, Hash;
      if s[index].Empty? {
        EmptyMeansAbsent(s, at, key, index);
      }
    }

    /** `foreach`: visits every entry once, in slot order. */
    method ForEach() returns (visited: seq<T>)
      requires Valid()
      ensures forall i :: 0 <= i < |visited|
                          ==> getKey(visited[i]) in Contents() && Contents()[getKey(visited[i])] == visited[i]
      ensures forall i, j :: 0 <= i < j < |visited| ==> getKey(visited[i]) != getKey(visited[j])
      ensures forall k :: k in Contents() ==> Contents()[k] in visited
    {
      hide Home, Hash, Probing;
      visited := [];
      var i := 0;
      while i < fCapacity
        invariant 0 <= i <= fCapacity
        invariant forall v :: v in visited
                              ==> getKey(v) in where && where[getKey(v)] < i && fSlots[where[getKey(v)]].val == v
        invariant forall a, b :: 0 <= a < b < |visited| ==> getKey(visited[a]) != getKey(visited[b])
        invariant forall k :: k in where && where[k] < i ==> fSlots[where[k]].val in visited
      {
        if fSlots[i].Full? {
          visited := visited + [fSlots[i].val];
        }
        i := i + 1;
      }
    }

    /** The map a list of values denotes: later values win. */
    ghost function MapOf(vals: seq<T>): map<K, T> {
      if |vals| == 0 then map[]
      else MapOf(vals[..|vals| - 1])[getKey(vals[|vals| - 1]) := vals[|vals| - 1]]
    }

    /** The list constructor of `SkTHashMap`: the table never grows.  A list of one leaves no empty slot. */
    constructor FromList(getKey: T -> K, rawHash: K -> nat, vals: seq<T>)
      ensures Valid() && fresh(fSlots) && this.getKey == getKey && this.rawHash == rawHash
      ensures Contents() == MapOf(vals)
      ensures fCapacity == |vals| * 5 / 3 && (Filled().HasRoom() <==> |vals| != 1)
    {
      this.getKey, this.rawHash := getKey, rawHash;
      fCount, fCapacity := 0, 0;
      fSlots := new Slot<T>[0];
      where := map[];
      new;
      hide Probing, Indexed, Lookup;
      EmptyTable(fSlots[..]);
      Resize(|vals| * 5 / 3);
      SetAll(vals);
      assert |vals| == 1 ==> Contents() == map[][getKey(vals[0]) := vals[0]];
    }

    /** The loop of the list constructor. */
    method SetAll(vals: seq<T>)
      requires Valid() && Contents() == map[]
      modifies this, fSlots
      ensures Valid() && (fSlots == old(fSlots) || fresh(fSlots)) && Contents() == MapOf(vals)
      ensures old(fCapacity) == |vals| * 5 / 3 ==> fCapacity == old(fCapacity) && fCount <= |vals|
    {
      hide Probing, Indexed, Lookup, BalancedLoad, Changed;
      var i := 0;
      while i < |vals|
        invariant 0 <= i <= |vals| && Valid() && (fSlots == old(fSlots) || fresh(fSlots))
        invariant Contents() == MapOf(vals[..i])
        invariant fCount <= i
        invariant old(fCapacity) == |vals| * 5 / 3 ==> fCapacity == old(fCapacity)
      {
        assert vals[..i + 1][..i] == vals[..i];
        ListNeverGrows(|vals|, fCount, i);
        var _ := Set(vals[i]);
        i := i + 1;
      }
      assert vals[..i] == vals;
    }

    /** On a table, the loop of `removeSlot` ends exactly when the table is not full. */
    lemma RemoveSlotEndsIff(slot: int)
      requires Valid() && 0 <= slot < fCapacity && fSlots[slot].Full?
      ensures (exists n: nat :: ShiftSteps(Shift(fSlots[..], slot, slot), n).None?) <==> fCount < fCapacity
    {
      EmptySlotIff();
      RemoveEndsIff(Shift(fSlots[..], slot, slot));
      var s := fSlots[..];
      assert (exists z :: 0 <= z < |s| && s[z].Empty?) <==> exists z :: 0 <= z < fCapacity && fSlots[z].Empty?;
    }
  }

  /** The growth rule of `set`, once: it leaves an empty slot for every load exactly when there are at least four
      slots. */
  lemma GrowthLeavesRoomIff(cap: int)
    requires cap > 0
    ensures (forall count: int :: 0 <= count && 4 * count < 3 * cap ==> count + 1 < cap) <==> cap >= 4
  {
    if cap < 4 {
      assert 4 * (cap - 1) < 3 * cap && !((cap - 1) + 1 < cap);
    }
  }

  // ----- When the loop of removeSlot ends

  datatype Shift<T> = Shift(slots: seq<Slot<T>>, emptyIndex: int, index: int)
  {
    predicate Ok() {
      0 <= emptyIndex < |slots| && 0 <= index < |slots| && slots[emptyIndex].Full?
    }
  }

  /** One look at a candidate in `removeSlot`: none when the loop ends. */
  function ShiftStep<T>(st: Shift<T>): (r: Option<Shift<T>>)
    requires st.Ok()
    ensures r.Some? ==> r.value.Ok() && |r.value.slots| == |st.slots|
    ensures r.None? <==> st.slots[Next(st.index, |st.slots|)].Empty?
  {
    var i := Next(st.index, |st.slots|);
    if st.slots[i].Empty? then None
    else if StaysPut(i, Home(st.slots[i].hash, |st.slots|), st.emptyIndex) then Some(Shift(st.slots, st.emptyIndex, i))
    else Some(Shift(st.slots[st.emptyIndex := st.slots[i]], i, i))
  }

  function ShiftSteps<T>(st: Shift<T>, n: nat): Option<Shift<T>>
    requires st.Ok()
    decreases n
  {
    if n == 0 then Some(st)
    else
      var r := ShiftStep(st);
      if r.None? then None else ShiftSteps(r.value, n - 1)
  }

  /** Some number of looks leads from one state to another. */
  ghost predicate Reaches<T>(st: Shift<T>, st': Shift<T>) {
    st.Ok() && exists n: nat :: ShiftSteps(st, n) == Some(st')
  }

  /** The looks end with these slots and this hole. */
  ghost predicate EndsWith<T>(st: Shift<T>, slots: seq<Slot<T>>, hole: int) {
    exists index :: Reaches(st, Shift(slots, hole, index)) && Shift(slots, hole, index).Ok()
                    && ShiftStep(Shift(slots, hole, index)).None?
  }

  lemma ReachesItself<T>(st: Shift<T>)
    requires st.Ok()
    ensures Reaches(st, st)
  {
    assert ShiftSteps(st, 0) == Some(st);
  }

  lemma {:induction false} OneMoreStep<T>(st: Shift<T>, n: nat, last: Shift<T>)
    requires st.Ok() && last.Ok() && ShiftSteps(st, n) == Some(last)
    ensures ShiftStep(last).Some? ==> ShiftSteps(st, n + 1) == ShiftStep(last)
    decreases n
  {
    hide Home, StaysPut;
    if n == 0 {
      assert ShiftStep(last).Some? ==> ShiftSteps(ShiftStep(last).value, 0) == ShiftStep(last);
    } else {
      OneMoreStep(ShiftStep(st).value, n - 1, last);
    }
  }

  /** One look at the next candidate: the end, or one state further. */
  lemma ReachesNext<T>(st: Shift<T>, s: seq<Slot<T>>, e: int, index: int)
    requires st.Ok() && Shift(s, e, index).Ok() && Reaches(st, Shift(s, e, index)) && 0 <= Next(index, |s|) < |s|
    ensures var i := Next(index, |s|);
            if s[i].Empty? then EndsWith(st, s, e)
            else if StaysPut(i, Home(s[i].hash, |s|), e) then Reaches(st, Shift(s, e, i))
            else Reaches(st, Shift(s[e := s[i]], i, i))
  {
    hide Home, StaysPut, Next;
    var last := Shift(s, e, index);
    var n: nat :| ShiftSteps(st, n) == Some(last);
    OneMoreStep(st, n, last);
  }

  lemma {:induction false} FullNeverEnds<T>(st: Shift<T>, n: nat)
    requires st.Ok() && forall i :: 0 <= i < |st.slots| ==> st.slots[i].Full?
    ensures ShiftSteps(st, n).Some?
    decreases n
  {
    if n > 0 {
      FullNeverEnds(ShiftStep(st).value, n - 1);
    }
  }

  lemma {:induction false} EmptyEnds<T>(st: Shift<T>, z: int) returns (n: nat)
    requires st.Ok() && 0 <= z < |st.slots| && st.slots[z].Empty?
    ensures ShiftSteps(st, n).None?
    decreases if st.index == z then |st.slots| else Dist(st.index, z, |st.slots|)
  {
    var r := ShiftStep(st);
    if r.None? {
      n := 1;
    } else {
      assert r.value.slots[z].Empty? && r.value.index == Next(st.index, |st.slots|);
      var m := EmptyEnds(r.value, z);
      n := m + 1;
    }
  }

  /** The one entry of a table made from a list of one pair can never be removed. */
  lemma OnlyPairNeverEnds<T>(only: Slot<T>, n: nat)
    requires only.Full?
    ensures ShiftSteps(Shift([only], 0, 0), n).Some?
  {
    FullNeverEnds(Shift([only], 0, 0), n);
  }

  /** The loop of `removeSlot` ends exactly when some slot is empty; on a full table it runs for ever. */
  lemma RemoveEndsIff<T>(st: Shift<T>)
    requires st.Ok()
    ensures (exists n: nat :: ShiftSteps(st, n).None?) <==> exists z :: 0 <= z < |st.slots| && st.slots[z].Empty?
  {
    if z :| 0 <= z < |st.slots| && st.slots[z].Empty? {
      var n := EmptyEnds(st, z);
    } else {
      forall n: nat
        ensures ShiftSteps(st, n).Some?
      {
        FullNeverEnds(st, n);
      }
    }
  }
}
