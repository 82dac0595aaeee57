/** A table of objects sorted by key, searched for the nearest key behind a ring of
    remembered answers. */
module ObjectDictionary {

  const MAX_OBJECT_CACHE := 32

  type Object = nat  // an address

  datatype Entry = Entry(obj: Object, key: real)

  /** A cache slot: unused, or a remembered answer for a key. */
  datatype Slot = Empty | Slot(index: int, key: real)

  function Dist(a: real, b: real): (d: real)
    ensures d >= 0.0 && (d == a - b || d == b - a)
  {
    if a < b then b - a else a - b
  }

  predicate StrictlyIncreasing(keys: seq<real>) {
    forall i, j :: 0 <= i < j < |keys| ==> keys[i] < keys[j]
  }

  /** Index i is nearest to the key, and the lower one of two that are equally near. */
  predicate IsNearest(keys: seq<real>, key: real, i: int) {
    && 0 <= i < |keys|
    && (forall j :: 0 <= j < |keys| ==> Dist(keys[i], key) <= Dist(keys[j], key))
    && (forall j :: 0 <= j < i ==> Dist(keys[i], key) < Dist(keys[j], key))
  }

  lemma NearestUnique(keys: seq<real>, key: real, i: int, j: int)
    requires IsNearest(keys, key, i) && IsNearest(keys, key, j)
    ensures i == j
  {
    assert Dist(keys[i], key) <= Dist(keys[j], key) && Dist(keys[j], key) <= Dist(keys[i], key);
  }

  /** Between two neighbours the nearer one is the nearest of all. */
  lemma NearerNeighbour(keys: seq<real>, key: real, i: nat)
    requires StrictlyIncreasing(keys) && i + 1 < |keys| && keys[i] < key <= keys[i + 1]
    ensures IsNearest(keys, key, if keys[i + 1] - key < key - keys[i] then i + 1 else i)
  {
    var n := if keys[i + 1] - key < key - keys[i] then i + 1 else i;
    forall j | 0 <= j < |keys|
      ensures Dist(keys[n], key) <= Dist(keys[j], key) && (j < n ==> Dist(keys[n], key) < Dist(keys[j], key))
    {
      if j < i {
        assert keys[j] < keys[i];
      } else if j > i + 1 {
        assert keys[i + 1] < keys[j];
      }
    }
  }

  lemma EndsNearest(keys: seq<real>, key: real)
    requires StrictlyIncreasing(keys) && keys != []
    ensures key <= keys[0] ==> IsNearest(keys, key, 0)
    ensures key >= keys[|keys| - 1] ==> IsNearest(keys, key, |keys| - 1)
  {
    var last := |keys| - 1;
    forall j | 0 <= j < |keys| ensures keys[0] <= keys[j] <= keys[last] && (j < last ==> keys[j] < keys[last]) {
    }
  }

  lemma ExactNearest(keys: seq<real>, i: nat)
    requires StrictlyIncreasing(keys) && i < |keys|
    ensures IsNearest(keys, keys[i], i)
  {
    forall j | 0 <= j < i ensures keys[j] < keys[i] {
    }
  }

  /** The search ends by looking at the entry in front of the one it found. Before the first
      entry that is foreign memory, and if it happens to hold the key the search steps off
      the table. This is when: the answer would be the first entry, without matching it or
      lying below it, and the memory before the table holds the key. */
  predicate SteppedOff(keys: seq<real>, keyBefore: real, key: real) {
    && keys != [] && keyBefore == key && keys[0] < key
    && (|keys| == 1 || key - keys[0] <= keys[1] - key)
  }

  lemma SteppedOffIffFirst(keys: seq<real>, keyBefore: real, key: real)
    requires StrictlyIncreasing(keys) && keys != [] && keys[0] < key
    ensures SteppedOff(keys, keyBefore, key) <==> keyBefore == key && IsNearest(keys, key, 0)
  {
    if |keys| == 1 {
      EndsNearest(keys, key);
    } else {
      assert keys[0] < keys[1];
      if key <= keys[1] {
        NearerNeighbour(keys, key, 0);
        assert Dist(keys[0], key) == key - keys[0] && Dist(keys[1], key) == keys[1] - key;
      } else {
        assert Dist(keys[1], key) < Dist(keys[0], key);
      }
    }
  }

  /** One table, one key and one value in front of the table on which the search steps off. */
  lemma SteppedOffHappens()
    ensures SteppedOff([1.0, 5.0], 2.0, 2.0) && IsNearest([1.0, 5.0], 2.0, 0)
  {
  }

  function KeysOf(entries: seq<Entry>): (keys: seq<real>)
    ensures |keys| == |entries|
    ensures forall i :: 0 <= i < |keys| ==> keys[i] == entries[i].key
  {
    seq(|entries|, i requires 0 <= i < |entries| => entries[i].key)
  }

  /** A remembered answer is right, or marks a key whose search stepped off the table. */
  predicate SlotOk(slot: Slot, keys: seq<real>, keyBefore: real) {
    slot.Slot? ==>
      if slot.index < 0 then slot.index == -1 && SteppedOff(keys, keyBefore, slot.key)
      else IsNearest(keys, slot.key, slot.index) && !SteppedOff(keys, keyBefore, slot.key)
  }

  class ObjectDictionary {
    const m_entries: array<Entry>
    const m_cache: array<Slot>
    var m_cacheIndex: nat
    var m_size: nat
    const keyBefore: real  // what a read in front of m_entries finds

    ghost predicate Valid()
      reads this, m_entries, m_cache
    {
      && m_size <= m_entries.Length && m_cache.Length == MAX_OBJECT_CACHE
      && StrictlyIncreasing(Keys())
      && forall s :: 0 <= s < MAX_OBJECT_CACHE ==> SlotOk(m_cache[s], Keys(), keyBefore)
    }

    /** The table. */
    function Entries(): seq<Entry>
      requires m_size <= m_entries.Length
      reads this, m_entries
    {
      m_entries[..m_size]
    }

    function Keys(): (keys: seq<real>)
      requires m_size <= m_entries.Length
      reads this, m_entries
      ensures |keys| == m_size
      ensures forall i :: 0 <= i < m_size ==> keys[i] == m_entries[i].key
    {
      KeysOf(Entries())
    }

    constructor (capacity: nat, keyBefore: real)
      ensures Valid() && m_size == 0 && m_entries.Length == capacity && this.keyBefore == keyBefore
      ensures fresh(m_entries) && fresh(m_cache) && m_cache.Length == 32
    {
      m_entries := new Entry[capacity](_ => Entry(0, 0.0));
      m_cache := new Slot[MAX_OBJECT_CACHE](_ => Empty);
      m_cacheIndex, m_size := 0, 0;
      this.keyBefore := keyBefore;
    }

    method ClearCache()
      requires m_cache.Length == MAX_OBJECT_CACHE
      modifies this`m_cacheIndex, m_cache
      ensures m_cacheIndex == 0 && forall s :: 0 <= s < 32 ==> m_cache[s] == Empty
    {
      forall s | 0 <= s < MAX_OBJECT_CACHE {
        m_cache[s] := Empty;
      }
      m_cacheIndex := 0;
    }

    /** AddToCache */
    method AddToCache(index: int, key: real)
      requires m_cache.Length == MAX_OBJECT_CACHE && m_size <= m_entries.Length
      requires SlotOk(Slot(index, key), Keys(), keyBefore)
      requires forall s :: 0 <= s < MAX_OBJECT_CACHE ==> SlotOk(m_cache[s], Keys(), keyBefore)
      modifies this`m_cacheIndex, m_cache
      ensures m_cacheIndex == old(m_cacheIndex) + 1
      ensures forall s :: 0 <= s < 32 ==>
                  m_cache[s] == if s == old(m_cacheIndex) % 32 then Slot(index, key) else old(m_cache[s])
      ensures forall s :: 0 <= s < MAX_OBJECT_CACHE ==> SlotOk(m_cache[s], Keys(), keyBefore)
    {
      var i := m_cacheIndex % MAX_OBJECT_CACHE;
      m_cache[i] := Slot(index, key);
      m_cacheIndex := m_cacheIndex + 1;
    }

    /** FindKeyInCache: a remembered answer is found, and all that are remembered for a key agree. */
    method FindKeyInCache(key: real) returns (index: int)
      requires Valid()
      ensures index >= 0 ==> IsNearest(Keys(), key, index) && !SteppedOff(Keys(), keyBefore, key)
      ensures forall s :: 0 <= s < MAX_OBJECT_CACHE && m_cache[s].Slot? && m_cache[s].key == key ==> index == m_cache[s].index
      ensures index >= 0 ==> Slot(index, key) in m_cache[..]
    {
      for s := 0 to MAX_OBJECT_CACHE
        invariant forall t :: 0 <= t < s ==> !(m_cache[t].Slot? && m_cache[t].key == key)
      {
        if m_cache[s].Slot? && m_cache[s].key == key {
          SlotsAgree(m_cache[s]);
          assert m_cache[s] in m_cache[..];
          return m_cache[s].index;
        }
      }
      return -1;
    }

    lemma SlotsAgree(slot: Slot)
      requires Valid() && slot.Slot? && SlotOk(slot, Keys(), keyBefore)
      ensures forall s :: 0 <= s < MAX_OBJECT_CACHE && m_cache[s].Slot? && m_cache[s].key == slot.key ==>
                  m_cache[s].index == slot.index
    {
      forall s | 0 <= s < MAX_OBJECT_CACHE && m_cache[s].Slot? && m_cache[s].key == slot.key
        ensures m_cache[s].index == slot.index
      {
        assert SlotOk(m_cache[s], Keys(), keyBefore);
        if slot.index >= 0 && m_cache[s].index >= 0 {
          NearestUnique(Keys(), slot.key, slot.index, m_cache[s].index);
        }
      }
    }

    /** The key of an entry, or of the memory in front of the table. */
    function KeyAt(i: int): real
      requires -1 <= i < m_entries.Length
      reads m_entries
    {
      if i < 0 then keyBefore else m_entries[i].key
    }

    /** FindClosestAsIndex */
    method FindClosestAsIndex(key: real) returns (index: int)
      requires Valid()
      modifies this`m_cacheIndex, m_cache
      ensures Valid()
      ensures if m_size == 0 || SteppedOff(Keys(), keyBefore, key) then index == -1
              else IsNearest(Keys(), key, index)
    {
      if m_size <= 0 {
        return -1;
      }
      EndsNearest(Keys(), key);
      if key <= m_entries[0].key {
        return 0;
      }
      index := FindKeyInCache(key);
      if index >= 0 {
        return;
      }
      var middle := Search(key);
      SteppedOffIffFirst(Keys(), keyBefore, key);
      assert IsNearest(Keys(), key, 0) ==> middle == 0 by {
        if IsNearest(Keys(), key, 0) {
          NearestUnique(Keys(), key, 0, middle);
        }
      }
      ghost var found := middle;
      NotBefore(Keys(), key, found);
      var keyNext := KeyAt(middle - 1);
      while keyNext == key
        invariant || (middle == found && keyNext == KeyAt(found - 1))
                  || (middle == -1 && found == 0 && keyBefore == key && keyNext != key)
        decreases middle
      {
        keyNext := KeyAt(middle);
        middle := middle - 1;
      }
      AddToCache(middle, key);
      index := middle;
    }

    lemma NotBefore(keys: seq<real>, key: real, i: nat)
      requires IsNearest(keys, key, i)
      ensures i > 0 ==> keys[i - 1] != key
    {
    }

    /** The binary search of FindClosestAsIndex, for a key above the first. */
    method Search(key: real) returns (middle: int)
      requires Valid() && m_size > 0 && m_entries[0].key < key
      ensures IsNearest(Keys(), key, middle)
    {
      hide IsNearest, StrictlyIncreasing, KeysOf, SlotOk;
      var first, last := 0, m_size - 1;
      EndsNearest(Keys(), key);
      if key >= m_entries[last].key {
        return last;
      }
      while true
        invariant 0 <= first < last < m_size
        invariant m_entries[first].key < key < m_entries[last].key
        decreases last - first
      {
        middle := (last + first) / 2;
        var keyMiddle := m_entries[middle].key;
        if keyMiddle == key {
          ExactNearest(Keys(), middle);
          return;
        }
        if keyMiddle < key {
          if m_entries[middle + 1].key >= key {
            NearerNeighbour(Keys(), key, middle);
            if m_entries[middle + 1].key - key < key - keyMiddle {
              middle := middle + 1;
            }
            return;
          }
          first := (last + first) / 2;
        } else {
          last := (last + first) / 2;
        }
      }
    }

    /** Add of a fresh key, while there is capacity: the entry goes to its place in the order
        and every other one is kept. A search that stepped off the table does no harm here. */
    method Add(obj: Object, key: real) returns (added: bool, ghost at: nat)
      requires Valid() && m_size < m_entries.Length && key !in Keys()
      modifies this, m_entries, m_cache
      ensures Valid() && added && m_size == old(m_size) + 1
      ensures at <= old(m_size) && Entries() == old(Entries())[..at] + [Entry(obj, key)] + old(Entries())[at..]
    {
      var p := m_size;
      if m_size > 0 && key < m_entries[m_size - 1].key {
        p := Place(key);
      }
      assert p > 0 ==> Keys()[p - 1] < key by {
        if p == m_size > 0 {
          assert Keys()[p - 1] != key;
        }
      }
      InsertAt(p, obj, key);
      ClearCache();
      ExactSlot(Keys(), keyBefore, p);
      hide SlotOk;
      EmptySlotOk(Keys(), keyBefore);
      AddToCache(p, key);
      added, at := true, p;
    }

    lemma EmptySlotOk(keys: seq<real>, before: real)
      ensures SlotOk(Empty, keys, before)
    {
    }

    lemma ExactSlot(keys: seq<real>, before: real, p: nat)
      requires StrictlyIncreasing(keys) && p < |keys|
      ensures SlotOk(Slot(p, keys[p]), keys, before)
    {
      ExactNearest(keys, p);
      if SteppedOff(keys, before, keys[p]) && |keys| > 1 {
        SteppedOffIffFirst(keys, before, keys[p]);
        NearestUnique(keys, keys[p], 0, p);
      }
    }

    /** The part of Add that opens a gap at p and fills it. */
    method InsertAt(p: nat, obj: Object, key: real)
      requires p <= m_size < m_entries.Length && StrictlyIncreasing(Keys())
      requires p > 0 ==> Keys()[p - 1] < key
      requires p < m_size ==> key < Keys()[p]
      modifies this`m_size, m_entries
      ensures m_size == old(m_size) + 1 && StrictlyIncreasing(Keys()) && Keys()[p] == key
      ensures Entries() == old(Entries())[..p] + [Entry(obj, key)] + old(Entries())[p..]
    {
      ghost var entries := Entries();
      ShiftUp(p);
      m_entries[p] := Entry(obj, key);
      m_size := m_size + 1;
      assert Entries() == entries[..p] + [Entry(obj, key)] + entries[p..];
      hide KeysOf;
      InsertedKeys(entries, Entry(obj, key), p);
    }

    lemma InsertedKeys(entries: seq<Entry>, e: Entry, p: nat)
      requires StrictlyIncreasing(KeysOf(entries)) && p <= |entries|
      requires p > 0 ==> entries[p - 1].key < e.key
      requires p < |entries| ==> e.key < entries[p].key
      ensures StrictlyIncreasing(KeysOf(entries[..p] + [e] + entries[p..]))
    {
      hide KeysOf;
      var keys, after := KeysOf(entries), entries[..p] + [e] + entries[p..];
      forall i, j | 0 <= i < j < |after| ensures KeysOf(after)[i] < KeysOf(after)[j] {
        assert i < p ==> keys[i] <= keys[p - 1];
        assert j > p ==> keys[p] <= keys[j - 1];
      }
    }

    /** Where Add puts a key below the last: at the first entry above it. */
    method Place(key: real) returns (p: int)
      requires Valid() && m_size > 0 && key < m_entries[m_size - 1].key && key !in Keys()
      modifies this`m_cacheIndex, m_cache
      ensures Valid()
      ensures 0 <= p < m_size && key < m_entries[p].key && (p > 0 ==> m_entries[p - 1].key < key)
    {
      p := FindClosestAsIndex(key);
      if p > 0 {
        BelowNearest(Keys(), key, p);
      }
      p := StepUp(key, p);
    }

    /** The loop of Add that steps over keys that are not above the new one. */
    method StepUp(key: real, start: int) returns (p: int)
      requires 0 < m_size <= m_entries.Length && -1 <= start < m_size
      requires key < m_entries[m_size - 1].key && key !in Keys()
      requires (start < 0 ==> keyBefore == key) && (start > 0 ==> m_entries[start - 1].key < key)
      ensures 0 <= p < m_size && key < m_entries[p].key && (p > 0 ==> m_entries[p - 1].key < key)
    {
      hide KeysOf;
      p := start;
      while KeyAt(p) <= key
        invariant -1 <= p < m_size && (p < 0 ==> keyBefore == key)
        invariant p > 0 ==> m_entries[p - 1].key < key
        decreases m_size - p
      {
        if p >= 0 {
          OtherKey(key, p);
        }
        p := p + 1;
      }
    }

    lemma OtherKey(key: real, p: nat)
      requires m_size <= m_entries.Length && p < m_size && key !in Keys()
      ensures m_entries[p].key != key
    {
      assert Keys()[p] != key;
    }

    lemma BelowNearest(keys: seq<real>, key: real, i: nat)
      requires StrictlyIncreasing(keys) && IsNearest(keys, key, i) && i > 0
      ensures keys[i - 1] < key
    {
      assert keys[i - 1] < keys[i] && Dist(keys[i], key) < Dist(keys[i - 1], key);
    }

    /** The entries from p on move up by one. */
    method ShiftUp(p: nat)
      requires p <= m_size < m_entries.Length
      modifies m_entries
      ensures forall i :: 0 <= i < p ==> m_entries[i] == old(m_entries[i])
      ensures forall i :: p < i <= m_size ==> m_entries[i] == old(m_entries[i - 1])
    {
      var e := m_size;
      while e != p
        invariant p <= e <= m_size
        invariant forall i :: 0 <= i <= e && i < m_size ==> m_entries[i] == old(m_entries[i])
        invariant forall i :: e < i <= m_size ==> m_entries[i] == old(m_entries[i - 1])
      {
        m_entries[e] := m_entries[e - 1];
        e := e - 1;
      }
    }
  }
}
