/** The 4-ary hash trie that json_object_upsert (json/json.c) threads through the entries of
    an object, stated on values: node `i` is the `i`-th entry in insertion order and a child
    link is the index of the child entry, or -1 for a NULL slot. The root is the first entry
    (`map->head`). The heap structure of module JsonObjects is kept equal to this trie. */
module HashTrie {
  import opened CStrings
  import JsonStrings

  const NoChild: int := -1

  /** An entry as the trie sees it: its key bytes and its four child links. */
  datatype Node = Node(key: seq<byte>, kids: seq<int>)

  type Trie = seq<Node>

  /** Where a search ends: at the entry holding the key, or at the empty slot (child `k`
      of entry `parent`, or the head when `parent` is -1) where the key would be stored. */
  datatype Place = Found(index: nat) | Vacant(parent: int, k: nat)

  /** Every node has four links, and each link is NULL or points to a later entry: a child
      is always allocated after its parent. */
  predicate Shaped(t: Trie) {
    forall i :: 0 <= i < |t| ==>
      |t[i].kids| == 4 &&
      forall k :: 0 <= k < 4 ==> t[i].kids[k] == NoChild || i < t[i].kids[k] < |t|
  }

  /** `h >> 62`: the child slot chosen by the top two bits of the running hash. */
  function Digit(h: bv64): (k: nat)
    ensures k < 4
  {
    (h >> 62) as nat
  }

  /** The entry stored in a slot (`*m`), or -1 for NULL. */
  function Occupant(t: Trie, parent: int, k: nat): (o: int)
    requires Shaped(t) && -1 <= parent < |t| && k < 4
    ensures o == NoChild || parent < o < |t|
  {
    if parent == -1 then (if |t| == 0 then NoChild else 0) else t[parent].kids[k]
  }

  /** The search loop of json_object_upsert from slot (`parent`, `k`) with running hash `h`:
      stop at a NULL slot or at an entry whose key has the same bytes, otherwise descend into
      child `h >> 62` of that entry and shift the hash left by two bits. */
  function Locate(t: Trie, parent: int, k: nat, key: seq<byte>, h: bv64): (p: Place)
    requires Shaped(t) && -1 <= parent < |t| && k < 4
    ensures p.Found? ==> p.index < |t| && t[p.index].key == key
    ensures p.Vacant? ==> -1 <= p.parent < |t| && p.k < 4 && Occupant(t, p.parent, p.k) == NoChild
    decreases |t| - parent
  {
    var o := Occupant(t, parent, k);
    if o == NoChild then Vacant(parent, k)
    else if t[o].key == key then Found(o)
    else Locate(t, o, Digit(h), key, h << 2)
  }

  /** The search from `map->head` with the key's hash. */
  function Find(t: Trie, key: seq<byte>): (p: Place)
    requires Shaped(t)
    ensures p.Found? ==> p.index < |t| && t[p.index].key == key
    ensures p.Vacant? ==> -1 <= p.parent < |t| && p.k < 4 && Occupant(t, p.parent, p.k) == NoChild
  {
    Locate(t, -1, 0, key, JsonStrings.Hash(key))
  }

  /** A new entry with four NULL children stored in the empty slot a search ended at. */
  function Insert(t: Trie, key: seq<byte>, at: Place): (r: Trie)
    requires Shaped(t) && at.Vacant? && -1 <= at.parent < |t| && at.k < 4
    requires Occupant(t, at.parent, at.k) == NoChild
    ensures Shaped(r) && |r| == |t| + 1 && r[|t|] == Node(key, [NoChild, NoChild, NoChild, NoChild])
    ensures forall i :: 0 <= i < |t| ==> r[i].key == t[i].key
    ensures Occupant(r, at.parent, at.k) == |t|
  {
    var leaf := Node(key, [NoChild, NoChild, NoChild, NoChild]);
    if at.parent == -1 then t + [leaf]
    else
      var n := t[at.parent];
      t[at.parent := n.(kids := n.kids[at.k := |t|])] + [leaf]
  }

  /** The search for the key of entry `i` ends at entry `i`. */
  predicate FoundAt(t: Trie, i: nat)
    requires Shaped(t) && i < |t|
  {
    Find(t, t[i].key) == Found(i)
  }

  /** Every entry is where the search for its key ends. */
  predicate Valid(t: Trie) {
    Shaped(t) && forall i :: 0 <= i < |t| ==> FoundAt(t, i)
  }

  /** Storing into an empty slot does not change a search that found an entry: such a
      search only passes through occupied slots. */
  lemma {:induction false} LocateStable(t: Trie, at: Place, nkey: seq<byte>,
                                        parent: int, k: nat, key: seq<byte>, h: bv64)
    requires Shaped(t) && at.Vacant? && -1 <= at.parent < |t| && at.k < 4
    requires Occupant(t, at.parent, at.k) == NoChild
    requires -1 <= parent < |t| && k < 4
    requires Locate(t, parent, k, key, h).Found?
    ensures Locate(Insert(t, nkey, at), parent, k, key, h) == Locate(t, parent, k, key, h)
    decreases |t| - parent
  {
    var r := Insert(t, nkey, at);
    var o := Occupant(t, parent, k);
    assert Occupant(r, parent, k) == o;
    if t[o].key != key {
      LocateStable(t, at, nkey, o, Digit(h), key, h << 2);
    }
  }

  /** A search that ended at an empty slot ends, after storing the key there, at the new
      entry. */
  lemma {:induction false} LocateReaches(t: Trie, parent: int, k: nat, key: seq<byte>, h: bv64)
    requires Shaped(t) && -1 <= parent < |t| && k < 4
    requires Locate(t, parent, k, key, h).Vacant?
    ensures Locate(Insert(t, key, Locate(t, parent, k, key, h)), parent, k, key, h) == Found(|t|)
    decreases |t| - parent
  {
    var at := Locate(t, parent, k, key, h);
    var r := Insert(t, key, at);
    var o := Occupant(t, parent, k);
    if o != NoChild {
      assert Occupant(r, parent, k) == o;
      LocateReaches(t, o, Digit(h), key, h << 2);
    }
  }

  /** The empty trie (an object whose head is NULL) is valid. */
  lemma EmptyValid()
    ensures Valid([])
    ensures forall key :: Find([], key) == Vacant(-1, 0)
  {
  }

  /** json_object_upsert with an allocator keeps the trie valid, and afterwards the search
      for the inserted key finds the new last entry. */
  lemma {:induction false} InsertValid(t: Trie, key: seq<byte>)
    requires Valid(t) && Find(t, key).Vacant?
    ensures Valid(Insert(t, key, Find(t, key)))
    ensures Find(Insert(t, key, Find(t, key)), key) == Found(|t|)
  {
    var at := Find(t, key);
    var r := Insert(t, key, at);
    forall i | 0 <= i < |r|
      ensures FoundAt(r, i)
    {
      if i < |t| {
        assert FoundAt(t, i);
        LocateStable(t, at, key, -1, 0, t[i].key, JsonStrings.Hash(t[i].key));
      } else {
        LocateReaches(t, -1, 0, key, JsonStrings.Hash(key));
      }
    }
    LocateReaches(t, -1, 0, key, JsonStrings.Hash(key));
  }

  /** Inserting a new key leaves the search for every other stored key where it was. */
  lemma InsertKeepsOthers(t: Trie, key: seq<byte>, other: seq<byte>)
    requires Valid(t) && Find(t, key).Vacant? && Find(t, other).Found?
    ensures Find(Insert(t, key, Find(t, key)), other) == Find(t, other)
  {
    LocateStable(t, Find(t, key), key, -1, 0, other, JsonStrings.Hash(other));
  }

  /** No two entries of a valid trie hold the same key bytes. */
  lemma KeysDistinct(t: Trie)
    requires Valid(t)
    ensures forall i, j :: 0 <= i < j < |t| ==> t[i].key != t[j].key
  {
    forall i, j | 0 <= i < j < |t|
      ensures t[i].key != t[j].key
    {
      assert FoundAt(t, i) && FoundAt(t, j);
    }
  }

  /** A key is absent exactly when the search for it ends at an empty slot. */
  lemma FindAbsent(t: Trie, key: seq<byte>)
    requires Valid(t)
    ensures Find(t, key).Vacant? <==> forall i :: 0 <= i < |t| ==> t[i].key != key
  {
    if exists i :: 0 <= i < |t| && t[i].key == key {
      var i :| 0 <= i < |t| && t[i].key == key;
      assert FoundAt(t, i);
    }
  }

  /** The hash after `n` iterations of the search loop (`h <<= 2` each time). */
  function Shifted(h: bv64, n: nat): bv64
  {
    if n == 0 then h else Shifted(h, n - 1) << 2
  }

  /** Shifting by two bits 32 times clears all 64: from depth 32 on the running hash is
      zero and every step descends into child 0, so entries whose hashes agree keep
      colliding down a single chain. */
  lemma {:induction false} ShiftedOut(h: bv64, n: nat)
    requires n >= 32
    ensures Shifted(h, n) == 0 && Digit(Shifted(h, n)) == 0
  {
    if n > 32 {
      ShiftedOut(h, n - 1);
    } else {
      Shifts16(h, 0);
      Shifts16(h, 16);
      ShiftsCompose(h);
    }
  }

  /** A search that always descends into child 0: a linear scan down one chain of
      entries. */
  function ChainLocate(t: Trie, parent: int, k: nat, key: seq<byte>): (p: Place)
    requires Shaped(t) && -1 <= parent < |t| && k < 4
    ensures p.Found? ==> p.index < |t| && t[p.index].key == key
    ensures p.Vacant? ==> p.parent == parent || p.k == 0
    decreases |t| - parent
  {
    var o := Occupant(t, parent, k);
    if o == NoChild then Vacant(parent, k)
    else if t[o].key == key then Found(o)
    else ChainLocate(t, o, 0, key)
  }

  /** The search of json_object_upsert at depth `n` runs with the hash shifted `n` times
      (Find starts at depth 0 with `Shifted(Hash(key), 0)`); each step descends into child
      `Digit` of that hash and goes on at depth `n + 1`. */
  lemma LocateDescends(t: Trie, parent: int, k: nat, key: seq<byte>, h: bv64, n: nat)
    requires Shaped(t) && -1 <= parent < |t| && k < 4
    requires Occupant(t, parent, k) != NoChild && t[Occupant(t, parent, k)].key != key
    ensures Locate(t, parent, k, key, Shifted(h, n)) ==
            Locate(t, Occupant(t, parent, k), Digit(Shifted(h, n)), key, Shifted(h, n + 1))
    ensures Find(t, key) == Locate(t, -1, 0, key, Shifted(JsonStrings.Hash(key), 0))
  {
    ShiftedStep(h, n);
  }

  /** From depth 32 on, the search is the scan down child 0, whatever the key's hash: keys
      whose hashes agree in all 64 bits are told apart only by comparing them one by one. */
  lemma {:induction false} DeepSearchIsChain(t: Trie, parent: int, k: nat, key: seq<byte>, h: bv64, n: nat)
    requires Shaped(t) && -1 <= parent < |t| && k < 4 && n >= 32
    ensures Locate(t, parent, k, key, Shifted(h, n)) == ChainLocate(t, parent, k, key)
    decreases |t| - parent
  {
    var o := Occupant(t, parent, k);
    if o != NoChild && t[o].key != key {
      ShiftedOut(h, n);
      LocateDescends(t, parent, k, key, h, n);
      DeepSearchIsChain(t, o, 0, key, h, n + 1);
    }
  }

  lemma ShiftedStep(h: bv64, n: nat)
    ensures Shifted(h, n + 1) == Shifted(h, n) << 2
  {
  }

  lemma ShiftsCompose(x: bv64)
    ensures (x << 2) << 2 == x << 4
    ensures (x << 4) << 4 == x << 8
    ensures (x << 8) << 8 == x << 16
    ensures (x << 16) << 16 == x << 32
    ensures (x << 32) << 32 == 0
  {
  }

  lemma Shifts2(h: bv64, n: nat)
    ensures Shifted(h, n + 2) == Shifted(h, n) << 4
  {
    ShiftedStep(h, n);
    ShiftedStep(h, n + 1);
    ShiftsCompose(Shifted(h, n));
  }

  lemma Shifts4(h: bv64, n: nat)
    ensures Shifted(h, n + 4) == Shifted(h, n) << 8
  {
    Shifts2(h, n);
    Shifts2(h, n + 2);
    ShiftsCompose(Shifted(h, n));
  }

  lemma Shifts8(h: bv64, n: nat)
    ensures Shifted(h, n + 8) == Shifted(h, n) << 16
  {
    Shifts4(h, n);
    Shifts4(h, n + 4);
    ShiftsCompose(Shifted(h, n));
  }

  lemma Shifts16(h: bv64, n: nat)
    ensures Shifted(h, n + 16) == Shifted(h, n) << 32
  {
    Shifts8(h, n);
    Shifts8(h, n + 8);
    ShiftsCompose(Shifted(h, n));
  }
}
