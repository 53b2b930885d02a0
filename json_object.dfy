/** `JsonValue`, `JsonObject` and `JsonObjectEntry` of json/json.h, json_object_upsert of
    json/json.c and the iteration macros of json/json.h.

    A `JsonValue` holds its `JsonObject` by value (a member of its union), and every byte
    buffer the core stores is a copy that is never written again, so both are values here.
    An object owns its entries; they are kept in an arena (`entries`) in allocation order,
    and every pointer to an entry (`head`, `tail`, `child[k]`, `next`) is a position in that
    arena, or Nil for NULL. The entries form a singly linked `next` chain in insertion order,
    threaded through a 4-ary hash trie (module HashTrie) whose root is the first entry. */
module JsonObjects {
  import opened CStrings
  import opened JsonStrings
  import opened JsonTree
  import HashTrie

  /** A NULL entry pointer. */
  const Nil: int := -1

  /** The union `u` of a `JsonValue`. The float of a number is not modelled. */
  datatype Payload = NoPayload | BoolPayload(boolean: bool) | ObjPayload(obj: JsonObject)

  /** `struct JsonValue { int type; JsonString string; union u; }` */
  datatype JsonValue = JsonValue(kind: JsonType, text: JsonString, u: Payload)

  /** `struct JsonObjectEntry { child[4]; key; value; next; }` */
  datatype Entry = Entry(child: seq<int>, key: JsonString, value: JsonValue, next: int)

  /** `JsonObject { head; tail; size; }` with the entries it owns. `tail` is Nil for
      `tail == &head` and `e` for `tail == &entries[e].next`. */
  datatype JsonObject = JsonObject(head: int, tail: int, size: nat, entries: seq<Entry>)

  /** A zeroed object whose `tail` points at its own `head`: no entries. */
  const EmptyObject := JsonObject(Nil, Nil, 0, [])

  /** The value of a freshly zeroed entry. */
  const ZeroValue := JsonValue(Unset, JsonString(0, Ptr.Null), NoPayload)

  /** `(JsonValue) { .type = JSON_NULL }` */
  const NullValue := JsonValue(JsonTree.Null, JsonString(0, Ptr.Null), NoPayload)

  /** A zeroed entry holding `key`, as json_object_upsert allocates it. */
  function NewEntry(key: JsonString): Entry {
    Entry([Nil, Nil, Nil, Nil], key, ZeroValue, Nil)
  }

  /** The member of the union that is in use for each type. */
  predicate PayloadFits(v: JsonValue) {
    match v.kind
    case Object => v.u.ObjPayload?
    case Array => v.u.ObjPayload?
    case True => v.u.BoolPayload?
    case False => v.u.BoolPayload?
    case _ => v.u.NoPayload?
  }

  /** Every key is a valid slice. */
  predicate KeysOk(es: seq<Entry>) {
    forall i :: 0 <= i < |es| ==> SliceOk(es[i].key)
  }

  /** The trie the entries spell out: node `i` holds the key bytes and child links of
      entry `i`. */
  function TrieOf(es: seq<Entry>): (t: HashTrie.Trie)
    ensures |t| == |es| &&
            forall i :: 0 <= i < |es| ==> t[i] == HashTrie.Node(Bytes(es[i].key), es[i].child)
  {
    seq(|es|, i requires 0 <= i < |es| => HashTrie.Node(Bytes(es[i].key), es[i].child))
  }

  /** The links of an object: the counts agree, `head` is the first entry and `tail` the
      last, entry `i` is followed by entry `i + 1` (the last one by NULL), so the `next`
      chain is the allocation order, and the child links spell out a valid trie. */
  predicate ShapeOk(o: JsonObject) {
    o.size == |o.entries| &&
    o.head == (if |o.entries| == 0 then Nil else 0) && o.tail == |o.entries| - 1 &&
    KeysOk(o.entries) && Chained(o.entries) && HashTrie.Valid(TrieOf(o.entries))
  }

  /** A well-formed object: its links are right and every value is well formed. */
  predicate ObjectOk(o: JsonObject)
    decreases o, 1
  {
    ShapeOk(o) &&
    forall i :: 0 <= i < |o.entries| ==> ValueOk(o.entries[i].value)
  }

  /** A well-formed value: its text is a valid slice, its union member matches its type,
      and an object or array it holds is well formed all the way down. */
  predicate ValueOk(v: JsonValue)
    decreases v, 0
  {
    SliceOk(v.text) && PayloadFits(v) && (v.u.ObjPayload? ==> ObjectOk(v.u.obj))
  }

  /** What a value denotes. */
  function Abs(v: JsonValue): (j: Json)
    ensures j.kind == v.kind && j.text == Bytes(v.text)
    decreases v, 1
  {
    var body := match v.u
      case NoPayload => Scalar
      case BoolPayload(b) => Flag(b)
      case ObjPayload(o) => Members(MembersOf(o, |o.entries|));
    Json(v.kind, Bytes(v.text), body)
  }

  /** What the first `n` entries of an object denote, in chain order. */
  function MembersOf(o: JsonObject, n: nat): (ms: seq<Member>)
    requires n <= |o.entries|
    ensures |ms| == n
    ensures forall i :: 0 <= i < n ==>
              ms[i] == Member(Bytes(o.entries[i].key), Abs(o.entries[i].value))
    decreases o, 0, n
  {
    if n == 0 then []
    else
      var e := o.entries[n - 1];
      assert e in o.entries;
      MembersOf(o, n - 1) + [Member(Bytes(e.key), Abs(e.value))]
  }

  /** The members an object denotes. */
  function Model(o: JsonObject): (ms: seq<Member>)
    ensures |ms| == |o.entries|
  {
    MembersOf(o, |o.entries|)
  }

  /** The empty object is well formed and has no members. */
  lemma EmptyObjectOk()
    ensures ObjectOk(EmptyObject) && Model(EmptyObject) == []
  {
    HashTrie.EmptyValid();
  }

  /** Where the search of json_object_upsert for `key` ends. */
  function Place(o: JsonObject, key: JsonString): (p: HashTrie.Place)
    requires ShapeOk(o) && SliceOk(key)
    ensures p.Found? ==> p.index < |o.entries| && Bytes(o.entries[p.index].key) == Bytes(key)
    ensures p.Vacant? ==> EmptySlot(o, p.parent, p.k)
  {
    HashTrie.Find(TrieOf(o.entries), Bytes(key))
  }

  /** The search finds the entry that holds the key and ends at an empty slot exactly when
      no entry does: it agrees with a lookup in the members. */
  lemma PlaceMeansMember(o: JsonObject, key: JsonString)
    requires ObjectOk(o) && SliceOk(key)
    ensures Place(o, key).Found? ==> IndexOfKey(Model(o), Bytes(key)) == Some(Place(o, key).index)
    ensures Place(o, key).Vacant? <==> Bytes(key) !in Keys(Model(o))
  {
    var t := TrieOf(o.entries);
    var ms := Model(o);
    HashTrie.KeysDistinct(t);
    HashTrie.FindAbsent(t, Bytes(key));
    match Place(o, key)
    case Found(i) =>
      IndexOfKeyFirst(ms, Bytes(key), i);
    case Vacant(_, _) =>
  }

  /** The entry the search finds holds the member stored under its key. */
  lemma PlaceFindsMember(o: JsonObject, key: JsonString)
    requires ObjectOk(o) && SliceOk(key) && Place(o, key).Found?
    ensures Lookup(Model(o), Bytes(key)) == Some(Abs(o.entries[Place(o, key).index].value))
  {
    PlaceMeansMember(o, key);
  }

  /** An OBJECT or ARRAY value denotes the members of the object it holds. */
  lemma AbsOfObject(v: JsonValue)
    requires v.u.ObjPayload?
    ensures Abs(v) == Json(v.kind, Bytes(v.text), Members(Model(v.u.obj)))
  {
  }

  /** The NULL value json_object_get returns on a miss is well formed and denotes the
      abstract NULL. */
  lemma NullValueOk()
    ensures ValueOk(NullValue) && Abs(NullValue) == NullJson
  {
  }

  /** The object a well-formed OBJECT or ARRAY value holds is well formed. */
  lemma ObjectOfValue(v: JsonValue)
    requires ValueOk(v) && (v.kind == Object || v.kind == Array)
    ensures v.u.ObjPayload? && ObjectOk(v.u.obj) && ShapeOk(v.u.obj)
  {
  }

  /** Every entry of a well-formed object holds a well-formed value. */
  lemma EntryValueOk(o: JsonObject, i: nat)
    requires ObjectOk(o) && i < |o.entries|
    ensures ValueOk(o.entries[i].value)
  {
  }

  /** No two entries of a well-formed object hold keys with the same bytes. */
  lemma ModelKeysDistinct(o: JsonObject)
    requires ObjectOk(o)
    ensures DistinctKeys(Model(o))
  {
    var t := TrieOf(o.entries);
    HashTrie.KeysDistinct(t);
    var ms := Model(o);
    forall i, j | 0 <= i < j < |ms|
      ensures ms[i].key != ms[j].key
    {
      assert ms[i].key == t[i].key && ms[j].key == t[j].key;
    }
  }

  /** `p->child[d] = n` on the arena. */
  function SetChild(es: seq<Entry>, p: nat, d: nat, n: int): (r: seq<Entry>)
    requires p < |es| && d < |es[p].child|
    ensures |r| == |es|
  {
    es[p := es[p].(child := es[p].child[d := n])]
  }

  /** `p->next = n` on the arena. */
  function SetNext(es: seq<Entry>, p: nat, n: int): (r: seq<Entry>)
    requires p < |es|
    ensures |r| == |es|
  {
    es[p := es[p].(next := n)]
  }

  /** (`parent`, `d`) names a NULL slot: the `head` of an empty object (`parent` Nil), or
      a NULL child link of an entry. */
  predicate EmptySlot(o: JsonObject, parent: int, d: nat) {
    -1 <= parent < |o.entries| && d < 4 &&
    (parent == Nil ==> |o.entries| == 0) &&
    (parent != Nil ==> |o.entries[parent].child| == 4 && o.entries[parent].child[d] == Nil)
  }

  /** The allocating branch of json_object_upsert for the empty slot (child `d` of entry
      `parent`, or `head` when `parent` is Nil) where the search ended: a zeroed entry
      holding the slice `key` is stored into the slot (`*m = obj`), linked after the last
      entry through `*map->tail` (which is `head` while the object is empty), becomes the
      new tail, and is counted. */
  function Grown(o: JsonObject, parent: int, d: nat, key: JsonString): (g: JsonObject)
    requires EmptySlot(o, parent, d) && -1 <= o.tail < |o.entries|
    ensures |g.entries| == |o.entries| + 1 && g.size == o.size + 1
  {
    var n := |o.entries|;
    var es := o.entries + [NewEntry(key)];
    var head := if parent == Nil then n else o.head;
    var es := if parent == Nil then es else SetChild(es, parent, d, n);
    var head := if o.tail == Nil then n else head;
    var es := if o.tail == Nil then es else SetNext(es, o.tail, n);
    JsonObject(head, n, o.size + 1, es)
  }

  /** The new entry is the last one and holds the caller's slice itself (not a copy), a
      zeroed value and NULL links; it is the head of an object that was empty and otherwise
      follows the old last entry; every old entry keeps its key and value. */
  lemma GrownShape(o: JsonObject, parent: int, d: nat, key: JsonString)
    requires EmptySlot(o, parent, d) && o.tail == |o.entries| - 1
    ensures var g := Grown(o, parent, d, key); var n := |o.entries|;
      g.entries[n] == NewEntry(key) && g.tail == n &&
      (n == 0 ==> g.head == 0) && (n > 0 ==> g.head == o.head && g.entries[n - 1].next == n) &&
      forall i :: 0 <= i < n ==>
        g.entries[i].key == o.entries[i].key && g.entries[i].value == o.entries[i].value
  {
  }

  /** The child links of the grown object spell the trie with the key inserted. */
  lemma GrownTrie(o: JsonObject, parent: int, d: nat, key: JsonString)
    requires HashTrie.Shaped(TrieOf(o.entries)) && EmptySlot(o, parent, d) && o.tail == |o.entries| - 1
    ensures HashTrie.Occupant(TrieOf(o.entries), parent, d) == Nil
    ensures TrieOf(Grown(o, parent, d, key).entries) ==
            HashTrie.Insert(TrieOf(o.entries), Bytes(key), HashTrie.Vacant(parent, d))
  {
    var g := Grown(o, parent, d, key);
    var n := |o.entries|;
    GrownShape(o, parent, d, key);
    var tg := TrieOf(g.entries);
    var ti := HashTrie.Insert(TrieOf(o.entries), Bytes(key), HashTrie.Vacant(parent, d));
    forall i | 0 <= i < |tg|
      ensures tg[i] == ti[i]
    {
      if i < n && i != parent {
        assert g.entries[i].child == o.entries[i].child;
      }
    }
  }

  /** Entry `i` is followed by entry `i + 1`, the last one by NULL. */
  predicate Chained(es: seq<Entry>) {
    forall i :: 0 <= i < |es| ==> es[i].next == (if i + 1 < |es| then i + 1 else Nil)
  }

  /** The new entry is linked after the old last one and ends the chain. */
  lemma GrownChained(o: JsonObject, parent: int, d: nat, key: JsonString)
    requires EmptySlot(o, parent, d) && o.tail == |o.entries| - 1 && Chained(o.entries)
    ensures Chained(Grown(o, parent, d, key).entries)
  {
    var g := Grown(o, parent, d, key);
    var n := |o.entries|;
    forall i | 0 <= i <= n
      ensures g.entries[i].next == (if i + 1 <= n then i + 1 else Nil)
    {
      if i < n - 1 {
        assert g.entries[i].next == o.entries[i].next;
      }
    }
  }

  /** The grown object has the links of a well-formed object. */
  lemma GrownShapeOk(o: JsonObject, parent: int, d: nat, key: JsonString)
    requires ShapeOk(o) && SliceOk(key) && Place(o, key) == HashTrie.Vacant(parent, d)
    ensures ShapeOk(Grown(o, parent, d, key))
  {
    var g := Grown(o, parent, d, key);
    GrownShape(o, parent, d, key);
    GrownTrie(o, parent, d, key);
    HashTrie.InsertValid(TrieOf(o.entries), Bytes(key));
    assert Chained(o.entries);
    GrownChained(o, parent, d, key);
    forall i | 0 <= i < |g.entries|
      ensures SliceOk(g.entries[i].key)
    {
      if i < |o.entries| {
        assert SliceOk(o.entries[i].key);
      }
    }
  }

  /** The values of the grown object are the old ones and a zeroed one, all well formed. */
  lemma GrownValuesOk(o: JsonObject, parent: int, d: nat, key: JsonString)
    requires EmptySlot(o, parent, d) && o.tail == |o.entries| - 1
    requires forall i :: 0 <= i < |o.entries| ==> ValueOk(o.entries[i].value)
    ensures var g := Grown(o, parent, d, key);
            forall i :: 0 <= i < |g.entries| ==> ValueOk(g.entries[i].value)
  {
    GrownShape(o, parent, d, key);
  }

  /** Storing a new entry for an absent key keeps the object well formed. */
  lemma GrownOk(o: JsonObject, parent: int, d: nat, key: JsonString)
    requires ObjectOk(o) && SliceOk(key) && Place(o, key) == HashTrie.Vacant(parent, d)
    ensures ObjectOk(Grown(o, parent, d, key))
  {
    GrownShapeOk(o, parent, d, key);
    GrownValuesOk(o, parent, d, key);
  }

  /** The members of the grown object are the old ones and, at the end, the new key with a
      zeroed value. */
  lemma GrownModel(o: JsonObject, parent: int, d: nat, key: JsonString)
    requires EmptySlot(o, parent, d) && o.tail == |o.entries| - 1
    ensures Model(Grown(o, parent, d, key)) == Model(o) + [Member(Bytes(key), ZeroJson)]
  {
    var g := Grown(o, parent, d, key);
    GrownShape(o, parent, d, key);
    var mg := Model(g);
    var mo := Model(o);
    assert forall i :: 0 <= i < |mo| ==> mg[i] == mo[i];
  }

  /** json_object_upsert. The search starts at slot `m = &map->head` and, while `*m` is an
      entry whose key differs, moves on to `&(*m)->child[h >> 62]`, shifting the hash left
      by two bits. An entry whose key has the same bytes is returned and nothing changes.
      At a NULL slot, without an allocator (`alloc` false) NULL is returned and nothing
      changes; with one, a new entry is stored there (Grown) and returned. */
  method Upsert(obj: JsonObject, key: JsonString, alloc: bool) returns (r: int, obj': JsonObject)
    requires ObjectOk(obj) && SliceOk(key)
    ensures Place(obj, key).Found? ==> r == Place(obj, key).index && obj' == obj
    ensures Place(obj, key).Vacant? && !alloc ==> r == Nil && obj' == obj
    ensures Place(obj, key).Vacant? && alloc ==>
              r == |obj.entries| && obj' == Grown(obj, Place(obj, key).parent, Place(obj, key).k, key)
  {
    var h := Hash64(key);
    ghost var t := TrieOf(obj.entries);
    ghost var K := Bytes(key);
    var parent := Nil;
    var d := 0;
    var cur := obj.head;
    while true
      invariant -1 <= parent < |obj.entries| && d < 4 && (parent == Nil ==> d == 0)
      invariant cur == HashTrie.Occupant(t, parent, d)
      invariant HashTrie.Locate(t, parent, d, K, h) == HashTrie.Find(t, K)
      decreases |obj.entries| - parent
    {
      if cur == Nil {
        if !alloc {
          return Nil, obj;
        }
        return |obj.entries|, Grown(obj, parent, d, key);
      }
      if Equal(key, obj.entries[cur].key) {
        return cur, obj;
      }
      parent := cur;
      d := HashTrie.Digit(h);
      cur := obj.entries[cur].child[d];
      h := h << 2;
    }
  }

  /** The effect of json_object_upsert on a well-formed object, in terms of its members:
      the entry holding a key with the same bytes is returned and nothing changes; an absent
      key gives NULL without an allocator, and otherwise a new last entry holding the
      caller's slice itself, a zeroed value and NULL links, counted in `size`; the object
      stays well formed. */
  lemma UpsertEffect(obj: JsonObject, key: JsonString, alloc: bool, r: int, obj': JsonObject)
    requires ObjectOk(obj) && SliceOk(key)
    requires Place(obj, key).Found? ==> r == Place(obj, key).index && obj' == obj
    requires Place(obj, key).Vacant? && !alloc ==> r == Nil && obj' == obj
    requires Place(obj, key).Vacant? && alloc ==>
              r == |obj.entries| && obj' == Grown(obj, Place(obj, key).parent, Place(obj, key).k, key)
    ensures ObjectOk(obj')
    ensures Bytes(key) in Keys(Model(obj)) ==>
              obj' == obj && IndexOfKey(Model(obj), Bytes(key)) == Some(r)
    ensures Bytes(key) !in Keys(Model(obj)) && !alloc ==> r == Nil && obj' == obj
    ensures Bytes(key) !in Keys(Model(obj)) && alloc ==>
              r == |obj.entries| && obj'.entries[r] == NewEntry(key) && obj'.size == obj.size + 1 &&
              Model(obj') == Model(obj) + [Member(Bytes(key), ZeroJson)]
  {
    PlaceMeansMember(obj, key);
    if Place(obj, key).Vacant? && alloc {
      var at := Place(obj, key);
      GrownOk(obj, at.parent, at.k, key);
      GrownShape(obj, at.parent, at.k, key);
      GrownModel(obj, at.parent, at.k, key);
    }
  }

  /** After a key has been inserted, the search for the same bytes finds the new entry. */
  lemma InsertedIsFound(obj: JsonObject, key: JsonString, probe: JsonString)
    requires ObjectOk(obj) && SliceOk(key) && SliceOk(probe) && Bytes(probe) == Bytes(key)
    requires Place(obj, key).Vacant?
    ensures var g := Grown(obj, Place(obj, key).parent, Place(obj, key).k, key);
      ObjectOk(g) && Place(g, probe) == HashTrie.Found(|obj.entries|)
  {
    var at := Place(obj, key);
    GrownOk(obj, at.parent, at.k, key);
    GrownTrie(obj, at.parent, at.k, key);
    HashTrie.InsertValid(TrieOf(obj.entries), Bytes(key));
  }

  /** `entry->value = v` for entry `i`. */
  function Assign(o: JsonObject, i: nat, v: JsonValue): (r: JsonObject)
    requires i < |o.entries|
    ensures |r.entries| == |o.entries| && r.entries[i].value == v
    ensures r.entries[i].key == o.entries[i].key && r.entries[i].child == o.entries[i].child &&
            r.entries[i].next == o.entries[i].next
    ensures r.head == o.head && r.tail == o.tail && r.size == o.size
    ensures forall j :: 0 <= j < |o.entries| && j != i ==> r.entries[j] == o.entries[j]
  {
    o.(entries := o.entries[i := o.entries[i].(value := v)])
  }

  /** Assigning a well-formed value keeps the object well formed. */
  lemma AssignOk(o: JsonObject, i: nat, v: JsonValue)
    requires ObjectOk(o) && i < |o.entries| && ValueOk(v)
    ensures ObjectOk(Assign(o, i, v))
  {
    var r := Assign(o, i, v);
    assert TrieOf(r.entries) == TrieOf(o.entries);
    assert Chained(r.entries);
  }

  /** Assigning replaces the value of member `i` only. */
  lemma AssignModel(o: JsonObject, i: nat, v: JsonValue)
    requires i < |o.entries|
    ensures Model(Assign(o, i, v)) == Model(o)[i := Member(Model(o)[i].key, Abs(v))]
  {
  }

  /** Assigning to the entry json_object_upsert returned with an allocator puts the value
      under the key, as JsonTree.Put does. */
  lemma AssignAfterUpsert(obj: JsonObject, key: JsonString, v: JsonValue, r: int, m: JsonObject)
    requires Bytes(key) in Keys(Model(obj)) ==>
               m == obj && IndexOfKey(Model(obj), Bytes(key)) == Some(r)
    requires Bytes(key) !in Keys(Model(obj)) ==>
               r == |obj.entries| && Model(m) == Model(obj) + [Member(Bytes(key), ZeroJson)]
    ensures 0 <= r < |m.entries|
    ensures Model(Assign(m, r, v)) == Put(Model(obj), Bytes(key), Abs(v))
  {
    AssignModel(m, r, v);
    if Bytes(key) !in Keys(Model(obj)) {
      assert Model(m)[r].key == Bytes(key);
    }
  }

  /** `json_object_upsert(&obj, key, allocator)->value = v`, as the parser uses it: the
      members become those of JsonTree.Put, so a repeated key overwrites its value in
      place and a new key is appended. */
  method Store(obj: JsonObject, key: JsonString, v: JsonValue) returns (obj': JsonObject)
    requires ObjectOk(obj) && SliceOk(key) && ValueOk(v)
    ensures ObjectOk(obj')
    ensures Model(obj') == Put(Model(obj), Bytes(key), Abs(v))
  {
    var r, m := Upsert(obj, key, true);
    UpsertEffect(obj, key, true, r, m);
    AssignAfterUpsert(obj, key, v, r, m);
    AssignOk(m, r, v);
    obj' := Assign(m, r, v);
  }

  /** JSON_IS_ITERABLE: the value is an object or an array. On a well-formed value that
      is exactly when the union's `object` member is the one in use, so the `head` that
      JSON_FOREACH starts from is meaningful. */
  predicate IsIterable(v: JsonValue): (r: bool)
    ensures ValueOk(v) ==> (r <==> v.u.ObjPayload?)
  {
    v.kind == Object || v.kind == Array
  }

  /** JSON_FOREACH: start at the head of the union's object and follow `next` while the
      value is iterable and the entry is not NULL. On a well-formed value this visits no
      entry unless the value is an object or an array, and otherwise every entry once, in
      insertion order. */
  method Foreach(v: JsonValue) returns (visited: seq<Entry>)
    requires ValueOk(v)
    ensures !IsIterable(v) ==> visited == []
    ensures IsIterable(v) ==> visited == v.u.obj.entries && |visited| == v.u.obj.size
  {
    visited := [];
    var it := if v.u.ObjPayload? then v.u.obj.head else Nil;
    while IsIterable(v) && it != Nil
      invariant IsIterable(v) ==> |visited| <= |v.u.obj.entries|
      invariant IsIterable(v) ==> visited == v.u.obj.entries[..|visited|]
      invariant IsIterable(v) ==> it == (if |visited| < |v.u.obj.entries| then |visited| else Nil)
      invariant !IsIterable(v) ==> visited == []
      decreases if IsIterable(v) then |v.u.obj.entries| - |visited| else 0
    {
      visited := visited + [v.u.obj.entries[it]];
      it := v.u.obj.entries[it].next;
    }
  }
}
