/** The abstract value a parsed JSON document denotes: what a `JsonValue` of json/json.h and
    the entries reachable from it mean, with the heap (pointers, the hash trie, slices)
    abstracted away. The members of an object or array are kept in insertion order, which
    is the order of the `next` chain. */
module JsonTree {
  import opened CStrings

  /** The `type` field of a `JsonValue`: 0 in an entry that was only zeroed, otherwise the
      token kind of pdjson's `enum json_type` (JSON_ERROR = 1 up to JSON_NULL = 11). */
  datatype JsonType =
    | Unset | Error | Done | Object | ObjectEnd | Array | ArrayEnd
    | String | Number | True | False | Null

  /** What a value carries besides its type and text: the boolean of TRUE/FALSE, the
      members of OBJECT/ARRAY, nothing otherwise (a number's float is not modelled). */
  datatype Body = Scalar | Flag(b: bool) | Members(ms: seq<Member>)

  /** A value: its type, the bytes of its token text and its payload. */
  datatype Json = Json(kind: JsonType, text: seq<byte>, body: Body)

  /** One entry of an object or array: its key bytes and its value. */
  datatype Member = Member(key: seq<byte>, value: Json)

  /** `(JsonValue) { .type = JSON_NULL }`: what json_object_get returns on a miss. */
  const NullJson := Json(Null, [], Scalar)

  /** The value of an entry json_object_upsert has just allocated (all bytes zero). */
  const ZeroJson := Json(Unset, [], Scalar)

  function Keys(ms: seq<Member>): (ks: seq<seq<byte>>)
    ensures |ks| == |ms| && forall i :: 0 <= i < |ms| ==> ks[i] == ms[i].key
  {
    seq(|ms|, i requires 0 <= i < |ms| => ms[i].key)
  }

  /** No key occurs twice. */
  predicate DistinctKeys(ms: seq<Member>) {
    forall i, j :: 0 <= i < j < |ms| ==> ms[i].key != ms[j].key
  }

  /** The position of the first member with the given key. */
  function IndexOfKey(ms: seq<Member>, key: seq<byte>): (r: Option<nat>)
    ensures r.Some? ==> r.value < |ms| && ms[r.value].key == key &&
                        forall i :: 0 <= i < r.value ==> ms[i].key != key
    ensures r.None? <==> key !in Keys(ms)
  {
    if |ms| == 0 then None
    else if ms[0].key == key then Some(0)
    else
      var r := IndexOfKey(ms[1..], key);
      assert Keys(ms) == [ms[0].key] + Keys(ms[1..]);
      if r.None? then None else Some(r.value + 1)
  }

  /** The value stored under a key. */
  function Lookup(ms: seq<Member>, key: seq<byte>): (r: Option<Json>)
    ensures r.None? <==> key !in Keys(ms)
    ensures r.Some? ==> exists i :: 0 <= i < |ms| && ms[i] == Member(key, r.value)
  {
    match IndexOfKey(ms, key)
    case None => None
    case Some(i) => Some(ms[i].value)
  }

  /** `json_object_upsert(obj, key, allocator)->value = v`: overwrite the value of the
      member that has the key, or append a new member at the end of the chain. */
  function Put(ms: seq<Member>, key: seq<byte>, v: Json): (r: seq<Member>)
    ensures |r| == if key in Keys(ms) then |ms| else |ms| + 1
  {
    match IndexOfKey(ms, key)
    case Some(i) => ms[i := Member(key, v)]
    case None => ms + [Member(key, v)]
  }

  /** Put keeps the order of the keys and appends a new key at the end. */
  lemma PutKeys(ms: seq<Member>, key: seq<byte>, v: Json)
    ensures key in Keys(ms) ==> Keys(Put(ms, key, v)) == Keys(ms)
    ensures key !in Keys(ms) ==> Keys(Put(ms, key, v)) == Keys(ms) + [key]
  {
    var r := Put(ms, key, v);
    if key in Keys(ms) {
      assert Keys(r) == Keys(ms);
    } else {
      assert Keys(r) == Keys(ms) + [key];
    }
  }

  /** After Put the key holds the new value and every other key what it held before:
      the last write to a key wins. */
  lemma PutLookup(ms: seq<Member>, key: seq<byte>, v: Json, k: seq<byte>)
    ensures Lookup(Put(ms, key, v), k) == if k == key then Some(v) else Lookup(ms, k)
  {
    match IndexOfKey(ms, key)
    case Some(i) =>
      if k == key {
        IndexOfKeyFirst(ms[i := Member(key, v)], key, i);
      } else {
        IndexOfKeyOverwrite(ms, i, key, v, k);
      }
    case None =>
      IndexOfKeyAppend(ms, Member(key, v), k);
  }

  /** Put never makes a key occur twice. */
  lemma PutDistinct(ms: seq<Member>, key: seq<byte>, v: Json)
    requires DistinctKeys(ms)
    ensures DistinctKeys(Put(ms, key, v))
  {
    PutKeys(ms, key, v);
    var r := Put(ms, key, v);
    forall i, j | 0 <= i < j < |r|
      ensures r[i].key != r[j].key
    {
      assert Keys(r)[i] == r[i].key && Keys(r)[j] == r[j].key;
    }
  }

  /** The first member holding a key is the one IndexOfKey finds. */
  lemma IndexOfKeyFirst(ms: seq<Member>, key: seq<byte>, i: nat)
    requires i < |ms| && ms[i].key == key && forall j :: 0 <= j < i ==> ms[j].key != key
    ensures IndexOfKey(ms, key) == Some(i)
  {
    assert key in Keys(ms) by {
      assert Keys(ms)[i] == key;
    }
    var r := IndexOfKey(ms, key);
    assert r.Some?;
    assert r.value == i;
  }

  /** Overwriting member `i` does not move the first occurrence of another key. */
  lemma {:induction false} IndexOfKeyOverwrite(ms: seq<Member>, i: nat, key: seq<byte>, v: Json, k: seq<byte>)
    requires i < |ms| && ms[i].key == key && k != key
    ensures IndexOfKey(ms[i := Member(key, v)], k) == IndexOfKey(ms, k)
  {
    if ms[0].key != k {
      if i == 0 {
        assert ms[i := Member(key, v)][1..] == ms[1..];
      } else {
        assert ms[i := Member(key, v)][1..] == ms[1..][i - 1 := Member(key, v)];
        IndexOfKeyOverwrite(ms[1..], i - 1, key, v, k);
      }
    }
  }

  /** Appending a member does not move the first occurrence of a key already present, and
      makes an absent key found at the end. */
  lemma {:induction false} IndexOfKeyAppend(ms: seq<Member>, m: Member, k: seq<byte>)
    ensures IndexOfKey(ms + [m], k) ==
      (if k in Keys(ms) then IndexOfKey(ms, k) else if m.key == k then Some(|ms|) else None)
  {
    if |ms| > 0 && ms[0].key != k {
      assert (ms + [m])[1..] == ms[1..] + [m];
      assert Keys(ms) == [ms[0].key] + Keys(ms[1..]);
      IndexOfKeyAppend(ms[1..], m, k);
    }
  }

  /** Put stores `Member(key, v)` and otherwise keeps members of `ms`. */
  lemma PutMembers(ms: seq<Member>, key: seq<byte>, v: Json)
    ensures forall m :: m in Put(ms, key, v) ==> m == Member(key, v) || m in ms
  {
    match IndexOfKey(ms, key)
    case Some(i) =>
      forall m | m in ms[i := Member(key, v)]
        ensures m == Member(key, v) || m in ms
      {
        var j :| 0 <= j < |ms| && ms[i := Member(key, v)][j] == m;
        if j != i {
          assert m == ms[j];
        }
      }
    case None =>
  }

  /** Keys are distinct in every object and array of the tree. */
  predicate WellKeyed(j: Json) {
    j.body.Members? ==>
      DistinctKeys(j.body.ms) && forall m :: m in j.body.ms ==> WellKeyed(m.value)
  }
}
