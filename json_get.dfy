/** json_object_get of json/json.c: the value at a dotted path, looked up segment by
    segment with json_object_upsert and no allocator. GetSpec states the same navigation on
    the abstract values of module JsonTree. */
module JsonGet {
  import opened CStrings
  import opened JsonStrings
  import opened JsonTree
  import opened JsonObjects

  /** The first segment of the C string at path + off, as json_object_get cuts it: with a
      '.', the slice of the path before the first one, the position of that '.' and the
      offset just after it (`sep + 1`); with none, json_string of the whole path. Either
      way the slice views the path itself. */
  function Segment(path: seq<byte>, off: nat): (r: (JsonString, Option<nat>, nat))
    requires NulTerminated(path, off)
    ensures r.1 == IndexOf(CStr(path, off), DOT)
    ensures SliceOk(r.0) && r.0.data == At(path, off)
    ensures r.1.Some? ==> Bytes(r.0) == CStr(path, off)[..r.1.value] && r.2 == off + r.1.value + 1
    ensures r.1.None? ==> Bytes(r.0) == CStr(path, off)
  {
    var s := CStr(path, off);
    var sep := IndexOf(s, DOT);
    if sep.Some? then
      var str := JsonString(sep.value, At(path, off));
      assert Bytes(str) == s[..sep.value];
      (str, sep, off + sep.value + 1)
    else (FromCString(At(path, off)), sep, off)
  }

  /** After the '.', the rest of the path is a C string of its own: the bytes of the
      path after the first '.'. */
  lemma SegmentRest(path: seq<byte>, off: nat)
    requires NulTerminated(path, off)
    ensures var r := Segment(path, off);
            r.1.Some? ==>
              off < r.2 && NulTerminated(path, r.2) && CStr(path, r.2) == CStr(path, off)[r.1.value + 1..]
  {
    var r := Segment(path, off);
    if r.1.Some? {
      CStrSuffix(path, off, r.1.value + 1);
    }
  }

  /** json_object_get(jv, path + off). A value that is not an OBJECT yields a NULL value.
      Otherwise the first segment of the path is looked up without an allocator; a
      missing key yields a NULL value. When the path went on after a '.' and the value
      found is an OBJECT, the rest of the path is looked up in it; otherwise the value
      found is the result, and the rest of the path is ignored. */
  function Get(jv: JsonValue, path: seq<byte>, off: nat): (r: JsonValue)
    requires ValueOk(jv) && NulTerminated(path, off)
    decreases |path| - off
  {
    if jv.kind != Object then NullValue
    else
      ObjectOfValue(jv);
      SegmentRest(path, off);
      var seg := Segment(path, off);
      match Place(jv.u.obj, seg.0)
      case Vacant(_, _) => NullValue
      case Found(i) =>
        EntryValueOk(jv.u.obj, i);
        var item := jv.u.obj.entries[i].value;
        if seg.1.Some? && item.kind == Object then Get(item, path, seg.2) else item
  }

  /** The value json_object_get returns is well formed: a NULL value or a value stored in
      a well-formed object. */
  lemma {:induction false} GetOk(jv: JsonValue, path: seq<byte>, off: nat)
    requires ValueOk(jv) && NulTerminated(path, off)
    ensures ValueOk(Get(jv, path, off))
    decreases |path| - off
  {
    NullValueOk();
    if jv.kind == Object {
      ObjectOfValue(jv);
      var seg := Segment(path, off);
      if Place(jv.u.obj, seg.0).Found? {
        GetFound(jv, path, off);
        var item := jv.u.obj.entries[Place(jv.u.obj, seg.0).index].value;
        if seg.1.Some? && item.kind == Object {
          SegmentRest(path, off);
          GetOk(item, path, seg.2);
        }
      }
    }
  }

  /** Navigation on abstract values: the same steps as Get, with the key looked up among
      the members. */
  function GetSpec(j: Json, path: seq<byte>): (r: Json)
    decreases |path|
  {
    if j.kind != Object || !j.body.Members? then NullJson
    else
      var sep := IndexOf(path, DOT);
      var key := if sep.Some? then path[..sep.value] else path;
      match Lookup(j.body.ms, key)
      case None => NullJson
      case Some(v) =>
        if sep.Some? && v.kind == Object then GetSpec(v, path[sep.value + 1..]) else v
  }

  /** The step Get takes when the first segment is found: the value found, or the rest
      of the path looked up in it. */
  lemma GetFound(jv: JsonValue, path: seq<byte>, off: nat)
    requires ValueOk(jv) && NulTerminated(path, off) && jv.kind == Object
    requires jv.u.ObjPayload? && ShapeOk(jv.u.obj) && Place(jv.u.obj, Segment(path, off).0).Found?
    ensures var seg := Segment(path, off);
            var item := jv.u.obj.entries[Place(jv.u.obj, seg.0).index].value;
            ValueOk(item) &&
            Get(jv, path, off) == if seg.1.Some? && item.kind == Object then Get(item, path, seg.2) else item
  {
  }

  /** The same step on abstract values. */
  lemma GetSpecFound(j: Json, path: seq<byte>, v: Json)
    requires j.kind == Object && j.body.Members?
    requires var sep := IndexOf(path, DOT);
             Lookup(j.body.ms, if sep.Some? then path[..sep.value] else path) == Some(v)
    ensures var sep := IndexOf(path, DOT);
            GetSpec(j, path) ==
              if sep.Some? && v.kind == Object then GetSpec(v, path[sep.value + 1..]) else v
  {
  }

  /** Get on the stored value denotes GetSpec on the value it denotes. */
  lemma {:induction false} GetAgrees(jv: JsonValue, path: seq<byte>, off: nat)
    requires ValueOk(jv) && NulTerminated(path, off)
    ensures Abs(Get(jv, path, off)) == GetSpec(Abs(jv), CStr(path, off))
    decreases |path| - off
  {
    if jv.kind == Object {
      ObjectOfValue(jv);
      AbsOfObject(jv);
      NullValueOk();
      var o := jv.u.obj;
      SegmentRest(path, off);
      var seg := Segment(path, off);
      var s := CStr(path, off);
      match Place(o, seg.0)
      case Vacant(_, _) =>
        PlaceMeansMember(o, seg.0);
      case Found(i) =>
        PlaceFindsMember(o, seg.0);
        GetFound(jv, path, off);
        var item := o.entries[i].value;
        GetSpecFound(Abs(jv), s, Abs(item));
        if seg.1.Some? && item.kind == Object {
          GetAgrees(item, path, seg.2);
        }
    }
  }

  /** A path whose first segment names a value that is not an OBJECT yields that value,
      whatever follows the '.': "layers.0" does not descend into an array. */
  lemma GetStopsAtNonObject(j: Json, key: seq<byte>, rest: seq<byte>, v: Json)
    requires DOT !in key && j.kind == Object && j.body.Members?
    requires Lookup(j.body.ms, key) == Some(v) && v.kind != Object
    ensures GetSpec(j, key + [DOT] + rest) == v
  {
    var path := key + [DOT] + rest;
    assert path[|key|] == DOT && path[..|key|] == key;
    assert IndexOf(path, DOT) == Some(|key|);
  }

  /** A path through OBJECTs descends one segment at a time. */
  lemma GetDescends(j: Json, key: seq<byte>, rest: seq<byte>, v: Json)
    requires DOT !in key && j.kind == Object && j.body.Members?
    requires Lookup(j.body.ms, key) == Some(v) && v.kind == Object
    ensures GetSpec(j, key + [DOT] + rest) == GetSpec(v, rest)
  {
    var path := key + [DOT] + rest;
    assert path[|key|] == DOT && path[..|key|] == key;
    assert IndexOf(path, DOT) == Some(|key|);
    assert path[|key| + 1..] == rest;
  }

  /** A path without '.' is a single lookup; a missing key gives a NULL value. */
  lemma GetSingle(j: Json, key: seq<byte>)
    requires DOT !in key && j.kind == Object && j.body.Members?
    ensures GetSpec(j, key) == match Lookup(j.body.ms, key) case None => NullJson case Some(v) => v
  {
  }
}
