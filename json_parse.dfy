/** parse_json_value and parse_json of json/json.c: a recursive descent over pdjson's
    tokens that builds `JsonValue`s, storing the members of objects and arrays with
    json_object_upsert. ParseSpec states, on the abstract values of module JsonTree, what
    a parse yields and where it leaves the stream; ParseValue is the imperative parser,
    proved to agree with it. */
module JsonParse {
  import opened CStrings
  import opened JsonStrings
  import opened JsonTree
  import opened JsonObjects
  import opened TokenStreams

  /** `if (strval.length > 0) strval.length--`: pdjson counts the NUL that ends a string
      in the length it reports, and the parser drops it. */
  function Chop(s: seq<byte>): (r: seq<byte>)
    ensures r <= s && |r| == if |s| > 0 then |s| - 1 else 0
    ensures |s| > 0 && s[|s| - 1] == NUL && NUL !in s[..|s| - 1] ==>
              NulTerminated(s, 0) && r == CStr(s, 0)
  {
    if |s| > 0 then
      var r := s[..|s| - 1];
      assert s[|s| - 1] == NUL && NUL !in r ==> NulTerminated(s, 0) && r == CStr(s, 0) by {
        if s[|s| - 1] == NUL && NUL !in r {
          CStrOfPrefix(s, r);
        }
      }
      r
    else s
  }

  // ---------------------------------------------------------------------------
  // snprintf(array_key, sizeof(array_key), "%d", index)

  const ZeroDigit: byte := 0x30

  /** A byte that is an ASCII decimal digit. */
  predicate IsDigit(b: byte) {
    ZeroDigit <= b <= ZeroDigit + 9
  }

  /** The decimal digits of a non-negative index, most significant first, with no leading
      zero: what "%d" prints. */
  function Decimal(n: nat): (s: seq<byte>)
    ensures |s| > 0 && forall i :: 0 <= i < |s| ==> IsDigit(s[i])
    ensures (s[0] == ZeroDigit) <==> n == 0
    ensures n == 0 ==> s == [ZeroDigit]
  {
    if n < 10 then [ZeroDigit + n as byte]
    else Decimal(n / 10) + [ZeroDigit + (n % 10) as byte]
  }

  /** The number a string of decimal digits denotes. */
  function DecimalValue(s: seq<byte>): nat
    requires forall i :: 0 <= i < |s| ==> IsDigit(s[i])
  {
    if |s| == 0 then 0
    else
      assert IsDigit(s[|s| - 1]);
      DecimalValue(s[..|s| - 1]) * 10 + (s[|s| - 1] - ZeroDigit) as nat
  }

  /** Reading back what "%d" printed gives the index. */
  lemma {:induction false} DecimalRoundTrip(n: nat)
    ensures DecimalValue(Decimal(n)) == n
  {
    if n >= 10 {
      var s := Decimal(n);
      assert s[..|s| - 1] == Decimal(n / 10);
      DecimalRoundTrip(n / 10);
    }
  }

  /** Different indexes print differently, so array keys never collide. */
  lemma DecimalInjective(i: nat, j: nat)
    requires Decimal(i) == Decimal(j)
    ensures i == j
  {
    DecimalRoundTrip(i);
    DecimalRoundTrip(j);
  }

  /** The keys of an array with `n` elements: "0", "1", ..., in order. */
  function IndexKeys(n: nat): (ks: seq<seq<byte>>)
    ensures |ks| == n && forall i :: 0 <= i < n ==> ks[i] == Decimal(i)
  {
    seq(n, i requires 0 <= i < n => Decimal(i))
  }

  // ---------------------------------------------------------------------------
  // What a parse yields

  /** parse_json_value from cursor `c`: the value read and the cursor after it. The first
      token gives the type, and its string, less the counted NUL, the text. A TRUE or FALSE
      token carries the boolean of its kind; an OBJECT or ARRAY token is followed by its
      members up to the closing token, which is consumed too; any other kind carries
      nothing more (a number's float is not modelled). */
  function ParseSpec(ts: seq<Token>, c: Cursor): (r: (Json, Cursor))
    ensures r.0.kind == NextOf(ts, c).0 && r.0.text == Chop(NextOf(ts, c).1.text)
    ensures r.0.body.Flag? <==> r.0.kind == True || r.0.kind == False
    ensures r.0.body.Flag? ==> r.0.body.b == (r.0.kind == True)
    ensures r.0.body.Members? <==> r.0.kind == Object || r.0.kind == Array
    ensures Measure(ts, r.1) <= Measure(ts, c)
    ensures !c.error ==> Measure(ts, r.1) < Measure(ts, c)
    ensures c.error ==> r.0.kind == Error && r.1 == c
    decreases Measure(ts, c), 1
  {
    var n := NextOf(ts, c);
    var kind := n.0;
    var text := Chop(n.1.text);
    if kind == True || kind == False then
      (Json(kind, text, Flag(kind == True)), n.1)
    else if kind == Object then
      var l := ObjectLoop(ts, n.1, []);
      (Json(kind, text, Members(l.0)), NextOf(ts, l.1).1)
    else if kind == Array then
      var l := ArrayLoop(ts, n.1, [], 0);
      (Json(kind, text, Members(l.0)), NextOf(ts, l.1).1)
    else
      (Json(kind, text, Scalar), n.1)
  }

  /** The member loop of an object from cursor `c`, with members `ms` stored so far: while
      the next token is not OBJECT_END and no error is set, read a key token (its string,
      less the counted NUL, is the key), parse a value and store it under the key. */
  function ObjectLoop(ts: seq<Token>, c: Cursor, ms: seq<Member>): (r: (seq<Member>, Cursor))
    ensures Measure(ts, r.1) <= Measure(ts, c)
    decreases Measure(ts, c), 0
  {
    var p := PeekOf(ts, c);
    if p.0 == ObjectEnd || p.1.error then (ms, p.1)
    else
      var k := NextOf(ts, p.1);
      var v := ParseSpec(ts, k.1);
      ObjectLoop(ts, v.1, Put(ms, Chop(k.1.text), v.0))
  }

  /** The element loop of an array from cursor `c`, with members `ms` stored so far and
      `index` the next index: while the next token is not ARRAY_END and no error is set,
      parse a value and store it under the decimal digits of the index. */
  function ArrayLoop(ts: seq<Token>, c: Cursor, ms: seq<Member>, index: nat): (r: (seq<Member>, Cursor))
    ensures Measure(ts, r.1) <= Measure(ts, c)
    decreases Measure(ts, c), 2
  {
    var p := PeekOf(ts, c);
    if p.0 == ArrayEnd || p.1.error then (ms, p.1)
    else
      var v := ParseSpec(ts, p.1);
      ArrayLoop(ts, v.1, Put(ms, Decimal(index), v.0), index + 1)
  }

  /** A parse never produces a repeated key, at any depth: a repeated object key
      overwrites the earlier value instead of adding a member. */
  lemma {:induction false} ParseWellKeyed(ts: seq<Token>, c: Cursor)
    ensures WellKeyed(ParseSpec(ts, c).0)
    decreases Measure(ts, c), 1
  {
    var n := NextOf(ts, c);
    if n.0 == Object {
      ObjectLoopKeys(ts, n.1, []);
    } else if n.0 == Array {
      ArrayLoopKeys(ts, n.1, [], 0);
    }
  }

  /** The member loop keeps the members it started with, in place and in order (a
      repeated key may change their values), adds none twice, and only adds well keyed
      values. */
  lemma {:induction false} ObjectLoopKeys(ts: seq<Token>, c: Cursor, ms: seq<Member>)
    requires DistinctKeys(ms) && forall m :: m in ms ==> WellKeyed(m.value)
    ensures var r := ObjectLoop(ts, c, ms).0;
            DistinctKeys(r) && (forall m :: m in r ==> WellKeyed(m.value)) &&
            Keys(ms) <= Keys(r)
    decreases Measure(ts, c), 0
  {
    var p := PeekOf(ts, c);
    if !(p.0 == ObjectEnd || p.1.error) {
      var k := NextOf(ts, p.1);
      var v := ParseSpec(ts, k.1);
      var key := Chop(k.1.text);
      ParseWellKeyed(ts, k.1);
      PutDistinct(ms, key, v.0);
      PutMembers(ms, key, v.0);
      PutKeys(ms, key, v.0);
      ObjectLoopKeys(ts, v.1, Put(ms, key, v.0));
    }
  }

  /** The element loop of an array that has stored `index` elements under "0" .. "index-1"
      goes on with "index", "index+1", ...: the keys of a parsed array are the decimal
      indexes in order, so they are distinct and every element is appended. */
  lemma {:induction false} ArrayLoopKeys(ts: seq<Token>, c: Cursor, ms: seq<Member>, index: nat)
    requires Keys(ms) == IndexKeys(index) && forall m :: m in ms ==> WellKeyed(m.value)
    ensures var r := ArrayLoop(ts, c, ms, index).0;
            Keys(r) == IndexKeys(|r|) && |r| >= index && DistinctKeys(r) &&
            forall m :: m in r ==> WellKeyed(m.value)
    decreases Measure(ts, c), 2
  {
    var p := PeekOf(ts, c);
    if p.0 == ArrayEnd || p.1.error {
      IndexKeysDistinct(ms, index);
    } else {
      var v := ParseSpec(ts, p.1);
      ParseWellKeyed(ts, p.1);
      PutNextIndex(ms, index, v.0);
      ArrayLoopKeys(ts, v.1, Put(ms, Decimal(index), v.0), index + 1);
    }
  }

  /** The member loop ends only at an OBJECT_END token or with the error flag set. */
  lemma {:induction false} ObjectLoopStops(ts: seq<Token>, c: Cursor, ms: seq<Member>)
    ensures var r := ObjectLoop(ts, c, ms).1;
            r.error || TokenAt(ts, r.pos).kind == ObjectEnd
    decreases Measure(ts, c)
  {
    var p := PeekOf(ts, c);
    if !(p.0 == ObjectEnd || p.1.error) {
      var k := NextOf(ts, p.1);
      var v := ParseSpec(ts, k.1);
      ObjectLoopStops(ts, v.1, Put(ms, Chop(k.1.text), v.0));
    }
  }

  /** The element loop ends only at an ARRAY_END token or with the error flag set. */
  lemma {:induction false} ArrayLoopStops(ts: seq<Token>, c: Cursor, ms: seq<Member>, index: nat)
    ensures var r := ArrayLoop(ts, c, ms, index).1;
            r.error || TokenAt(ts, r.pos).kind == ArrayEnd
    decreases Measure(ts, c)
  {
    var p := PeekOf(ts, c);
    if !(p.0 == ArrayEnd || p.1.error) {
      var v := ParseSpec(ts, p.1);
      ArrayLoopStops(ts, v.1, Put(ms, Decimal(index), v.0), index + 1);
    }
  }

  /** The element loop keeps the elements already stored, in place, and appends the ones
      it parses: when it stops (at ARRAY_END or on an error) the elements built so far
      are all there. */
  lemma {:induction false} ArrayLoopKeeps(ts: seq<Token>, c: Cursor, ms: seq<Member>, index: nat)
    requires Keys(ms) == IndexKeys(index)
    ensures ms <= ArrayLoop(ts, c, ms, index).0
    decreases Measure(ts, c)
  {
    var p := PeekOf(ts, c);
    if !(p.0 == ArrayEnd || p.1.error) {
      var v := ParseSpec(ts, p.1);
      PutNextIndex(ms, index, v.0);
      ArrayLoopKeeps(ts, v.1, Put(ms, Decimal(index), v.0), index + 1);
    }
  }

  /** Storing under the next index appends a member, so the keys stay the indexes. */
  lemma PutNextIndex(ms: seq<Member>, index: nat, v: Json)
    requires Keys(ms) == IndexKeys(index)
    ensures Put(ms, Decimal(index), v) == ms + [Member(Decimal(index), v)]
    ensures Keys(Put(ms, Decimal(index), v)) == IndexKeys(index + 1)
  {
    var key := Decimal(index);
    if key in Keys(ms) {
      var i :| 0 <= i < index && Keys(ms)[i] == key;
      DecimalInjective(i, index);
    }
    PutKeys(ms, key, v);
  }

  /** Members keyed by the decimal indexes have distinct keys. */
  lemma IndexKeysDistinct(ms: seq<Member>, n: nat)
    requires Keys(ms) == IndexKeys(n)
    ensures DistinctKeys(ms)
  {
    forall i, j | 0 <= i < j < |ms|
      ensures ms[i].key != ms[j].key
    {
      if ms[i].key == ms[j].key {
        assert Keys(ms)[i] == Decimal(i) && Keys(ms)[j] == Decimal(j);
        DecimalInjective(i, j);
      }
    }
  }

  // ---------------------------------------------------------------------------
  // The parser

  /** json_get_string, then `if (length > 0) length--` and json_string_dup: a copy of
      the current string without the NUL pdjson counted, in a buffer of its own of
      length + 1 bytes ending in a NUL, so that `.data` also reads as a C string. */
  method CurrentString(s: TokenStream) returns (str: JsonString)
    ensures SliceOk(str) && Bytes(str) == Chop(s.text)
    ensures str.data.At? && str.data.off == 0 && |str.data.buf| == str.length + 1
    ensures str.data.buf[str.length] == NUL
    ensures NUL !in Chop(s.text) ==> NulTerminated(str.data.buf, 0) && FromCString(str.data) == str
  {
    var raw := s.text;
    var length := |raw|;
    if length > 0 {
      length := length - 1;
    }
    var slice := JsonString(length, At(raw, 0));
    str := Dup(slice);
    if NUL !in Bytes(slice) {
      DupIsCString(slice);
    }
  }

  /** parse_json_value. */
  method ParseValue(s: TokenStream) returns (v: JsonValue)
    modifies s
    ensures ValueOk(v)
    ensures (Abs(v), s.State()) == ParseSpec(s.tokens, old(s.State()))
    ensures v.text.data.At? && v.text.data.off == 0 && |v.text.data.buf| == v.text.length + 1
    ensures v.text.data.buf[v.text.length] == NUL
    decreases Measure(s.tokens, s.State()), 1
  {
    var kind := s.Next();
    var text := CurrentString(s);
    if kind == True || kind == False {
      v := JsonValue(kind, text, BoolPayload(kind == True));
    } else if kind == Object {
      var obj := ParseMembers(s);
      var _ := s.Next();
      v := JsonValue(kind, text, ObjPayload(obj));
    } else if kind == Array {
      var obj := ParseElements(s);
      var _ := s.Next();
      v := JsonValue(kind, text, ObjPayload(obj));
    } else {
      v := JsonValue(kind, text, NoPayload);
    }
  }

  /** The member loop of parse_json_value for JSON_OBJECT: the object it fills, and the
      stream left at the OBJECT_END token (or in error). */
  method ParseMembers(s: TokenStream) returns (obj: JsonObject)
    modifies s
    ensures ObjectOk(obj)
    ensures (Model(obj), s.State()) == ObjectLoop(s.tokens, old(s.State()), [])
    decreases Measure(s.tokens, s.State()), 0
  {
    obj := EmptyObject;
    EmptyObjectOk();
    ghost var c0 := s.State();
    while true
      invariant ObjectOk(obj)
      invariant ObjectLoop(s.tokens, c0, []) == ObjectLoop(s.tokens, s.State(), Model(obj))
      invariant Measure(s.tokens, s.State()) <= Measure(s.tokens, c0)
      decreases Measure(s.tokens, s.State())
    {
      var p := s.Peek();
      if p == ObjectEnd || s.error {
        break;
      }
      var _ := s.Next();
      var key := CurrentString(s);
      var item := ParseValue(s);
      obj := Store(obj, key, item);
    }
  }

  /** The element loop of parse_json_value for JSON_ARRAY: elements are stored under the
      keys "0", "1", ... that "%d" prints for a running index. */
  method ParseElements(s: TokenStream) returns (obj: JsonObject)
    modifies s
    ensures ObjectOk(obj)
    ensures (Model(obj), s.State()) == ArrayLoop(s.tokens, old(s.State()), [], 0)
    decreases Measure(s.tokens, s.State()), 2
  {
    obj := EmptyObject;
    EmptyObjectOk();
    ghost var c0 := s.State();
    var index := 0;
    while true
      invariant ObjectOk(obj)
      invariant ArrayLoop(s.tokens, c0, [], 0) == ArrayLoop(s.tokens, s.State(), Model(obj), index)
      invariant Measure(s.tokens, s.State()) <= Measure(s.tokens, c0)
      decreases Measure(s.tokens, s.State())
    {
      var p := s.Peek();
      if p == ArrayEnd || s.error {
        break;
      }
      var item := ParseValue(s);
      var digits := Decimal(index);
      CStrOfTerminated(digits);
      var key := Dup(FromCString(At(digits + [NUL], 0)));
      index := index + 1;
      obj := Store(obj, key, item);
    }
  }

  /** parse_json: open a stream on the document and parse one value from its start. */
  method ParseJson(tokens: seq<Token>) returns (v: JsonValue)
    ensures ValueOk(v)
    ensures Abs(v) == ParseSpec(tokens, Cursor(0, false, [])).0
  {
    var s := new TokenStream(tokens);
    v := ParseValue(s);
  }
}
