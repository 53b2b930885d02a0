/** The string slice of the JSON core (`JsonString` in json/json.h) and the helpers of
    json/json.c that work on slices: hashing, comparison and duplication. */
module JsonStrings {
  import opened CStrings

  /** A `char *`: NULL, or a position inside a buffer. A buffer is its contents: the core
      never writes a buffer after json_string_dup has filled it. */
  datatype Ptr = Null | At(buf: seq<byte>, off: nat)

  /** `struct JsonString { size_t length; char *data; }`: a view of `length` bytes at `data`.
      The length is authoritative; the bytes need not be NUL-terminated. */
  datatype JsonString = JsonString(length: nat, data: Ptr)

  /** The slice lies inside its buffer (a NULL slice is empty). */
  predicate SliceOk(s: JsonString) {
    match s.data
    case Null => s.length == 0
    case At(buf, off) => off + s.length <= |buf|
  }

  /** The bytes a slice views; none for a slice that overruns its buffer, which no
      well-formed value holds. */
  function Bytes(s: JsonString): (r: seq<byte>)
    ensures SliceOk(s) ==> |r| == s.length
    ensures SliceOk(s) && s.data.At? ==> r == s.data.buf[s.data.off..s.data.off + s.length]
  {
    if !SliceOk(s) then []
    else match s.data
      case Null => []
      case At(buf, off) => buf[off..off + s.length]
  }

  /** json_string(s): a slice over the C string at `p`, measured with strlen and not copied. */
  function FromCString(p: Ptr): (r: JsonString)
    requires p.At? && NulTerminated(p.buf, p.off)
    ensures r.data == p && SliceOk(r)
    ensures Bytes(r) == CStr(p.buf, p.off)
    ensures NUL !in Bytes(r) && p.buf[p.off + r.length] == NUL
  {
    JsonString(StrLen(p.buf, p.off), p)
  }

  /** memcmp(p, q, n) == 0. */
  predicate MemEqual(p: Ptr, q: Ptr, n: nat)
    requires p.At? ==> p.off + n <= |p.buf|
    requires q.At? ==> q.off + n <= |q.buf|
    requires n > 0 ==> p.At? && q.At?
  {
    n == 0 || p.buf[p.off..p.off + n] == q.buf[q.off..q.off + n]
  }

  /** json_string_cmp: same length and the first `length` bytes equal. */
  function Equal(a: JsonString, b: JsonString): (r: bool)
    requires SliceOk(a) && SliceOk(b)
    ensures r <==> Bytes(a) == Bytes(b)
  {
    a.length == b.length && MemEqual(a.data, b.data, a.length)
  }

  /** json_string_dup: a new buffer of length + 1 bytes holding a copy of the slice and a
      NUL after it; the copy views it from its start. */
  function Dup(s: JsonString): (d: JsonString)
    requires SliceOk(s)
    ensures d.data.At? && d.data.off == 0 && |d.data.buf| == s.length + 1
    ensures d.length == s.length && SliceOk(d) && Bytes(d) == Bytes(s)
    ensures d.data.buf[s.length] == NUL
  {
    JsonString(s.length, At(Bytes(s) + [NUL], 0))
  }

  /** A copy of a slice without NUL bytes is a C string with the same bytes: json_string
      of the copy gives the copy back. */
  lemma DupIsCString(s: JsonString)
    requires SliceOk(s) && NUL !in Bytes(s)
    ensures NulTerminated(Dup(s).data.buf, 0)
    ensures FromCString(Dup(s).data) == Dup(s)
  {
    var d := Dup(s);
    assert d.data.buf[s.length] == NUL;
  }

  // ---------------------------------------------------------------------------
  // json_hash64

  const Seed: bv64 := 0x100
  const Multiplier: bv64 := 1111111111111111111

  /** `h ^= s.data[i]` reads a plain `char`, which is signed on the targets the code is
      built for: a byte of 0x80 or more is sign-extended to 64 bits before the XOR. */
  function Widen(b: byte): (w: bv64)
    ensures w & 0xFF == b as bv64
    ensures w >> 8 == if b < 0x80 then 0 else 0xFF_FFFF_FFFF_FFFF
  {
    if b < 0x80 then b as bv64 else 0xFFFF_FFFF_FFFF_FF00 | b as bv64
  }

  /** A 64-bit word whose low byte is `x` and whose other bits are all clear is `x`; with
      them all set, it is `x - 0x100` modulo 2^64. */
  lemma LowByteWord(w: bv64, x: bv64)
    requires w & 0xFF == x
    ensures w >> 8 == 0 ==> w == x
    ensures w >> 8 == 0xFF_FFFF_FFFF_FFFF ==> w + 0x100 == x
  {
  }

  /** The widened byte is the value of the signed char converted to 64 bits: the byte
      itself below 0x80, and the byte minus 0x100, modulo 2^64, from 0x80 on. */
  lemma WidenValue(b: byte)
    ensures b < 0x80 ==> Widen(b) == b as bv64
    ensures b >= 0x80 ==> Widen(b) + 0x100 == b as bv64
  {
    LowByteWord(Widen(b), b as bv64);
  }

  /** One iteration of the loop: XOR the widened byte in, then multiply (wrapping). */
  function Step(h: bv64, b: byte): bv64
  {
    (h ^ Widen(b)) * Multiplier
  }

  /** The accumulator after the loop has consumed `s`. */
  function Fold(s: seq<byte>): bv64
  {
    if |s| == 0 then Seed else Step(Fold(s[..|s| - 1]), s[|s| - 1])
  }

  /** The final fold of the high half into the low half. */
  function Mix(h: bv64): bv64
  {
    h ^ (h >> 32)
  }

  /** The hash of a key's bytes, as json_hash64 computes it. */
  function Hash(s: seq<byte>): bv64
  {
    Mix(Fold(s))
  }

  /** json_hash64. */
  method Hash64(s: JsonString) returns (h: bv64)
    requires SliceOk(s)
    ensures h == Hash(Bytes(s))
  {
    h := Seed;
    var i := 0;
    while i < s.length
      invariant 0 <= i <= s.length
      invariant h == Fold(Bytes(s)[..i])
    {
      var c := s.data.buf[s.data.off + i];
      assert c == Bytes(s)[i] && Bytes(s)[..i + 1][..i] == Bytes(s)[..i];
      h := Step(h, c);
      i := i + 1;
    }
    assert Bytes(s)[..i] == Bytes(s);
    h := Mix(h);
  }

  /** The empty key hashes to the seed: the high half of 0x100 is zero. */
  lemma HashOfEmpty()
    ensures Hash([]) == 0x100
  {
  }

  /** The final mix keeps the high half of the accumulator. */
  lemma MixKeepsHighHalf(h: bv64)
    ensures Mix(h) >> 32 == h >> 32
  {
  }
}
