/** Bytes, optional values and the few C string primitives (strlen, strchr, strrchr)
    that the JSON core and the path utilities rely on. A C string is a buffer (here, its
    contents) holding a NUL at or after some offset. */
module CStrings {

  /** A C `char` as stored in memory. Its signedness matters only where it is widened
      (see JsonStrings.Widen). */
  newtype byte = b: int | 0 <= b < 0x100

  const NUL: byte := 0
  const DOT: byte := 0x2E
  const SLASH: byte := 0x2F
  const BACKSLASH: byte := 0x5C

  datatype Option<+T> = None | Some(value: T)

  /** The buffer holds a NUL at index `off` or later, so a C string starts at `off`. */
  ghost predicate NulTerminated(buf: seq<byte>, off: nat) {
    exists i :: off <= i < |buf| && buf[i] == NUL
  }

  /** strlen(buf + off): the number of bytes before the first NUL. */
  function StrLen(buf: seq<byte>, off: nat): (n: nat)
    requires NulTerminated(buf, off)
    ensures off + n < |buf| && buf[off + n] == NUL
    ensures forall i :: off <= i < off + n ==> buf[i] != NUL
    decreases |buf| - off
  {
    if buf[off] == NUL then 0 else 1 + StrLen(buf, off + 1)
  }

  /** The bytes of the C string at buf + off, without its NUL. */
  function CStr(buf: seq<byte>, off: nat): (s: seq<byte>)
    requires NulTerminated(buf, off)
    ensures NUL !in s
    ensures off + |s| < |buf| && buf[off + |s|] == NUL && s == buf[off..off + |s|]
  {
    buf[off..off + StrLen(buf, off)]
  }

  /** A buffer that starts with a string without NUL and then a NUL holds that string as
      a C string. */
  lemma CStrOfPrefix(buf: seq<byte>, s: seq<byte>)
    requires NUL !in s && |s| < |buf| && buf[..|s|] == s && buf[|s|] == NUL
    ensures NulTerminated(buf, 0) && CStr(buf, 0) == s
  {
    assert buf[|s|] == NUL;
  }

  /** A string followed by a NUL is a C string with exactly those bytes. */
  lemma CStrOfTerminated(s: seq<byte>)
    requires NUL !in s
    ensures NulTerminated(s + [NUL], 0) && CStr(s + [NUL], 0) == s
  {
    CStrOfPrefix(s + [NUL], s);
  }

  /** The C string `k` bytes into another one is its suffix: the same NUL ends both. */
  lemma CStrSuffix(buf: seq<byte>, off: nat, k: nat)
    requires NulTerminated(buf, off) && k <= |CStr(buf, off)|
    ensures NulTerminated(buf, off + k) && CStr(buf, off + k) == CStr(buf, off)[k..]
  {
    var s := CStr(buf, off);
    assert buf[off + |s|] == NUL;
  }

  /** The first index of `c` in `s`, if any (strchr on a string of bytes). */
  function IndexOf(s: seq<byte>, c: byte): (r: Option<nat>)
    ensures r.Some? ==> r.value < |s| && s[r.value] == c && c !in s[..r.value]
    ensures r.None? <==> c !in s
  {
    if |s| == 0 then None
    else if s[0] == c then Some(0)
    else match IndexOf(s[1..], c)
      case None => None
      case Some(i) => Some(i + 1)
  }

  /** The last index of `c` in `s`, if any (strrchr on a string of bytes). */
  function LastIndexOf(s: seq<byte>, c: byte): (r: Option<nat>)
    ensures r.Some? ==> r.value < |s| && s[r.value] == c && c !in s[r.value + 1..]
    ensures r.None? <==> c !in s
  {
    if |s| == 0 then None
    else if s[|s| - 1] == c then Some(|s| - 1)
    else
      assert s == s[..|s| - 1] + [s[|s| - 1]];
      LastIndexOf(s[..|s| - 1], c)
  }
}
