/** The helpers of stli/util.h: swap, sentinel_array_entry_by_name, pathinfo, strtolower
    and strtoupper. Memory the helpers write is an `array<byte>` (a caller's buffer) or a
    `Ref` (a variable reached through a pointer); a string they only read is its bytes. */
module Util {
  import opened CStrings

  /** A variable that a pointer designates. */
  class Ref<T> {
    var value: T

    constructor (v: T)
      ensures value == v
    {
      value := v;
    }
  }

  // ---------------------------------------------------------------------------
  // swap

  /** swap(a, b): `*a` and `*b` exchange their values (nothing changes when both point at
      the same variable). */
  method Swap<T>(a: Ref<T>, b: Ref<T>)
    modifies a, b
    ensures a.value == old(b.value) && b.value == old(a.value)
  {
    var tmp := b.value;
    b.value := a.value;
    a.value := tmp;
  }

  /** Swapping twice restores both variables. */
  method SwapTwice<T>(a: Ref<T>, b: Ref<T>)
    modifies a, b
    ensures a.value == old(a.value) && b.value == old(b.value)
  {
    Swap(a, b);
    Swap(a, b);
  }

  // ---------------------------------------------------------------------------
  // sentinel_array_entry_by_name

  /** A pointer-sized word of a table: NULL, a pointer to a C string (its bytes), or any
      other pointer or number. */
  datatype Word = NullWord | Name(s: seq<byte>) | Data

  /** `r` is what a search of the words for `name` must answer: the first word that points
      at a string equal to `name`, provided no NULL comes before it; otherwise nothing, and
      then a NULL ends the words before any match. */
  ghost predicate FirstMatch(ws: seq<Word>, name: seq<byte>, r: Option<nat>) {
    match r
    case Some(i) =>
      i < |ws| && ws[i] == Name(name) &&
      forall j :: 0 <= j < i ==> ws[j] != NullWord && ws[j] != Name(name)
    case None =>
      exists n :: 0 <= n < |ws| && ws[n] == NullWord &&
        forall j :: 0 <= j < n ==> ws[j] != Name(name)
  }

  /** sentinel_array_entry_by_name as written: the cursor is a `const char * const *` and
      advances one pointer at a time, so every word of the table is read as a name
      pointer until a NULL word. A word that is not a string pointer does not match (for
      the C code, strcmp on it is undefined). */
  method EntryByNameAsWritten(words: seq<Word>, name: seq<byte>) returns (r: Option<nat>)
    requires exists n :: 0 <= n < |words| && words[n] == NullWord
    ensures FirstMatch(words, name, r)
  {
    ghost var n :| 0 <= n < |words| && words[n] == NullWord;
    var i := 0;
    while words[i] != NullWord
      invariant i <= n
      invariant forall j :: 0 <= j < i ==> words[j] != NullWord && words[j] != Name(name)
      decreases n - i
    {
      if words[i] == Name(name) {
        return Some(i);
      }
      i := i + 1;
    }
    return None;
  }

  /** One entry of a sentinel-terminated table of structs: its first field, the name
      (NULL in the sentinel entry), and the words of its other fields. */
  datatype Row = Row(name: Word, rest: seq<Word>)

  /** The names of the entries, in order. */
  function Names(rows: seq<Row>): (ws: seq<Word>)
    ensures |ws| == |rows| && forall i :: 0 <= i < |rows| ==> ws[i] == rows[i].name
  {
    seq(|rows|, i requires 0 <= i < |rows| => rows[i].name)
  }

  /** The words of a table in memory: each entry's name followed by its other fields. */
  function Layout(rows: seq<Row>): (ws: seq<Word>)
  {
    if |rows| == 0 then [] else [rows[0].name] + rows[0].rest + Layout(rows[1..])
  }

  /** The search the comment on sentinel_array_entry_by_name describes: it advances one
      entry at a time and compares the first field of each. */
  method EntryByName(rows: seq<Row>, name: seq<byte>) returns (r: Option<nat>)
    requires exists n :: 0 <= n < |rows| && rows[n].name == NullWord
    ensures FirstMatch(Names(rows), name, r)
  {
    ghost var n :| 0 <= n < |rows| && rows[n].name == NullWord;
    var i := 0;
    while rows[i].name != NullWord
      invariant i <= n
      invariant forall j :: 0 <= j < i ==> rows[j].name != NullWord && rows[j].name != Name(name)
      decreases n - i
    {
      if rows[i].name == Name(name) {
        return Some(i);
      }
      i := i + 1;
    }
    assert Names(rows)[i] == NullWord;
    return None;
  }

  /** A search has one answer. */
  lemma FirstMatchUnique(ws: seq<Word>, name: seq<byte>, r: Option<nat>, r': Option<nat>)
    requires FirstMatch(ws, name, r) && FirstMatch(ws, name, r')
    ensures r == r'
  {
  }

  /** For entries that are one pointer wide the layout is just the names, so the search as
      written answers as the intended one does. */
  lemma {:induction false} NarrowLayoutIsNames(rows: seq<Row>)
    requires forall i :: 0 <= i < |rows| ==> rows[i].rest == []
    ensures Layout(rows) == Names(rows)
  {
    if |rows| > 0 {
      NarrowLayoutIsNames(rows[1..]);
      assert Names(rows) == [rows[0].name] + Names(rows[1..]);
    }
  }

  /** With entries two words wide whose second field is NULL, the search as written stops
      at the second word of the first entry and finds nothing, although the second entry
      is named "b"; the intended search finds it. */
  lemma WideTableMissesSecondEntry(r: Option<nat>, r': Option<nat>)
    requires var rows := [Row(Name([0x61]), [NullWord]), Row(Name([0x62]), [NullWord]), Row(NullWord, [NullWord])];
             FirstMatch(Layout(rows), [0x62], r) && FirstMatch(Names(rows), [0x62], r')
    ensures r == None && r' == Some(1)
  {
    var rows := [Row(Name([0x61]), [NullWord]), Row(Name([0x62]), [NullWord]), Row(NullWord, [NullWord])];
    var ws := [Name([0x61]), NullWord, Name([0x62]), NullWord, NullWord, NullWord];
    assert Layout(rows[2..]) == [NullWord, NullWord];
    assert Layout(rows[1..]) == [Name([0x62]), NullWord] + Layout(rows[2..]);
    assert Layout(rows) == ws;
    assert FirstMatch(ws, [0x62], None) by {
      assert ws[1] == NullWord;
    }
    FirstMatchUnique(ws, [0x62], r, None);
    var ns := Names(rows);
    assert FirstMatch(ns, [0x62], Some(1)) by {
      assert ns[0] == Name([0x61]) && ns[1] == Name([0x62]);
    }
    FirstMatchUnique(ns, [0x62], r', Some(1));
  }

  // ---------------------------------------------------------------------------
  // pathinfo

  /** '/' and '\\' both separate directories. */
  predicate IsSep(b: byte) {
    b == SLASH || b == BACKSLASH
  }

  /** The index of the last separator, if any. */
  function LastSep(p: seq<byte>): (r: Option<nat>)
    ensures r.Some? ==> r.value < |p| && IsSep(p[r.value]) &&
                        forall i :: r.value < i < |p| ==> !IsSep(p[i])
    ensures r.None? ==> forall i :: 0 <= i < |p| ==> !IsSep(p[i])
  {
    if |p| == 0 then None
    else if IsSep(p[|p| - 1]) then Some(|p| - 1)
    else LastSep(p[..|p| - 1])
  }

  /** Where the directory ends: at the last separator, or 0 without one. */
  function Offset(p: seq<byte>): nat {
    if LastSep(p).Some? then LastSep(p).value else 0
  }

  /** The directory part: the bytes before the last separator. */
  function DirectoryOf(p: seq<byte>): (d: seq<byte>)
    ensures d <= p
  {
    p[..Offset(p)]
  }

  /** The file name: what follows the last separator, or the whole path. */
  function FileNameOf(p: seq<byte>): (f: seq<byte>)
    ensures |f| <= |p| && f == p[|p| - |f|..]
  {
    if LastSep(p).Some? then p[LastSep(p).value + 1..] else p
  }

  /** The base name of a file name: up to its last '.', or all of it. */
  function BaseOfName(f: seq<byte>): seq<byte> {
    match LastIndexOf(f, DOT)
    case None => f
    case Some(d) => f[..d]
  }

  /** The extension of a file name: what follows its last '.', or nothing. */
  function ExtOfName(f: seq<byte>): (e: seq<byte>)
    ensures DOT !in e && |e| <= |f| && e == f[|f| - |e|..]
  {
    match LastIndexOf(f, DOT)
    case None => []
    case Some(d) => f[d + 1..]
  }

  /** The base name of a path: a prefix of its file name. */
  function BasenameOf(p: seq<byte>): (b: seq<byte>)
    ensures b <= FileNameOf(p)
  {
    BaseOfName(FileNameOf(p))
  }

  /** The extension of a path: a suffix of the path holding no '.'. */
  function ExtensionOf(p: seq<byte>): (e: seq<byte>)
    ensures DOT !in e && |e| <= |p| && e == p[|p| - |e|..]
  {
    var f := FileNameOf(p);
    var e := ExtOfName(f);
    assert f[|f| - |e|..] == p[|p| - |e|..];
    e
  }

  /** The directory and the file name make up the path again, with the separator between
      them: the directory is empty when there is no separator or the only one leads. */
  lemma PathSplits(p: seq<byte>)
    ensures LastSep(p).Some? ==>
              p == DirectoryOf(p) + [p[LastSep(p).value]] + FileNameOf(p) &&
              |DirectoryOf(p)| == LastSep(p).value
    ensures LastSep(p).None? ==> DirectoryOf(p) == [] && FileNameOf(p) == p
    ensures forall i :: 0 <= i < |FileNameOf(p)| ==> !IsSep(FileNameOf(p)[i])
  {
    if LastSep(p).Some? {
      var k := LastSep(p).value;
      assert p == p[..k] + [p[k]] + p[k + 1..];
    }
  }

  /** The base name, a '.' and the extension make up the file name again, and the
      extension holds no '.'; without a '.' the base name is the whole file name. */
  lemma NameSplits(p: seq<byte>)
    ensures DOT in FileNameOf(p) ==> FileNameOf(p) == BasenameOf(p) + [DOT] + ExtensionOf(p)
    ensures DOT !in FileNameOf(p) ==> BasenameOf(p) == FileNameOf(p) && ExtensionOf(p) == []
    ensures DOT !in ExtensionOf(p)
  {
    var f := FileNameOf(p);
    if LastIndexOf(f, DOT).Some? {
      var d := LastIndexOf(f, DOT).value;
      assert f == f[..d] + [DOT] + f[d + 1..];
    }
  }

  /** Whatever the directory holds, dots included, the file name after the last separator
      alone decides the base name and the extension. */
  lemma DirectoryDoesNotMatter(dir: seq<byte>, s: byte, name: seq<byte>)
    requires IsSep(s) && forall i :: 0 <= i < |name| ==> !IsSep(name[i])
    ensures FileNameOf(dir + [s] + name) == name
    ensures DirectoryOf(dir + [s] + name) == dir
    ensures BasenameOf(dir + [s] + name) == BasenameOf(name)
    ensures ExtensionOf(dir + [s] + name) == ExtensionOf(name)
  {
    var p := dir + [s] + name;
    assert p[|dir|] == s;
    assert LastSep(p) == Some(|dir|);
    assert p[|dir| + 1..] == name && p[..|dir|] == dir;
  }

  function Min(a: nat, b: nat): nat {
    if a < b then a else b
  }

  /** What snprintf(dst, max, ...) leaves as the string when it would print `s`: at most
      `max - 1` bytes of it, and nothing for a zero size. */
  function Truncate(s: seq<byte>, max: nat): (t: seq<byte>)
    ensures t <= s
    ensures max > 0 ==> |t| < max
    ensures |s| < max ==> t == s
  {
    if max == 0 then [] else s[..Min(|s|, max - 1)]
  }

  /** snprintf(dst, max, "%s", s) (also "%.*s" once the precision has cut `s`): writes at
      most `max - 1` bytes of `s` and a NUL after them; with a zero size it writes nothing.
      Bytes after the NUL are left as they were. */
  method Snprintf(dst: array<byte>, max: nat, s: seq<byte>)
    requires max <= dst.Length
    modifies dst
    ensures var t := Truncate(s, max);
            max > 0 ==> dst[..|t|] == t && dst[|t|] == NUL &&
                        forall j :: |t| < j < dst.Length ==> dst[j] == old(dst[j])
    ensures max == 0 ==> dst[..] == old(dst[..])
  {
    if max == 0 {
      return;
    }
    var n := Min(|s|, max - 1);
    var i := 0;
    while i < n
      invariant i <= n
      invariant forall j :: 0 <= j < i ==> dst[j] == s[j]
      invariant forall j :: i <= j < dst.Length ==> dst[j] == old(dst[j])
    {
      dst[i] := s[i];
      i := i + 1;
    }
    dst[n] := NUL;
    assert dst[..n] == s[..n];
  }

  /** snprintf into a buffer whose first byte was cleared: it then holds the string cut to
      the size, even when the size is zero and snprintf writes nothing. */
  method Print(dst: array<byte>, max: nat, s: seq<byte>)
    requires 0 < dst.Length && max <= dst.Length && dst[0] == NUL && NUL !in s
    modifies dst
    ensures Held(dst[..]) == Truncate(s, max)
  {
    Snprintf(dst, max, s);
    if max > 0 {
      var t := Truncate(s, max);
      assert dst[..][..|t|] == t;
      CStrOfPrefix(dst[..], t);
    } else {
      CStrOfPrefix(dst[..], []);
    }
  }

  /** The first loop of pathinfo: every separator of the path records its offset and, when
      `sep` is not NULL, its character; the last one wins. */
  method ScanSeparators(path: seq<byte>, sep: Ref?<byte>) returns (offset: nat)
    requires NulTerminated(path, 0)
    modifies if sep == null then {} else {sep}
    ensures offset == Offset(CStr(path, 0))
    ensures sep != null && LastSep(CStr(path, 0)).Some? ==> sep.value == path[LastSep(CStr(path, 0)).value]
    ensures sep != null && LastSep(CStr(path, 0)).None? ==> sep.value == old(sep.value)
  {
    ghost var p := CStr(path, 0);
    offset := 0;
    var i := 0;
    while path[i] != NUL
      invariant i <= |p|
      invariant offset == Offset(p[..i])
      invariant sep != null && LastSep(p[..i]).Some? ==> sep.value == p[LastSep(p[..i]).value]
      invariant sep != null && LastSep(p[..i]).None? ==> sep.value == old(sep.value)
      decreases |p| - i
    {
      assert p[..i + 1][..i] == p[..i];
      if path[i] == SLASH || path[i] == BACKSLASH {
        if sep != null {
          sep.value := path[i];
        }
        offset := i;
      }
      i := i + 1;
    }
    assert p[..i] == p;
  }

  /** `dst[0] = 0` then snprintf: the buffer holds the string cut to the size. */
  method ClearAndPrint(dst: array<byte>, max: nat, s: seq<byte>)
    requires 0 < dst.Length && max <= dst.Length && NUL !in s
    modifies dst
    ensures Held(dst[..]) == Truncate(s, max)
  {
    dst[0] := NUL;
    Print(dst, max, s);
  }

  /** The C string a buffer holds from its start. */
  ghost function Held(a: seq<byte>): seq<byte> {
    if NulTerminated(a, 0) then CStr(a, 0) else []
  }

  /** Where pathinfo's file name starts: one past the directory when a separator is
      there (the last one), else at the directory's end, which is 0. */
  lemma FileNameStart(path: seq<byte>, offset: nat, filename: nat)
    requires NulTerminated(path, 0) && offset == Offset(CStr(path, 0))
    requires filename == if IsSep(path[offset]) then offset + 1 else offset
    ensures filename <= StrLen(path, 0)
    ensures FileNameOf(CStr(path, 0)) == path[filename..StrLen(path, 0)]
  {
    var p := CStr(path, 0);
    if LastSep(p).None? && |p| > 0 {
      assert !IsSep(p[0]);
    }
  }

  /** pathinfo(path, directory, dmax, basename, bmax, extension, emax, sep): the directory,
      base name and extension of the path, each cut to fit its buffer, and the last
      separator in `*sep` when `sep` is not NULL. Each buffer has its first byte cleared
      before snprintf, so it holds an empty string even with a zero size. */
  method PathInfo(path: seq<byte>, directory: array<byte>, dmax: nat, basename: array<byte>, bmax: nat,
                  extension: array<byte>, emax: nat, sep: Ref?<byte>)
    requires NulTerminated(path, 0)
    requires 0 < directory.Length && dmax <= directory.Length
    requires 0 < basename.Length && bmax <= basename.Length
    requires 0 < extension.Length && emax <= extension.Length
    requires directory != basename && directory != extension && basename != extension
    modifies directory, basename, extension, if sep == null then {} else {sep}
    ensures Held(directory[..]) == Truncate(DirectoryOf(CStr(path, 0)), dmax)
    ensures Held(basename[..]) == Truncate(BasenameOf(CStr(path, 0)), bmax)
    ensures Held(extension[..]) == Truncate(ExtensionOf(CStr(path, 0)), emax)
    ensures sep != null && LastSep(CStr(path, 0)).Some? ==> sep.value == path[LastSep(CStr(path, 0)).value]
    ensures sep != null && LastSep(CStr(path, 0)).None? ==> sep.value == old(sep.value)
  {
    var offset := DirectoryPart(path, directory, dmax, sep);
    var len := StrLen(path, 0);
    var filename := offset;
    if path[filename] == SLASH || path[filename] == BACKSLASH {
      filename := filename + 1;
    }
    FileNameStart(path, offset, filename);
    NameParts(path[filename..len], basename, bmax, extension, emax);
  }

  /** The first half of pathinfo: the separator scan, then the directory, the first
      `offset` bytes of the path, printed into its cleared buffer. */
  method DirectoryPart(path: seq<byte>, directory: array<byte>, dmax: nat, sep: Ref?<byte>) returns (offset: nat)
    requires NulTerminated(path, 0)
    requires 0 < directory.Length && dmax <= directory.Length
    modifies directory, if sep == null then {} else {sep}
    ensures offset == Offset(CStr(path, 0))
    ensures Held(directory[..]) == Truncate(DirectoryOf(CStr(path, 0)), dmax)
    ensures sep != null && LastSep(CStr(path, 0)).Some? ==> sep.value == path[LastSep(CStr(path, 0)).value]
    ensures sep != null && LastSep(CStr(path, 0)).None? ==> sep.value == old(sep.value)
  {
    offset := ScanSeparators(path, sep);
    assert path[..offset] == DirectoryOf(CStr(path, 0));
    ClearAndPrint(directory, dmax, path[..offset]);
  }

  /** The second half of pathinfo: both buffers are cleared, then the part of the file
      name before its last '.' goes to `basename` and the part after it to `extension`;
      without a '.', the whole name goes to `basename`. */
  method NameParts(filename: seq<byte>, basename: array<byte>, bmax: nat, extension: array<byte>, emax: nat)
    requires NUL !in filename
    requires 0 < basename.Length && bmax <= basename.Length
    requires 0 < extension.Length && emax <= extension.Length
    requires basename != extension
    modifies basename, extension
    ensures Held(basename[..]) == Truncate(BaseOfName(filename), bmax)
    ensures Held(extension[..]) == Truncate(ExtOfName(filename), emax)
  {
    var delim := LastIndexOf(filename, DOT);
    basename[0] := NUL;
    extension[0] := NUL;
    if delim.None? {
      Print(basename, bmax, filename);
      CStrOfPrefix(extension[..], []);
    } else {
      Print(basename, bmax, filename[..delim.value]);
      Print(extension, emax, filename[delim.value + 1..]);
    }
  }

  // ---------------------------------------------------------------------------
  // strtolower, strtoupper

  const UpperA: byte := 0x41
  const UpperZ: byte := 0x5A
  const LowerA: byte := 0x61
  const LowerZ: byte := 0x7A
  const CaseGap: byte := 0x20

  /** tolower in the C locale: 'A'..'Z' become 'a'..'z', every other byte stays. */
  function ToLower(b: byte): (r: byte)
    ensures (UpperA <= b <= UpperZ) ==> r == b + CaseGap
    ensures !(UpperA <= b <= UpperZ) ==> r == b
  {
    if UpperA <= b <= UpperZ then b + CaseGap else b
  }

  /** toupper in the C locale: 'a'..'z' become 'A'..'Z', every other byte stays. */
  function ToUpper(b: byte): (r: byte)
    ensures (LowerA <= b <= LowerZ) ==> r == b - CaseGap
    ensures !(LowerA <= b <= LowerZ) ==> r == b
  {
    if LowerA <= b <= LowerZ then b - CaseGap else b
  }

  /** Each byte mapped on its own. */
  function MapBytes(s: seq<byte>, upper: bool): (r: seq<byte>)
    ensures |r| == |s|
    ensures forall i :: 0 <= i < |s| ==> r[i] == if upper then ToUpper(s[i]) else ToLower(s[i])
  {
    seq(|s|, i requires 0 <= i < |s| => if upper then ToUpper(s[i]) else ToLower(s[i]))
  }

  /** Both mappings are idempotent, keep NUL and only NUL at NUL, and each undoes the
      other on letters. */
  lemma CaseLaws(b: byte)
    ensures ToLower(ToLower(b)) == ToLower(b) && ToUpper(ToUpper(b)) == ToUpper(b)
    ensures (ToLower(b) == NUL <==> b == NUL) && (ToUpper(b) == NUL <==> b == NUL)
    ensures ToLower(ToUpper(b)) == ToLower(b) && ToUpper(ToLower(b)) == ToUpper(b)
  {
  }

  /** Mapping a string twice is mapping it once, and the mapped string has no NUL where
      the original had none. */
  lemma MapBytesLaws(s: seq<byte>, upper: bool)
    ensures MapBytes(MapBytes(s, upper), upper) == MapBytes(s, upper)
    ensures NUL !in s ==> NUL !in MapBytes(s, upper)
  {
    forall i | 0 <= i < |s|
      ensures MapBytes(MapBytes(s, upper), upper)[i] == MapBytes(s, upper)[i]
      ensures s[i] != NUL ==> MapBytes(s, upper)[i] != NUL
    {
      CaseLaws(s[i]);
    }
  }

  /** The loop shared by strtolower and strtoupper: `*p` is mapped for every `p` before
      the NUL; the NUL and what follows it stay. */
  method MapInPlace(str: array<byte>, upper: bool)
    requires NulTerminated(str[..], 0)
    modifies str
    ensures var n := |CStr(old(str[..]), 0)|;
            str[..] == MapBytes(old(str[..])[..n], upper) + old(str[..])[n..]
  {
    ghost var s := str[..];
    ghost var n := |CStr(s, 0)|;
    var i := 0;
    while str[i] != NUL
      invariant i <= n
      invariant forall j :: 0 <= j < i ==> str[j] == if upper then ToUpper(s[j]) else ToLower(s[j])
      invariant forall j :: i <= j < str.Length ==> str[j] == s[j]
      decreases n - i
    {
      str[i] := if upper then ToUpper(str[i]) else ToLower(str[i]);
      i := i + 1;
    }
    assert str[..] == MapBytes(s[..n], upper) + s[n..];
  }

  /** strtolower. */
  method StrToLower(str: array<byte>)
    requires NulTerminated(str[..], 0)
    modifies str
    ensures var n := |CStr(old(str[..]), 0)|;
            str[..] == MapBytes(old(str[..])[..n], false) + old(str[..])[n..]
  {
    MapInPlace(str, false);
  }

  /** strtoupper. */
  method StrToUpper(str: array<byte>)
    requires NulTerminated(str[..], 0)
    modifies str
    ensures var n := |CStr(old(str[..]), 0)|;
            str[..] == MapBytes(old(str[..])[..n], true) + old(str[..])[n..]
  {
    MapInPlace(str, true);
  }

  /** After strtolower or strtoupper the buffer holds the mapped string, of the same
      length: the result of mapping a buffer laid out as a C string is read back as the
      mapped string. */
  lemma MappedString(s: seq<byte>, upper: bool)
    requires NulTerminated(s, 0)
    ensures var n := |CStr(s, 0)|;
            var m := MapBytes(s[..n], upper) + s[n..];
            NulTerminated(m, 0) && CStr(m, 0) == MapBytes(CStr(s, 0), upper)
  {
    var n := |CStr(s, 0)|;
    var c := CStr(s, 0);
    var m := MapBytes(s[..n], upper) + s[n..];
    MapBytesLaws(c, upper);
    assert m[n] == NUL;
    assert m[..n] == MapBytes(c, upper);
  }
}
