# A verified model of the JSON object map, its parser and the stli path utilities

This project models in Dafny the core of a small C JSON engine and its string helpers.

- `json/json.c` and `json/json.h` parse a JSON document into a tree of `JsonValue`s.
  - Objects and arrays both hold a `JsonObject`.
  - Each entry of a `JsonObject` is a node of two structures at once: an
    insertion-ordered singly linked list through `next`, appended through `tail`, and
    a 4-ary trie through `child[4]`, keyed by `json_hash64`.
  - `json_object_upsert` is both insertion and lookup. It reads only when no allocator
    is passed.
  - `json_object_get` follows a dotted path.
- `stli/util.h` holds the helpers `swap`, `sentinel_array_entry_by_name`, `pathinfo`,
  `strtolower` and `strtoupper`.

How the model is laid out:

- `c_strings.dfy` (module `CStrings`): bytes and the C string primitives `strlen`,
  `strchr` and `strrchr`.
- `json_strings.dfy` (module `JsonStrings`): `JsonString` slices, `json_string`,
  `json_string_cmp`, `json_string_dup` and `json_hash64`.
- `hash_trie.dfy` (module `HashTrie`): the search and insertion of `json_object_upsert`
  on a pure trie of nodes.
  - A node is an entry's key bytes and its four child links, given as indexes.
  - Validity means every entry is where the search for its key ends.
- `json_tree.dfy` (module `JsonTree`): what a value denotes. Members are kept in chain
  order, and `Put` stores under a key.
- `json_object.dfy` (module `JsonObjects`): `JsonValue`, `JsonObject` and
  `JsonObjectEntry` as values.
  - An object owns its entries in an arena, in allocation order.
  - `head`, `tail`, `next` and `child[k]` are positions in that arena, or -1 for NULL.
  - `Upsert` is the loop of `json_object_upsert`. It is proved against the trie search
    and, through `Model`, against the members an object denotes.
  - `Foreach` is `JSON_FOREACH`.
- `token_stream.dfy` (module `TokenStreams`): the pdjson stream that the parser reads.
  It is a class over the sequence of tokens the tokenizer would produce.
- `json_parse.dfy` (module `JsonParse`): `parse_json_value` and `parse_json` as
  imperative methods.
  - They are proved equal to the functional `ParseSpec`, `ObjectLoop` and `ArrayLoop`.
  - Those functions carry the properties: array keys are "0", "1", … in order, and a
    repeated object key overwrites its value.
- `json_get.dfy` (module `JsonGet`): `json_object_get`, and its agreement with
  navigation on the abstract values.
- `util.dfy` (module `Util`): the helpers of `stli/util.h`. Caller buffers are `array`s,
  and a variable written through a pointer is a `Ref`.

Choices the C code leaves open:

- A plain `char` is taken to be signed, as on x86. `json_hash64` therefore
  sign-extends bytes of 0x80 and above (`JsonStrings.Widen`).
- pdjson's reported string length counts the ending NUL, which the parser drops
  (`JsonParse.Chop`).
- A path such as "layers.0.width" does not reach into an array. json_object_get
  descends only into JSON_OBJECT values, so an ARRAY reached mid-path is returned as it
  is (`JsonGet.GetStopsAtNonObject`).
- After 32 levels the running hash of the trie search is zero, so every deeper step
  goes to `child[0]`. This behaviour is modelled as it stands: from depth 32 on, the
  search is a plain scan down `child[0]` (`HashTrie.ShiftedOut`,
  `HashTrie.DeepSearchIsChain`).

## Model

| member | source | states |
|---|---|---|
| CStrings.StrLen | json/json.h:30 | strlen: the offset of the first NUL; no NUL comes before it |
| CStrings.IndexOf | json/json.c:92 | strchr: the first index of the byte, and none exactly when the byte does not occur |
| CStrings.LastIndexOf | stli/util.h:79 | strrchr: the last index of the byte, and none exactly when the byte does not occur |
| CStrings.CStrSuffix | json/json.c:111 | the C string that starts k bytes into another is its suffix, ended by the same NUL |
| JsonStrings.FromCString | json/json.h:28-31 | json_string: the length is the count of bytes before the first NUL, and the data is the caller's pointer itself, not a copy |
| JsonStrings.Equal | json/json.c:24-28 | json_string_cmp holds exactly when the two slices have the same bytes (equal length and equal contents) |
| JsonStrings.Dup | json/json.c:16-23 | json_string_dup: a new buffer of length+1 bytes at offset 0, with the same length and bytes and a NUL at index `length` |
| JsonStrings.DupIsCString | json/json.c:16-23 | a copy of a NUL-free slice is a C string that json_string reads back as the same slice |
| JsonStrings.Widen | json/json.c:11 | the signed char is sign-extended: the low 8 bits of the word are the byte, and the other 56 bits copy its sign bit |
| JsonStrings.WidenValue | json/json.c:11 | the widened byte is the byte itself below 0x80, and the byte minus 0x100 modulo 2^64 from 0x80 on |
| JsonStrings.Hash64 | json/json.c:6-15 | the loop computes the seeded XOR-multiply fold over the key's bytes, then folds the high half into the low half |
| JsonStrings.HashOfEmpty | json/json.c:8-14 | the empty key hashes to the seed 0x100 |
| JsonStrings.MixKeepsHighHalf | json/json.c:14 | the final `h ^ h >> 32` leaves the high 32 bits unchanged |
| HashTrie.Digit | json/json.c:54 | `h >> 62` is always one of the four child slots of json/json.h:55 |
| HashTrie.Locate | json/json.c:31-55 | the search loop from a slot: it ends at an entry with byte-equal key, or at a slot that is NULL |
| HashTrie.LocateDescends | json/json.c:32-54 | each step of the search at depth n takes child `Digit` of the hash shifted n times and goes on at depth n+1 with the hash shifted once more (that `Find` starts at depth 0 with the key's hash is its definition, restated for use) |
| HashTrie.Find | json/json.c:31-55 | the search from `head` along `child[h >> 62]` ends at an entry with byte-equal key, or at a NULL slot |
| HashTrie.Insert | json/json.c:40-46 | storing a new node into a NULL slot keeps every link pointing to a later entry, appends the node with NULL links and fills the slot |
| HashTrie.LocateStable | json/json.c:44 | filling an empty slot does not change a search that found an entry |
| HashTrie.LocateReaches | json/json.c:44 | after the key is stored in the slot where its search ended, the same search finds it |
| HashTrie.InsertValid | json/json.c:29-57 | inserting an absent key at the slot its search ended in keeps every entry findable, and the new key is found at the new entry |
| HashTrie.InsertKeepsOthers | json/json.c:40-48 | inserting a key does not change where the search for a key already present ends |
| HashTrie.KeysDistinct | json/json.c:50-53 | in a valid trie no two entries hold byte-equal keys |
| HashTrie.FindAbsent | json/json.c:34-39 | the search ends at a NULL slot exactly when no entry holds the key |
| HashTrie.ShiftedOut | json/json.c:32 | after 32 shifts by two bits the running hash is 0, so its digit is child 0 |
| HashTrie.DeepSearchIsChain | json/json.c:32-54 | from depth 32 on, the search is the scan down child 0, whatever the key's hash |
| HashTrie.EmptyValid | json/json.c:31 | an object without entries is a valid trie, and every search in it ends at `head` |
| JsonTree.IndexOfKey | json/json.c:50-53 | the first member holding the key, and none exactly when no member does |
| JsonTree.Lookup | json/json.c:106-113 | the value stored under a key, and none exactly when the key is absent |
| JsonTree.Put | json/json.c:142 | storing under a key adds one member exactly when the key is new |
| JsonTree.PutKeys | json/json.c:142 | storing under a present key keeps the key order, and a new key is appended at the end |
| JsonTree.PutLookup | json/json.c:142 | after storing v under a key, a lookup of that key gives v (last write wins) and other keys are unaffected |
| JsonTree.PutDistinct | json/json.c:142 | storing keeps the member keys pairwise distinct |
| JsonTree.PutMembers | json/json.c:142 | storing adds no member other than the stored one |
| JsonTree.IndexOfKeyFirst | json/json.c:50-53 | a member with the key and no earlier one is the one the search finds |
| JsonTree.IndexOfKeyOverwrite | json/json.c:142 | overwriting one member's value does not move the search for another key |
| JsonTree.IndexOfKeyAppend | json/json.c:40-48 | appending a member does not change what a search for an existing key finds, and an absent key with the new key is found at the end |
| JsonObjects.Place | json/json.c:31-55 | where upsert's search ends: an entry with byte-equal key, or a NULL slot (the empty object's `head` or a NULL child link) |
| JsonObjects.PlaceMeansMember | json/json.c:34-53 | the search finds the first member with the key, and ends at a NULL slot exactly when the key is absent |
| JsonObjects.PlaceFindsMember | json/json.c:50-53 | the entry the search finds holds the member stored under the key |
| JsonObjects.ModelKeysDistinct | json/json.c:50-53 | the keys of a well-formed object are pairwise distinct |
| JsonObjects.EmptyObjectOk | json/json.c:132 | an object whose `tail` points at its `head` and has no entries is well formed and empty |
| JsonObjects.Grown | json/json.c:40-48 | the allocating branch adds exactly one entry and increments `size` |
| JsonObjects.GrownShape | json/json.c:40-48 | the new entry is last, holds the caller's slice, a zeroed value and NULL links; it is the head of an empty object, otherwise it follows the old tail; old keys and values stay |
| JsonObjects.GrownTrie | json/json.c:44 | the grown object's child links spell the trie with the key inserted at the slot |
| JsonObjects.GrownChained | json/json.c:45-46 | linking through `*map->tail` keeps the `next` chain the allocation order, ended by NULL |
| JsonObjects.GrownShapeOk | json/json.c:40-48 | the grown object keeps size = chain length, head first, tail last, valid trie |
| JsonObjects.GrownValuesOk | json/json.c:41 | the grown object's values are the old ones and a zeroed one |
| JsonObjects.GrownOk | json/json.c:40-48 | storing a new entry for an absent key keeps the object well formed |
| JsonObjects.GrownModel | json/json.c:40-48 | the grown object denotes the old members followed by the new key with a zeroed value |
| JsonObjects.Upsert | json/json.c:29-57 | the search loop returns the entry with the byte-equal key and changes nothing; at a NULL slot it returns NULL with nothing changed without an allocator, and stores the new entry there with one |
| JsonObjects.UpsertEffect | json/json.c:29-57 | on members: a present key returns its entry and changes nothing; an absent key gives NULL and no change without an allocator, otherwise one new last entry (the caller's slice, zeroed value, NULL links), size+1, the object well formed |
| JsonObjects.InsertedIsFound | json/json.c:40-53 | after a key is inserted, a search for byte-equal key finds the new entry |
| JsonObjects.Assign | json/json.c:142 | `entry->value = v`: entry `i` holds v with its key and links unchanged; every other entry and `head`, `tail`, `size` stay |
| JsonObjects.AssignOk | json/json.c:142 | assigning a well-formed value to an entry keeps the object well formed |
| JsonObjects.AssignModel | json/json.c:142 | assigning replaces the value of that one member |
| JsonObjects.AssignAfterUpsert | json/json.c:142 | assigning to the entry upsert returned stores the value under the key, as `Put` does |
| JsonObjects.Store | json/json.c:142 | `upsert(obj, key, allocator)->value = v` keeps the object well formed and its members become `Put(members, key, v)` |
| JsonObjects.IsIterable | json/json.h:14 | JSON_IS_ITERABLE holds on a well-formed value exactly when its union holds an object |
| JsonObjects.NullValueOk | json/json.c:89-108 | the NULL value returned on a miss is well formed and denotes the abstract NULL |
| JsonObjects.Foreach | json/json.h:14-16 | JSON_FOREACH visits nothing unless the value is an OBJECT or ARRAY, and otherwise visits every entry along `next` from `head`, in insertion order, `size` of them |
| TokenStreams.TokenAt | json/json.c:118 | reading past the last token yields an error token |
| TokenStreams.NextOf | json/json.c:118 | json_next: once the error flag is set, an error and no change; otherwise the next token's kind and string; an error token sets the flag; it always progresses |
| TokenStreams.PeekOf | json/json.c:133 | json_peek: the next token's kind without consuming it |
| TokenStreams.TokenStream.Next | json/json.c:118 | the stream's new state and result are those of json_next |
| TokenStreams.TokenStream.Peek | json/json.c:133 | the stream's new state and result are those of json_peek |
| JsonParse.Chop | json/json.c:122-123 | the result is a prefix one byte shorter (none shorter for the empty string); for pdjson's string, whose last counted byte is its only NUL, it is exactly the C string |
| JsonParse.Decimal | json/json.c:155 | "%d" of an index: non-empty, all digits, no leading zero, "0" for 0 |
| JsonParse.DecimalRoundTrip | json/json.c:155 | reading back the printed digits gives the index |
| JsonParse.DecimalInjective | json/json.c:155 | different indexes print differently |
| JsonParse.ParseSpec | json/json.c:116-163 | the type is the token kind and the text is its string less the NUL; TRUE/FALSE carry the boolean of the kind, not the text; only OBJECT/ARRAY carry members; the stream always progresses unless already in error |
| JsonParse.ObjectLoop | json/json.c:133-144 | the member loop never moves the stream back |
| JsonParse.ArrayLoop | json/json.c:151-158 | the element loop never moves the stream back |
| JsonParse.ParseWellKeyed | json/json.c:129-160 | no parsed object or array holds a repeated key, at any depth |
| JsonParse.ObjectLoopKeys | json/json.c:133-143 | the member loop keeps the members it has stored, adds each key once (a repeat overwrites), and stores only well-keyed values |
| JsonParse.ArrayLoopKeys | json/json.c:150-157 | the keys of a parsed array are "0", "1", … in element order, distinct, with values well keyed |
| JsonParse.ArrayLoopKeeps | json/json.c:151-157 | the element loop keeps the elements already stored, in place, and only appends |
| JsonParse.ObjectLoopStops | json/json.c:133 | the member loop ends only at an OBJECT_END token or with the error flag set |
| JsonParse.ArrayLoopStops | json/json.c:151 | the element loop ends only at an ARRAY_END token or with the error flag set |
| JsonParse.PutNextIndex | json/json.c:155-156 | storing under the next index appends a member |
| JsonParse.IndexKeysDistinct | json/json.c:155-156 | members keyed by decimal indexes have distinct keys |
| JsonParse.CurrentString | json/json.c:120-124 | json_get_string less the counted NUL, duplicated: a buffer of its own of length + 1 bytes holding those bytes and a NUL at [length], so that, when the text has no NUL inside, `.data` read as a C string gives the same string back |
| JsonParse.ParseValue | json/json.c:116-163 | parse_json_value builds a well-formed value that denotes `ParseSpec` and leaves the stream where `ParseSpec` does; its text is a duplicated buffer of length + 1 bytes ending in a NUL |
| JsonParse.ParseMembers | json/json.c:130-146 | the object loop builds a well-formed object whose members and stream state are those of `ObjectLoop` from no members (so, by `ObjectLoopStops` and `ObjectLoopKeys`, it stops at OBJECT_END or on an error, keeping the keys stored) |
| JsonParse.ParseElements | json/json.c:147-160 | the array loop builds a well-formed object whose members and stream state are those of `ArrayLoop` from index 0 (so, by `ArrayLoopStops` and `ArrayLoopKeeps`, it stops at ARRAY_END or on an error, keeping the elements built) |
| JsonParse.ParseJson | json/json.c:165-173 | parse_json parses one value from the start of a fresh stream |
| JsonGet.Segment | json/json.c:91-100 | the first segment of the path: with a '.', the slice of the path before the first one, still pointing into the path, and the offset after it; without one, json_string of the whole path |
| JsonGet.SegmentRest | json/json.c:111 | the path after the first '.' is a C string of its own, the rest of the path |
| JsonGet.Get | json/json.c:86-114 | json_object_get as a function; what it promises is proved beside it: a well-formed result (`GetOk`) that denotes key-by-key navigation of the abstract value (`GetAgrees`) |
| JsonGet.GetOk | json/json.c:86-114 | json_object_get returns a well-formed value |
| JsonGet.GetFound | json/json.c:106-113 | when the segment is found, the result is the value found, or the rest of the path looked up in it when a '.' follows and it is an OBJECT |
| JsonGet.GetSpecFound | json/json.c:109-113 | the same step on abstract values |
| JsonGet.GetAgrees | json/json.c:86-114 | json_object_get on a stored value denotes navigation by key lookup on the value it denotes: NULL for a non-OBJECT root or a missing segment, recursion only into OBJECTs |
| JsonGet.GetStopsAtNonObject | json/json.c:109-113 | a segment naming a non-OBJECT (an ARRAY included) yields that value, ignoring the rest of the path |
| JsonGet.GetDescends | json/json.c:109-111 | a segment naming an OBJECT continues with the rest of the path inside it |
| JsonGet.GetSingle | json/json.c:99-108 | a path without '.' is one lookup, and a miss gives NULL |
| Util.Swap | stli/util.h:47-52 | `*a` and `*b` exchange their values |
| Util.SwapTwice | stli/util.h:47-52 | swapping twice restores both values |
| Util.EntryByNameAsWritten | stli/util.h:32-45 | stepping one pointer at a time, it answers the first word that names `name` before a NULL word, or NULL when a NULL word comes first |
| Util.EntryByName | stli/util.h:31-45 | stepping one entry at a time, it answers the first entry whose name is `name` before the sentinel, or NULL |
| Util.FirstMatchUnique | stli/util.h:32-45 | the search has a single correct answer |
| Util.NarrowLayoutIsNames | stli/util.h:42 | for entries one pointer wide, the words in memory are the names, so both searches agree |
| Util.WideTableMissesSecondEntry | stli/util.h:42 | for two-word entries {"a", NULL}, {"b", NULL}, {NULL, NULL}, the search as written misses "b" and the per-entry search finds entry 1 |
| Util.LastSep | stli/util.h:62-71 | the last '/' or '\\' in the path, with no separator after it; none when there is no separator |
| Util.DirectoryOf | stli/util.h:72-73 | the directory is a prefix of the path |
| Util.FileNameOf | stli/util.h:74-77 | the file name is a suffix of the path |
| Util.PathSplits | stli/util.h:60-77 | directory + last separator + file name is the path; the directory is empty without a separator; the file name has no separator |
| Util.BasenameOf | stli/util.h:79-89 | the base name is a prefix of the file name |
| Util.ExtensionOf | stli/util.h:79-89 | the extension is a suffix of the path and holds no '.' |
| Util.NameSplits | stli/util.h:79-89 | base name + '.' + extension is the file name when it has a '.'; otherwise the base name is the file name and the extension is empty; the extension has no '.' |
| Util.DirectoryDoesNotMatter | stli/util.h:74-89 | a '.' or anything else in the directory never affects the file name, base name or extension |
| Util.Truncate | stli/util.h:73 | what snprintf leaves: a prefix of the string, shorter than the size, the whole string when it fits |
| Util.Snprintf | stli/util.h:73 | snprintf writes the cut string and a NUL, and with size 0 nothing |
| Util.Print | stli/util.h:84-88 | into a buffer whose first byte is NUL, snprintf leaves exactly the cut string |
| Util.ClearAndPrint | stli/util.h:72-73 | `directory[0] = 0` and snprintf leave the cut string, even with size 0 |
| Util.ScanSeparators | stli/util.h:60-71 | the loop leaves `offset` at the last separator (0 without one); `*sep`, when given, holds the last separator, and is untouched when there is none |
| Util.FileNameStart | stli/util.h:74-77 | skipping a separator at `path + offset` starts the file name just after the last separator, or at the path's start without one |
| Util.DirectoryPart | stli/util.h:60-73 | the directory buffer holds the prefix before the last separator, cut to its size, and `*sep` the last separator |
| Util.NameParts | stli/util.h:79-89 | the basename buffer holds the file name up to its last '.', and the extension buffer what follows it (empty without a '.'), each cut to its size |
| Util.PathInfo | stli/util.h:54-90 | pathinfo: directory, base name and extension of the path, each shorter than its size, and `*sep` the last separator or untouched |
| Util.ToLower | stli/util.h:95 | tolower: 'A'..'Z' map to 'a'..'z', and every other byte stays |
| Util.ToUpper | stli/util.h:101 | toupper: 'a'..'z' map to 'A'..'Z', and every other byte stays |
| Util.CaseLaws | stli/util.h:92-102 | each mapping is idempotent, maps only NUL to NUL, and each undoes the other's change on letters |
| Util.MapBytesLaws | stli/util.h:92-102 | mapping a string twice is mapping it once, and no NUL appears |
| Util.MapInPlace | stli/util.h:94-95 | every byte before the NUL is mapped in place; the NUL and the bytes after it stay |
| Util.StrToLower | stli/util.h:92-96 | strtolower maps the string to lower case in place, keeping its length |
| Util.StrToUpper | stli/util.h:98-102 | strtoupper maps the string to upper case in place, keeping its length |
| Util.MappedString | stli/util.h:92-102 | the buffer after the mapping holds the mapped string as a C string of the same length |

## Left out

- Allocation and memory are values: an allocator that never fails, buffers as `seq`,
  and objects as arenas of entries.
  - Freshness and aliasing of heap memory are not captured.
  - A slice that "points into" a buffer is one whose `data` is that buffer and offset.
- JsonStrings.Dup: does not state that the copy is a new, unaliased allocation, or that
  the source is unchanged, because buffers are values (the source cannot change).
- JsonObjects.Upsert: the new entry aliasing the caller's key is stated as the entry
  holding the same `JsonString` value (length and pointer), not as shared memory.
- JsonObjects.Upsert: `tail` is modelled as the index of the last entry. In C, the
  parser sets `tail` to `&val.u.object.head` of its local `val`. The first upsert
  moves it to `&obj->next`, in allocator memory. So only an OBJECT or ARRAY returned
  while still empty keeps a `tail` into the returned-from local, which then dangles. The
  model does not capture that dangling pointer. It does not model later insertions into
  an object obtained by value either.
- JsonObjects.Foreach: the C macro reads `u.object.head` from the union even for a
  non-iterable value. The model starts from NULL there, since the loop condition
  stops it before any entry is visited.
- The float of a JSON number (`atof` into `u.number`) is not modelled. A number keeps
  only its text.
- `json_value_print` is not modelled (formatted output).
- The pdjson tokenizer is not modelled.
  - The parser reads a given sequence of tokens, each a kind and the string pdjson
    reports.
  - Reading past the last token is an error, as a truncated document is.
  - Whether a key token is a string is not checked, as the C code does not check it.
- JsonParse.ParseElements: the running index is a C `int` printed into a 256-byte buffer.
  The model uses an unbounded index and does not model the overflow past INT_MAX.
  "%d" is modelled by `JsonParse.Decimal`.
- JsonStrings.Widen: assumes a signed plain `char`. On a target where `char` is
  unsigned, bytes of 0x80 and above would be zero-extended instead.
- Util.EntryByNameAsWritten: a table word that is neither NULL nor a string pointer is
  taken not to match. In C, strcmp on it is undefined.
- Util.ToLower: models tolower/toupper in the C locale on bytes. C passes a possibly
  negative `char`, which is undefined for tolower.
- Util.PathInfo: the three output buffers are distinct arrays, and the path is a
  sequence that is not written. Overlapping buffers are not modelled.
- `read_file`, `read_text_file`, `ticks`, `json/map.c`, `refl/refl.c`,
  `stli/parse/preprocessor.h`, `stli/_stream/file.h` and `stli/allocator.h` are not
  part of this model. They are file I/O, external symbols, or code generation outside
  this core.

## Findings

| source | as written | input that shows it | evidently intended | confidence | as-written member | corrected member |
|---|---|---|---|---|---|---|
| stli/util.h:42 | `++entry` advances the cursor by one pointer, so every field of every struct is read as a name until a NULL word | a table of two-word entries {"a", NULL}, {"b", NULL}, {NULL, NULL} searched for "b": the second word (NULL) stops the search, which answers NULL | advance by one table entry, as the comment on line 31 ("structs" whose first field is the name) and the per-entry loop of `directive_by_name` in stli/parse/preprocessor.h:171-180 do | not executed; certain for entries wider than one pointer | Util.EntryByNameAsWritten, Util.WideTableMissesSecondEntry | Util.EntryByName |
