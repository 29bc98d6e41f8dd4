/**
 The path map and its PMV2 file: magic, root hash, entry count and length-prefixed
 entries in name order, all integers little-endian.
 */
module PathMapFile {
  import opened Objects
  import opened Sorting
  import opened ByteOrder

  const MAGIC: Bytes := [80, 77, 86, 50]  // "PMV2"
  const U16_LIMIT: nat := 0x1_0000
  const U32_LIMIT: nat := 0x1_0000_0000

  // ---------------------------------------------------------------- little-endian integers

  function LittleEndian(n: nat, width: nat): (b: Bytes)
    ensures |b| == width
  {
    if width == 0 then [] else [n % 0x100] + LittleEndian(n / 0x100, width - 1)
  }

  function FromLittleEndian(b: Bytes): nat {
    if b == [] then 0 else b[0] + 0x100 * FromLittleEndian(b[1..])
  }

  function Capacity(width: nat): nat {
    if width == 0 then 1 else 0x100 * Capacity(width - 1)
  }

  lemma {:induction false} LittleEndianRoundTrip(n: nat, width: nat)
    requires n < Capacity(width)
    ensures FromLittleEndian(LittleEndian(n, width)) == n
  {
    if width > 0 {
      LittleEndianRoundTrip(n / 0x100, width - 1);
      assert LittleEndian(n, width)[1..] == LittleEndian(n / 0x100, width - 1);
    }
  }

  lemma {:induction false} FromLittleEndianBound(b: Bytes)
    ensures FromLittleEndian(b) < Capacity(|b|)
  {
    if b != [] { FromLittleEndianBound(b[1..]); }
  }

  lemma Capacities()
    ensures Capacity(2) == U16_LIMIT && Capacity(4) == U32_LIMIT
  {
    assert Capacity(1) == 0x100 * Capacity(0);
    assert Capacity(3) == 0x100 * Capacity(2) && Capacity(4) == 0x100 * Capacity(3);
  }

  // ---------------------------------------------------------------- printing

  function KindByte(k: EntryKind): Byte {
    match k
    case File => 0
    case ExecutableFile => 1
    case Symlink => 2
    case Subtree => 3
  }

  function KindOf(b: Byte): Result<EntryKind> {
    if b == 0 then Ok(File)
    else if b == 1 then Ok(ExecutableFile)
    else if b == 2 then Ok(Symlink)
    else if b == 3 then Ok(Subtree)
    else Err
  }

  /** `as u16` and `as u32` keep only the low bytes of a length. */
  function EncodeTail(e: Entry): (b: Bytes)
    ensures |b| == 25
  {
    [KindByte(e.kind)] + LittleEndian(e.mode, 4) + e.hash
  }

  function EncodeEntry(name: Path, e: Entry): Bytes {
    LittleEndian(|name| % U16_LIMIT, 2) + name + EncodeTail(e)
  }

  function EncodeAll(m: Tree, names: seq<Path>): Bytes
    requires forall n :: n in names ==> n in m
  {
    if names == [] then [] else EncodeEntry(names[0], m[names[0]]) + EncodeAll(m, names[1..])
  }

  lemma {:induction false} EncodeAllSnoc(m: Tree, names: seq<Path>, n: Path)
    requires forall k :: k in names ==> k in m
    requires n in m
    ensures EncodeAll(m, names + [n]) == EncodeAll(m, names) + EncodeEntry(n, m[n])
  {
    if names == [] {
      assert names + [n] == [n] && [n][1..] == [];
    } else {
      assert (names + [n])[1..] == names[1..] + [n];
      EncodeAllSnoc(m, names[1..], n);
    }
  }

  lemma EncodeAllStep(m: Tree, names: seq<Path>, i: nat)
    requires forall k :: k in names ==> k in m
    requires i < |names|
    ensures forall k :: k in names[..i] || k in names[..i + 1] ==> k in m
    ensures EncodeAll(m, names[..i + 1]) == EncodeAll(m, names[..i]) + EncodeEntry(names[i], m[names[i]])
  {
    assert names[..i + 1] == names[..i] + [names[i]];
    EncodeAllSnoc(m, names[..i], names[i]);
  }

  function Header(root: Hash, count: nat): (b: Bytes)
    ensures |b| == 28
  {
    MAGIC + root + LittleEndian(count % U32_LIMIT, 4)
  }

  /** The whole file. */
  function Saved(root: Hash, m: Tree): Bytes {
    Header(root, |m|) + EncodeAll(m, SortedNames(m.Keys))
  }

  /** The header, and behind it the entries, those of smaller names first. */
  ghost predicate IsSaved(root: Hash, m: Tree, bytes: Bytes) {
    exists names ::
      && Enumerates(names, m.Keys) && InOrder(names)
      && (forall n :: n in names ==> n in m)
      && bytes == Header(root, |m|) + EncodeAll(m, names)
  }

  lemma SavedInOrder(root: Hash, m: Tree)
    ensures IsSaved(root, m, Saved(root, m))
  {
    SortedNamesInOrder(m.Keys);
    var names := SortedNames(m.Keys);
    assert Enumerates(names, m.Keys) && forall n :: n in names ==> n in m;
    hide InOrder, Header, EncodeAll;
  }

  // ---------------------------------------------------------------- parsing

  datatype Parsed = Parsed(name: Path, entry: Entry, rest: Bytes)

  function DecodeTail(name: Path, data: Bytes): Result<Parsed> {
    if |data| < 25 then Err
    else match KindOf(data[0])
         case Err => Err
         case Ok(kind) =>
           FromLittleEndianBound(data[1..5]);
           Capacities();
           Ok(Parsed(name, Entry(kind, FromLittleEndian(data[1..5]), data[5..25]), data[25..]))
  }

  function DecodeEntry(data: Bytes): Result<Parsed> {
    if |data| < 2 then Err else
    var length := FromLittleEndian(data[..2]);
    var body := data[2..];
    if |body| < length then Err else DecodeTail(body[..length], body[length..])
  }

  /** `count` entries from the front of `data`; what is left over comes back too. */
  function DecodeAll(data: Bytes, count: nat, acc: Tree): Result<(Tree, Bytes)>
    decreases count
  {
    if count == 0 then Ok((acc, data))
    else match DecodeEntry(data)
         case Err => Err
         case Ok(p) => DecodeAll(p.rest, count - 1, acc[p.name := p.entry])
  }

  /** `load`: bytes behind the last entry are ignored. */
  function Loaded(bytes: Bytes): Result<(Hash, Tree)> {
    if |bytes| < 4 || bytes[..4] != MAGIC || |bytes| < 28 then Err
    else match DecodeAll(bytes[28..], FromLittleEndian(bytes[24..28]), map[])
         case Err => Err
         case Ok((m, _)) => Ok((bytes[4..24], m))
  }

  // ---------------------------------------------------------------- the class

  class PathMap {
    var rootTree: Hash
    var entries: Tree

    constructor (root: Hash, m: Tree)
      ensures rootTree == root && entries == m
    {
      rootTree, entries := root, m;
    }

    method Update(path: Path, entry: Option<Entry>)
      modifies this`entries
      ensures entry.Some? ==> entries == old(entries)[path := entry.value]
      ensures entry.None? ==> entries == old(entries) - {path}
    {
      match entry
      case Some(e) => entries := entries[path := e];
      case None => entries := entries - {path};
    }

    function Get(path: Path): Option<Entry>
      reads this
    {
      if path in entries then Some(entries[path]) else None
    }

    /** `save`; `order` is the iteration order of the hash map. */
    method Save(order: seq<Path>) returns (bytes: Bytes)
      requires Enumerates(order, entries.Keys)
      ensures bytes == Saved(rootTree, entries)
      ensures IsSaved(rootTree, entries, bytes)
    {
      SavedInOrder(rootTree, entries);
      hide IsSaved;
      SortedNamesCanonical(order, entries.Keys);
      var sorted := SortNames(order);
      var body: Bytes := [];
      assert forall k :: k in sorted ==> k in entries;
      for i := 0 to |sorted|
        invariant forall k :: k in sorted[..i] ==> k in entries
        invariant body == EncodeAll(entries, sorted[..i])
      {
        var name, e := sorted[i], entries[sorted[i]];
        EncodeAllStep(entries, sorted, i);
        var row := LittleEndian(|name| % U16_LIMIT, 2) + name + ([KindByte(e.kind)] + LittleEndian(e.mode, 4) + e.hash);
        body := body + row;
      }
      assert sorted[..|sorted|] == sorted;
      var header := MAGIC + rootTree + LittleEndian(|entries| % U32_LIMIT, 4);
      bytes := header + body;
    }
  }

  /** The entry at `offset`, never reading outside `bytes`; returns the offset behind it. */
  method DecodeEntryAt(bytes: Bytes, offset: nat) returns (r: Result<(Path, Entry, nat)>)
    requires offset <= |bytes|
    ensures match r
            case Err => DecodeEntry(bytes[offset..]).Err?
            case Ok((name, e, end)) =>
              offset <= end <= |bytes| && DecodeEntry(bytes[offset..]) == Ok(Parsed(name, e, bytes[end..]))
  {
    if offset + 2 > |bytes| { return Err; }
    var length := FromLittleEndian(bytes[offset..offset + 2]);
    assert bytes[offset..][..2] == bytes[offset..offset + 2];
    assert bytes[offset..][2..] == bytes[offset + 2..];
    var at := offset + 2;
    if at + length > |bytes| { return Err; }
    var name := bytes[at..at + length];
    assert bytes[at..][..length] == name;
    assert bytes[at..][length..] == bytes[at + length..];
    r := DecodeTailAt(bytes, name, at + length);
  }

  method DecodeTailAt(bytes: Bytes, name: Path, at: nat) returns (r: Result<(Path, Entry, nat)>)
    requires at <= |bytes|
    ensures match r
            case Err => DecodeTail(name, bytes[at..]).Err?
            case Ok((name', e, end)) =>
              at <= end <= |bytes| && DecodeTail(name, bytes[at..]) == Ok(Parsed(name', e, bytes[end..]))
  {
    if at + 1 + 4 + 20 > |bytes| { return Err; }
    var kind := KindOf(bytes[at]);
    if kind.Err? { return Err; }
    assert bytes[at..][1..5] == bytes[at + 1..at + 5];
    assert bytes[at..][5..25] == bytes[at + 5..at + 25];
    assert bytes[at..][25..] == bytes[at + 25..];
    FromLittleEndianBound(bytes[at + 1..at + 5]);
    Capacities();
    var mode := FromLittleEndian(bytes[at + 1..at + 5]);
    r := Ok((name, Entry(kind.value, mode, bytes[at + 5..at + 25]), at + 25));
  }

  /** The entry loop of `load_v2`. */
  method DecodeAllAt(bytes: Bytes, start: nat, count: nat) returns (r: Result<Tree>)
    requires start <= |bytes|
    ensures match DecodeAll(bytes[start..], count, map[])
            case Err => r.Err?
            case Ok((m, _)) => r == Ok(m)
  {
    hide DecodeEntry;
    var entries: Tree := map[];
    var offset: nat := start;
    for i := 0 to count
      invariant offset <= |bytes|
      invariant DecodeAll(bytes[start..], count, map[]) == DecodeAll(bytes[offset..], count - i, entries)
    {
      var e := DecodeEntryAt(bytes, offset);
      if e.Err? { return Err; }
      offset := e.value.2;
      entries := entries[e.value.0 := e.value.1];
    }
    r := Ok(entries);
  }

  /** `load` and `load_v2`. */
  method Load(bytes: Bytes) returns (r: Result<(Hash, Tree)>)
    ensures r == Loaded(bytes)
  {
    if |bytes| < 4 { return Err; }
    if bytes[..4] != MAGIC { return Err; }
    if |bytes| < 28 { return Err; }
    var root := bytes[4..24];
    var count := FromLittleEndian(bytes[24..28]);
    var entries := DecodeAllAt(bytes, 28, count);
    if entries.Err? { return Err; }
    r := Ok((root, entries.value));
  }

  // ---------------------------------------------------------------- round trip

  lemma DecodeEncodedTail(name: Path, e: Entry, rest: Bytes)
    ensures DecodeTail(name, EncodeTail(e) + rest) == Ok(Parsed(name, e, rest))
  {
    var data := EncodeTail(e) + rest;
    Capacities();
    assert data[1..5] == LittleEndian(e.mode, 4);
    LittleEndianRoundTrip(e.mode, 4);
    assert data[5..25] == e.hash;
    assert data[25..] == rest;
  }

  lemma DecodeEncodedEntry(name: Path, e: Entry, rest: Bytes)
    requires |name| < U16_LIMIT
    ensures DecodeEntry(EncodeEntry(name, e) + rest) == Ok(Parsed(name, e, rest))
  {
    var length := LittleEndian(|name|, 2);
    var body := name + (EncodeTail(e) + rest);
    var data := EncodeEntry(name, e) + rest;
    assert data == length + body;
    assert data[..2] == length && data[2..] == body;
    Capacities();
    LittleEndianRoundTrip(|name|, 2);
    assert body[..|name|] == name && body[|name|..] == EncodeTail(e) + rest;
    DecodeEncodedTail(name, e, rest);
  }

  function Insertions(m: Tree, names: seq<Path>, acc: Tree): Tree
    requires forall n :: n in names ==> n in m
  {
    if names == [] then acc else Insertions(m, names[1..], acc[names[0] := m[names[0]]])
  }

  lemma {:induction false} InsertionsContents(m: Tree, names: seq<Path>, acc: Tree)
    requires forall n :: n in names ==> n in m
    requires forall n :: n in acc ==> n in m && acc[n] == m[n]
    ensures var r := Insertions(m, names, acc);
            (forall n :: n in r <==> n in names || n in acc) && (forall n :: n in r ==> n in m && r[n] == m[n])
  {
    if names != [] {
      InsertionsContents(m, names[1..], acc[names[0] := m[names[0]]]);
    }
  }

  lemma {:induction false} DecodeEncodedAll(m: Tree, names: seq<Path>, acc: Tree)
    requires forall n :: n in names ==> n in m && |n| < U16_LIMIT
    ensures DecodeAll(EncodeAll(m, names), |names|, acc) == Ok((Insertions(m, names, acc), []))
  {
    if names != [] {
      DecodeEncodedEntry(names[0], m[names[0]], EncodeAll(m, names[1..]));
      DecodeEncodedAll(m, names[1..], acc[names[0] := m[names[0]]]);
    }
  }

  /** What the two length fields can express. */
  ghost predicate Expressible(m: Tree) {
    |m| < U32_LIMIT && forall n :: n in m ==> |n| < U16_LIMIT
  }

  lemma HeaderParts(root: Hash, count: Bytes, body: Bytes)
    requires |count| == 4
    ensures var b := MAGIC + root + count + body;
            |b| >= 28 && b[..4] == MAGIC && b[4..24] == root && b[24..28] == count && b[28..] == body
  {
  }

  lemma CountRoundTrip(count: nat)
    requires count < U32_LIMIT
    ensures FromLittleEndian(LittleEndian(count % U32_LIMIT, 4)) == count
  {
    Capacities();
    assert count % U32_LIMIT == count;
    LittleEndianRoundTrip(count, 4);
  }

  lemma SavedIsJoined(root: Hash, m: Tree)
    ensures Saved(root, m) ==
            MAGIC + root + LittleEndian(|m| % U32_LIMIT, 4) + EncodeAll(m, SortedNames(m.Keys))
  {
    hide EncodeAll, LittleEndian;
  }

  lemma SavedParts(root: Hash, m: Tree)
    requires |m| < U32_LIMIT
    ensures var b := Saved(root, m);
            |b| >= 28 && b[..4] == MAGIC && b[4..24] == root
            && FromLittleEndian(b[24..28]) == |m| && b[28..] == EncodeAll(m, SortedNames(m.Keys))
  {
    assert forall n :: n in SortedNames(m.Keys) ==> n in m;
    hide *;
    SavedIsJoined(root, m);
    CountRoundTrip(|m|);
    HeaderParts(root, LittleEndian(|m| % U32_LIMIT, 4), EncodeAll(m, SortedNames(m.Keys)));
  }

  lemma InsertionsAll(m: Tree, names: seq<Path>)
    requires forall n :: n in names <==> n in m
    ensures Insertions(m, names, map[]) == m
  {
    InsertionsContents(m, names, map[]);
    hide Insertions;
    assert Insertions(m, names, map[]).Keys == m.Keys;
  }

  lemma DecodeSaved(m: Tree)
    requires Expressible(m)
    ensures DecodeAll(EncodeAll(m, SortedNames(m.Keys)), |m|, map[]) == Ok((m, []))
  {
    var names := SortedNames(m.Keys);
    EnumerationMultiset(names, m.Keys);
    assert forall n :: n in names <==> n in m;
    hide EncodeAll, DecodeAll, Insertions, SortedNames;
    DecodeEncodedAll(m, names, map[]);
    InsertionsAll(m, names);
  }

  /** A parse never returns more entries than counted, nor names longer than a `u16` can say. */
  lemma {:induction false} DecodedIsExpressible(data: Bytes, count: nat, acc: Tree)
    requires forall n :: n in acc ==> |n| < U16_LIMIT
    ensures var r := DecodeAll(data, count, acc);
            r.Ok? ==> |r.value.0| <= |acc| + count && forall n :: n in r.value.0 ==> |n| < U16_LIMIT
    decreases count
  {
    if count > 0 && DecodeEntry(data).Ok? {
      DecodedNameIsShort(data);
      hide DecodeEntry;
      var p := DecodeEntry(data).value;
      OneMoreAtMost(acc, p.name, p.entry);
      DecodedIsExpressible(p.rest, count - 1, acc[p.name := p.entry]);
    }
  }

  lemma OneMoreAtMost(m: Tree, n: Path, e: Entry)
    ensures |m[n := e]| <= |m| + 1
  {
    assert m[n := e].Keys == m.Keys + {n};
  }

  lemma DecodedNameIsShort(data: Bytes)
    requires DecodeEntry(data).Ok?
    ensures |DecodeEntry(data).value.name| < U16_LIMIT
  {
    FromLittleEndianBound(data[..2]);
    Capacities();
  }

  /** Loading undoes saving exactly when the length fields can hold the lengths. */
  lemma RoundTripExactly(root: Hash, m: Tree)
    ensures Loaded(Saved(root, m)) == Ok((root, m)) <==> Expressible(m)
  {
    var b := Saved(root, m);
    if Expressible(m) {
      SavedParts(root, m);
      DecodeSaved(m);
    } else if Loaded(b) == Ok((root, m)) {
      FromLittleEndianBound(b[24..28]);
      Capacities();
      DecodedIsExpressible(b[28..], FromLittleEndian(b[24..28]), map[]);
    }
  }

  // ---------------------------------------------------------------- truncation

  /** A name of 65536 bytes gets the length zero and does not come back. */
  lemma LongNameIsLost(root: Hash, e: Entry)
    ensures var name: Path := seq(U16_LIMIT, _ => 97);
            Loaded(Saved(root, map[name := e])) != Ok((root, map[name := e]))
  {
    var name: Path := seq(U16_LIMIT, _ => 97);
    assert name in map[name := e] && |name| == U16_LIMIT;
    RoundTripExactly(root, map[name := e]);
  }

  lemma DecodeEntryExtends(data: Bytes, more: Bytes)
    requires DecodeEntry(data).Ok?
    ensures DecodeEntry(data + more)
            == Ok(DecodeEntry(data).value.(rest := DecodeEntry(data).value.rest + more))
  {
    var length := FromLittleEndian(data[..2]);
    var whole := data + more;
    assert whole[..2] == data[..2];
    var body := data[2..];
    assert whole[2..] == body + more;
    assert (body + more)[..length] == body[..length];
    var tail := body[length..];
    assert (body + more)[length..] == tail + more;
    assert (tail + more)[1..5] == tail[1..5];
    assert (tail + more)[5..25] == tail[5..25];
    assert (tail + more)[25..] == tail[25..] + more;
  }

  /** Bytes appended to an accepted input come back as left-over bytes. */
  lemma {:induction false} DecodeAllExtends(data: Bytes, more: Bytes, count: nat, acc: Tree)
    requires DecodeAll(data, count, acc).Ok?
    ensures DecodeAll(data + more, count, acc)
            == Ok((DecodeAll(data, count, acc).value.0, DecodeAll(data, count, acc).value.1 + more))
    decreases count
  {
    if count > 0 {
      DecodeEntryExtends(data, more);
      var p := DecodeEntry(data).value;
      DecodeAllExtends(p.rest, more, count - 1, acc[p.name := p.entry]);
    }
  }

  lemma PrefixRejected(data: Bytes, count: nat, m: Tree, n: nat)
    requires DecodeAll(data, count, map[]) == Ok((m, []))
    requires n < |data|
    ensures DecodeAll(data[..n], count, map[]).Err?
  {
    assert data == data[..n] + data[n..];
    if DecodeAll(data[..n], count, map[]).Ok? { DecodeAllExtends(data[..n], data[n..], count, map[]); }
  }

  /** No strict prefix of a saved file loads, so a torn write is always noticed. */
  lemma TruncationRejected(root: Hash, m: Tree, n: nat)
    requires Expressible(m)
    requires n < |Saved(root, m)|
    ensures Loaded(Saved(root, m)[..n]).Err?
  {
    if n >= 28 {
      var b := Saved(root, m);
      SavedParts(root, m);
      DecodeSaved(m);
      PrefixRejected(b[28..], |m|, m, n - 28);
      SliceOfPrefix(b, n);
    }
  }

  lemma SliceOfPrefix(b: Bytes, n: nat)
    requires 28 <= n <= |b|
    ensures b[..n][24..28] == b[24..28]
    ensures b[..n][28..] == b[28..][..n - 28]
  {
  }
}
