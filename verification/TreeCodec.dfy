/**
 The Git tree format: `<octal mode> <name> NUL <20 raw hash bytes>` for each entry in
 name order, behind the header `tree <size> NUL`.  There are two printers, one used for
 storage and one used only for hashing, and an offset-driven parser.
 */
module TreeCodec {
  import opened Objects
  import opened Sorting
  import opened ByteOrder
  import opened Numerals

  const SPACE: Byte := 32
  const NUL: Byte := 0
  const TREE_TAG: Bytes := [116, 114, 101, 101, 32]  // "tree "
  const U32_LIMIT: nat := 0x1_0000_0000

  // ---------------------------------------------------------------- printing

  function EncodeRow(name: Bytes, mode: U32, hash: Hash): Bytes {
    Numeral(mode, 8) + [SPACE] + name + [NUL] + hash
  }

  function EncodeEntries(t: Tree, names: seq<Path>): Bytes
    requires forall n :: n in names ==> n in t
  {
    if names == [] then []
    else EncodeRow(names[0], GitMode(t[names[0]]), t[names[0]].hash) + EncodeEntries(t, names[1..])
  }

  lemma {:induction false} EncodeEntriesSnoc(t: Tree, names: seq<Path>, n: Path)
    requires forall m :: m in names ==> m in t
    requires n in t
    ensures EncodeEntries(t, names + [n]) ==
            EncodeEntries(t, names) + EncodeRow(n, GitMode(t[n]), t[n].hash)
  {
    if names == [] {
      assert names + [n] == [n] && [n][1..] == [];
    } else {
      assert (names + [n])[1..] == names[1..] + [n];
      EncodeEntriesSnoc(t, names[1..], n);
    }
  }

  lemma EncodeEntriesStep(t: Tree, names: seq<Path>, i: nat)
    requires forall m :: m in names ==> m in t
    requires i < |names|
    ensures forall m :: m in names[..i] || m in names[..i + 1] ==> m in t
    ensures EncodeEntries(t, names[..i + 1]) ==
            EncodeEntries(t, names[..i]) + EncodeRow(names[i], GitMode(t[names[i]]), t[names[i]].hash)
  {
    assert names[..i + 1] == names[..i] + [names[i]];
    EncodeEntriesSnoc(t, names[..i], names[i]);
  }

  /** The canonical tree data: entries in ascending name order. */
  function TreeData(t: Tree): Bytes {
    EncodeEntries(t, SortedNames(t.Keys))
  }

  /** The octal modes that Git writes for each kind of entry. */
  function ModeText(kind: EntryKind): Bytes {
    match kind
    case File => [49, 48, 48, 54, 52, 52]            // "100644"
    case ExecutableFile => [49, 48, 48, 55, 53, 53]  // "100755"
    case Symlink => [49, 50, 48, 48, 48, 48]         // "120000"
    case Subtree => [52, 48, 48, 48, 48]             // "40000"
  }

  ghost predicate MadeOfRows(t: Tree, names: seq<Path>, data: Bytes) {
    if names == [] then data == []
    else
      names[0] in t &&
      var row := ModeText(t[names[0]].kind) + [32] + names[0] + [0] + t[names[0]].hash;
      row <= data && MadeOfRows(t, names[1..], data[|row|..])
  }

  /** The bytes of a Git tree object: a row for each entry, those of smaller names first. */
  ghost predicate IsGitTree(t: Tree, data: Bytes) {
    exists names :: Enumerates(names, t.Keys) && InOrder(names) && MadeOfRows(t, names, data)
  }

  lemma GitTreeOf(t: Tree, names: seq<Path>, data: Bytes)
    requires Enumerates(names, t.Keys) && InOrder(names) && MadeOfRows(t, names, data)
    ensures IsGitTree(t, data)
  {
    hide Enumerates, InOrder, MadeOfRows;
  }

  /** Every entry is as one of the `Entry` constructors makes it. */
  ghost predicate AllConstructed(t: Tree) {
    forall n :: n in t ==> var e := t[n]; e in {FileEntry(e.mode, e.hash), SymlinkEntry(e.hash), SubtreeEntry(e.hash)}
  }

  lemma OctalDigit(n: nat, d: nat)
    requires n > 0 && d < 8
    ensures Numeral(8 * n + d, 8) == Numeral(n, 8) + [ZERO + d]
  {
  }

  lemma FiveDigits(a: nat, b: nat, c: nat, d: nat, e: nat)
    requires 0 < a < 8 && b < 8 && c < 8 && d < 8 && e < 8
    ensures Numeral(4096 * a + 512 * b + 64 * c + 8 * d + e, 8) == [ZERO + a, ZERO + b, ZERO + c, ZERO + d, ZERO + e]
  {
    assert Numeral(a, 8) == [ZERO + a];
    hide Numeral;
    OctalDigit(a, b);
    OctalDigit(8 * a + b, c);
    OctalDigit(64 * a + 8 * b + c, d);
    OctalDigit(512 * a + 64 * b + 8 * c + d, e);
  }

  lemma ModeTextIsOctal(e: Entry)
    requires e in {FileEntry(e.mode, e.hash), SymlinkEntry(e.hash), SubtreeEntry(e.hash)}
    ensures Numeral(GitMode(e), 8) == ModeText(e.kind)
  {
    hide Numeral;
    match e.kind
    case File =>
      FiveDigits(1, 0, 0, 6, 4);
      OctalDigit(4148, 4);
    case ExecutableFile =>
      FiveDigits(1, 0, 0, 7, 5);
      OctalDigit(4157, 5);
    case Symlink =>
      FiveDigits(1, 2, 0, 0, 0);
      OctalDigit(5120, 0);
    case Subtree =>
      FiveDigits(4, 0, 0, 0, 0);
  }

  lemma {:induction false} EncodedIsMadeOfRows(t: Tree, names: seq<Path>)
    requires AllConstructed(t) && forall n :: n in names ==> n in t
    ensures MadeOfRows(t, names, EncodeEntries(t, names))
  {
    if names != [] {
      EncodedIsMadeOfRows(t, names[1..]);
      ModeTextIsOctal(t[names[0]]);
    }
  }

  lemma TreeDataIsGitTree(t: Tree)
    requires AllConstructed(t)
    ensures IsGitTree(t, TreeData(t))
  {
    hide ComesBefore, MadeOfRows, AllConstructed, EncodeEntries;
    SortedNamesInOrder(t.Keys);
    var names := SortedNames(t.Keys);
    assert TreeData(t) == EncodeEntries(t, names);
    EncodedIsMadeOfRows(t, names);
    assert Enumerates(names, t.Keys);
    hide *;
    GitTreeOf(t, names, TreeData(t));
  }

  /** `serialize_git_tree`; `order` is the iteration order of the hash map. */
  method SerializeGitTree(t: Tree, order: seq<Path>) returns (data: Bytes)
    requires Enumerates(order, t.Keys)
    ensures data == TreeData(t)
    ensures AllConstructed(t) ==> IsGitTree(t, data)
  {
    if AllConstructed(t) { TreeDataIsGitTree(t); }
    hide IsGitTree, AllConstructed;
    SortedNamesCanonical(order, t.Keys);
    var sorted := SortNames(order);
    assert forall n :: n in sorted ==> n in t;
    data := [];
    for i := 0 to |sorted|
      invariant forall m :: m in sorted[..i] ==> m in t
      invariant data == EncodeEntries(t, sorted[..i])
    {
      var name := sorted[i];
      var entry := t[name];
      EncodeEntriesStep(t, sorted, i);
      var row := Numeral(GitMode(entry), 8) + [SPACE] + name + [NUL] + entry.hash;
      data := data + row;
    }
    assert sorted[..|sorted|] == sorted;
  }

  function Frame(data: Bytes): Bytes {
    TREE_TAG + Numeral(|data|, 10) + [NUL] + data
  }

  // ---------------------------------------------------------------- parsing

  /** The index of the first `b` in `s`. */
  function Position(s: Bytes, b: Byte): (r: Option<nat>)
    ensures r.Some? ==> r.value < |s|
  {
    if s == [] then None
    else if s[0] == b then Some(0)
    else match Position(s[1..], b)
         case None => None
         case Some(i) => Some(i + 1)
  }

  datatype Cut = Cut(before: Bytes, after: Bytes)

  /** `s` cut at its first `b`. */
  function CutAt(s: Bytes, b: Byte): (r: Option<Cut>)
    ensures r.Some? ==> |r.value.before| + 1 + |r.value.after| == |s|
  {
    match Position(s, b)
    case None => None
    case Some(i) => Some(Cut(s[..i], s[i + 1..]))
  }

  lemma {:induction false} PositionAfter(before: Bytes, b: Byte, after: Bytes)
    requires b !in before
    ensures Position(before + [b] + after, b) == Some(|before|)
  {
    if before != [] {
      assert (before + [b] + after)[1..] == before[1..] + [b] + after;
      PositionAfter(before[1..], b, after);
    }
  }

  /** The first `b` is found even when more of them follow. */
  lemma CutJoined(before: Bytes, b: Byte, after: Bytes)
    requires b !in before
    ensures CutAt(before + [b] + after, b) == Some(Cut(before, after))
  {
    var s := before + [b] + after;
    PositionAfter(before, b, after);
    assert s[..|before|] == before && s[|before| + 1..] == after;
  }

  lemma ConcatAssociates(a: Bytes, before: Bytes, b: Byte, after: Bytes)
    ensures a + before + [b] + after == a + (before + [b] + after)
  {
  }

  /** A cut is at the first `b`, and loses nothing else; there is none only when `b` is absent. */
  lemma {:induction false} CutIsFirst(s: Bytes, b: Byte)
    ensures match CutAt(s, b)
            case None => b !in s
            case Some(c) => s == c.before + [b] + c.after && b !in c.before
  {
    if s != [] && s[0] != b {
      CutIsFirst(s[1..], b);
      var c := CutAt(s[1..], b);
      if c.Some? {
        assert CutAt(s, b).value.before == [s[0]] + c.value.before && CutAt(s, b).value.after == c.value.after;
        assert s == [s[0]] + s[1..];
        ConcatAssociates([s[0]], c.value.before, b, c.value.after);
      }
    }
  }

  datatype ParsedRow = ParsedRow(name: Path, entry: Entry, rest: Bytes)

  /** One entry at the front of `data`, with the bytes after it. */
  function ParseRow(data: Bytes): (r: Result<ParsedRow>)
    ensures r.Ok? ==> |r.value.rest| < |data|
  {
    match CutAt(data, SPACE)
    case None => Err
    case Some(Cut(digits, named)) =>
      match ParseUnsigned(digits, 8, U32_LIMIT)
      case Err => Err
      case Ok(mode) => if mode >= U32_LIMIT then Err else ParseNameAndHash(mode, named)
  }

  function ParseNameAndHash(mode: U32, named: Bytes): (r: Result<ParsedRow>)
    ensures r.Ok? ==> |r.value.rest| < |named|
  {
    match CutAt(named, NUL)
    case None => Err
    case Some(Cut(name, tail)) =>
      if |tail| < 20 then Err
      else Ok(ParsedRow(name, Entry(FromGitMode(mode), mode, tail[..20]), tail[20..]))
  }

  function ParseEntries(data: Bytes, entries: Tree): Result<Tree>
    decreases |data|
  {
    if data == [] then Ok(entries)
    else match ParseRow(data)
         case Err => Err
         case Ok(row) => ParseEntries(row.rest, entries[row.name := row.entry])
  }

  lemma SliceOfSuffix(data: Bytes, start: nat, i: nat, j: nat)
    requires start + i <= start + j <= |data|
    ensures data[start..][i..j] == data[start + i..start + j]
    ensures data[start..][j..] == data[start + j..]
  {
  }

  /** The second half of an entry, at `offset`; returns the entry and the offset behind it. */
  method ParseNameAndHashAt(data: Bytes, mode: U32, offset: nat)
    returns (r: Result<(Path, Entry, nat)>)
    requires offset <= |data|
    ensures match r
            case Err => ParseNameAndHash(mode, data[offset..]).Err?
            case Ok((name, entry, end)) =>
              offset < end <= |data| &&
              ParseNameAndHash(mode, data[offset..]) == Ok(ParsedRow(name, entry, data[end..]))
  {
    var nul := Position(data[offset..], NUL);
    if nul.None? { return Err; }
    var name := data[offset..offset + nul.value];
    SliceOfSuffix(data, offset, 0, nul.value);
    SliceOfSuffix(data, offset, nul.value, nul.value + 1);
    var at := offset + nul.value + 1;
    if at + 20 > |data| { return Err; }
    SliceOfSuffix(data, at, 0, 20);
    assert CutAt(data[offset..], NUL) == Some(Cut(name, data[at..]));
    r := Ok((name, Entry(FromGitMode(mode), mode, data[at..at + 20]), at + 20));
  }

  /** One whole entry at `offset`. */
  method ParseRowAt(data: Bytes, offset: nat) returns (r: Result<(Path, Entry, nat)>)
    requires offset <= |data|
    ensures match r
            case Err => ParseRow(data[offset..]).Err?
            case Ok((name, entry, end)) =>
              offset < end <= |data| &&
              ParseRow(data[offset..]) == Ok(ParsedRow(name, entry, data[end..]))
  {
    var space := Position(data[offset..], SPACE);
    if space.None? { return Err; }
    SliceOfSuffix(data, offset, 0, space.value);
    SliceOfSuffix(data, offset, space.value, space.value + 1);
    assert CutAt(data[offset..], SPACE)
           == Some(Cut(data[offset..offset + space.value], data[offset + space.value + 1..]));
    var mode := ParseUnsigned(data[offset..offset + space.value], 8, U32_LIMIT);
    if mode.Err? || mode.value >= U32_LIMIT { return Err; }
    r := ParseNameAndHashAt(data, mode.value, offset + space.value + 1);
  }

  /** `parse_git_tree`: never reads outside `data`, and agrees with the recursive parser. */
  method ParseGitTree(data: Bytes) returns (r: Result<Tree>)
    ensures r == ParseEntries(data, map[])
  {
    var entries: Tree := map[];
    var offset := 0;
    while offset < |data|
      invariant offset <= |data|
      invariant ParseEntries(data, map[]) == ParseEntries(data[offset..], entries)
    {
      var row := ParseRowAt(data, offset);
      if row.Err? { return Err; }
      offset := row.value.2;
      entries := entries[row.value.0 := row.value.1];
    }
    return Ok(entries);
  }

  function Unframe(framed: Bytes): Result<Bytes> {
    if !(TREE_TAG <= framed) then Err
    else match CutAt(framed, NUL)
         case None => Err
         case Some(Cut(header, data)) =>
           if |header| < 5 then Err else
           match ParseUnsigned(header[5..], 10, U64_LIMIT)
           case Err => Err
           case Ok(size) => if |data| != size then Err else Ok(data)
  }

  /** Zlib, as an inverse pair. */
  datatype Zlib = Zlib(deflate: Bytes -> Bytes, inflate: Bytes -> Result<Bytes>)

  ghost predicate Lossless(z: Zlib) {
    forall b :: z.inflate(z.deflate(b)) == Ok(b)
  }

  function Serialize(z: Zlib, t: Tree): Bytes {
    z.deflate(Frame(TreeData(t)))
  }

  function Deserialize(z: Zlib, compressed: Bytes): Result<Tree> {
    match z.inflate(compressed)
    case Err => Err
    case Ok(framed) =>
      match Unframe(framed)
      case Err => Err
      case Ok(data) => ParseEntries(data, map[])
  }

  // ---------------------------------------------------------------- round trip

  /** What an entry looks like after printing and parsing: only its Git mode survives. */
  function Reparsed(e: Entry): Entry {
    Entry(FromGitMode(GitMode(e)), GitMode(e), e.hash)
  }

  lemma ParseEncodedRow(name: Path, mode: U32, hash: Hash, rest: Bytes)
    requires NUL !in name
    ensures ParseRow(EncodeRow(name, mode, hash) + rest)
            == Ok(ParsedRow(name, Entry(FromGitMode(mode), mode, hash), rest))
  {
    var digits := Numeral(mode, 8);
    var named := name + [NUL] + (hash + rest);
    ParseEncodedName(name, mode, hash, rest);
    assert EncodeRow(name, mode, hash) + rest == digits + [SPACE] + named;
    NumeralIsDigits(mode, 8);
    NumeralRoundTrip(mode, 8, U32_LIMIT);
    CutJoined(digits, SPACE, named);
  }

  lemma ParseEncodedName(name: Path, mode: U32, hash: Hash, rest: Bytes)
    requires NUL !in name
    ensures ParseNameAndHash(mode, name + [NUL] + (hash + rest))
            == Ok(ParsedRow(name, Entry(FromGitMode(mode), mode, hash), rest))
  {
    var tail := hash + rest;
    CutJoined(name, NUL, tail);
    assert tail[..20] == hash && tail[20..] == rest;
  }

  function Reload(t: Tree, names: seq<Path>, acc: Tree): Tree
    requires forall n :: n in names ==> n in t
  {
    if names == [] then acc else Reload(t, names[1..], acc[names[0] := Reparsed(t[names[0]])])
  }

  lemma {:induction false} ParseEncodedEntries(t: Tree, names: seq<Path>, acc: Tree)
    requires forall n :: n in names ==> n in t && NUL !in n
    ensures ParseEntries(EncodeEntries(t, names), acc) == Ok(Reload(t, names, acc))
  {
    if names != [] {
      var n, rest := names[0], EncodeEntries(t, names[1..]);
      var row := EncodeRow(n, GitMode(t[n]), t[n].hash);
      ParseEncodedRow(n, GitMode(t[n]), t[n].hash, rest);
      ParseEncodedEntries(t, names[1..], acc[n := Reparsed(t[n])]);
    }
  }

  lemma {:induction false} ReloadContents(t: Tree, names: seq<Path>, acc: Tree)
    requires forall n :: n in names ==> n in t
    ensures forall n :: n in Reload(t, names, acc) <==> n in names || n in acc
    ensures forall n :: n in names ==> Reload(t, names, acc)[n] == Reparsed(t[n])
    ensures forall n :: n in acc && n !in names ==> Reload(t, names, acc)[n] == acc[n]
  {
    if names != [] {
      var acc' := acc[names[0] := Reparsed(t[names[0]])];
      ReloadContents(t, names[1..], acc');
      assert forall n :: n in names <==> n == names[0] || n in names[1..];
    }
  }

  lemma ReloadAll(t: Tree, names: seq<Path>)
    requires forall n :: n in names <==> n in t
    ensures Reload(t, names, map[]) == map n | n in t :: Reparsed(t[n])
  {
    ReloadContents(t, names, map[]);
    var reloaded, expected := Reload(t, names, map[]), map n | n in t :: Reparsed(t[n]);
    assert reloaded.Keys == expected.Keys;
    assert forall n :: n in expected ==> reloaded[n] == expected[n];
  }

  /** Everything a parse returns has NUL-free names and kinds derived from modes. */
  lemma {:induction false} ParsedIsPlain(data: Bytes, acc: Tree)
    requires forall n :: n in acc ==> NUL !in n && acc[n].kind == FromGitMode(acc[n].mode)
    ensures var r := ParseEntries(data, acc);
            r.Ok? ==> forall n :: n in r.value ==> NUL !in n && r.value[n].kind == FromGitMode(r.value[n].mode)
    decreases |data|
  {
    if data != [] && ParseRow(data).Ok? {
      var row := ParseRow(data).value;
      CutIsFirst(CutAt(data, SPACE).value.after, NUL);
      ParsedIsPlain(row.rest, acc[row.name := row.entry]);
    }
  }

  lemma UnframeFrame(data: Bytes)
    requires |data| < U64_LIMIT
    ensures Unframe(Frame(data)) == Ok(data)
  {
    var digits := Numeral(|data|, 10);
    var framed := Frame(data);
    NumeralIsDigits(|data|, 10);
    assert framed == (TREE_TAG + digits) + [NUL] + data;
    assert NUL !in TREE_TAG + digits;
    CutJoined(TREE_TAG + digits, NUL, data);
    assert (TREE_TAG + digits)[5..] == digits;
    NumeralRoundTrip(|data|, 10, U64_LIMIT);
  }

  ghost predicate WellFormed(t: Tree) {
    forall n :: n in t ==> NUL !in n && Canonical(t[n])
  }

  lemma ParseTreeData(t: Tree)
    requires forall n :: n in t ==> NUL !in n
    ensures ParseEntries(TreeData(t), map[]) == Ok(map n | n in t :: Reparsed(t[n]))
  {
    var names := SortedNames(t.Keys);
    assert TreeData(t) == EncodeEntries(t, names);
    ParseEncodedEntries(t, names, map[]);
    ReloadAll(t, names);
  }

  lemma ParseWellFormed(t: Tree)
    requires WellFormed(t)
    ensures ParseEntries(TreeData(t), map[]) == Ok(t)
  {
    ParseTreeData(t);
    assert forall n :: n in t ==> Reparsed(t[n]) == t[n];
    assert t == map n | n in t :: Reparsed(t[n]);
  }

  /** `deserialize` undoes `serialize` exactly on the well-formed trees. */
  lemma RoundTripExactly(z: Zlib, t: Tree)
    requires Lossless(z)
    requires |TreeData(t)| < U64_LIMIT
    ensures Deserialize(z, Serialize(z, t)) == Ok(t) <==> WellFormed(t)
  {
    var data := TreeData(t);
    assert z.inflate(z.deflate(Frame(data))) == Ok(Frame(data));
    UnframeFrame(data);
    ParsedIsPlain(data, map[]);
    if forall n :: n in t ==> NUL !in n {
      ParseTreeData(t);
      var back := map n | n in t :: Reparsed(t[n]);
      if back == t {
        forall n | n in t ensures Canonical(t[n]) { assert back[n] == t[n]; }
      }
    }
    if WellFormed(t) { ParseWellFormed(t); }
  }

  /** The `Entry` constructors only build entries that survive the round trip. */
  lemma ConstructorsAreCanonical(mode: U32, hash: Hash)
    ensures Canonical(FileEntry(mode, hash))
    ensures Canonical(SymlinkEntry(hash)) && Canonical(SubtreeEntry(hash))
    ensures HasExecBit(FileEntry(mode, hash).mode) <==> HasExecBit(mode)
  {
  }

  /** The bytes that are hashed determine a well-formed tree. */
  lemma EncodingIsInjective(t: Tree, u: Tree)
    requires WellFormed(t) && WellFormed(u)
    requires |TreeData(t)| < U64_LIMIT && |TreeData(u)| < U64_LIMIT
    requires Frame(TreeData(t)) == Frame(TreeData(u))
    ensures t == u
  {
    UnframeFrame(TreeData(t));
    UnframeFrame(TreeData(u));
    ParseWellFormed(t);
    ParseWellFormed(u);
  }

  // ---------------------------------------------------------------- the second serialiser

  datatype Row = Row(name: Bytes, mode: U32, hash: Hash)

  predicate RowLe(x: Row, y: Row) {
    LexLe(x.name, y.name)
  }

  function RowsContent(rows: seq<Row>): Bytes {
    if rows == [] then []
    else EncodeRow(rows[0].name, rows[0].mode, rows[0].hash) + RowsContent(rows[1..])
  }

  lemma {:induction false} RowsContentSnoc(rows: seq<Row>, r: Row)
    ensures RowsContent(rows + [r]) == RowsContent(rows) + EncodeRow(r.name, r.mode, r.hash)
  {
    if rows == [] {
      assert rows + [r] == [r] && [r][1..] == [];
    } else {
      assert (rows + [r])[1..] == rows[1..] + [r];
      RowsContentSnoc(rows[1..], r);
    }
  }

  /** `hash_tree`, up to the SHA-1 digest: the bytes it feeds to the hasher. */
  method HashTreeInput(entries: seq<Row>) returns (input: Bytes)
    ensures input == Frame(RowsContent(Sort(RowLe, entries)))
  {
    var sorted := Sort(RowLe, entries);
    var content: Bytes := [];
    for i := 0 to |sorted|
      invariant content == RowsContent(sorted[..i])
    {
      assert sorted[..i + 1] == sorted[..i] + [sorted[i]];
      RowsContentSnoc(sorted[..i], sorted[i]);
      var row := Numeral(sorted[i].mode, 8) + [SPACE] + sorted[i].name + [NUL] + sorted[i].hash;
      content := content + row;
    }
    assert sorted[..|sorted|] == sorted;
    input := TREE_TAG + Numeral(|content|, 10) + [NUL] + content;
  }

  /** `lossy` is the lossy UTF-8 decoding that `Tree::hash` applies to names. */
  function RowFor(t: Tree, lossy: Bytes -> Bytes, n: Path): Row
    requires n in t
  {
    Row(lossy(n), GitMode(t[n]), t[n].hash)
  }

  function RowsFor(t: Tree, lossy: Bytes -> Bytes, names: seq<Path>): seq<Row>
    requires forall n :: n in names ==> n in t
  {
    if names == [] then [] else [RowFor(t, lossy, names[0])] + RowsFor(t, lossy, names[1..])
  }

  /** `Tree::hash` sorts the rows and hands them to `hash_tree`, which sorts them again. */
  method TreeHashInput(t: Tree, lossy: Bytes -> Bytes, order: seq<Path>) returns (input: Bytes)
    requires Enumerates(order, t.Keys)
    ensures input == Frame(RowsContent(
                     Sort(RowLe, Sort(RowLe, RowsFor(t, lossy, order)))))
  {
    var rows := RowsFor(t, lossy, order);
    input := HashTreeInput(Sort(RowLe, rows));
  }

  lemma {:induction false} InsertRow(t: Tree, lossy: Bytes -> Bytes, n: Path, names: seq<Path>)
    requires n in t && forall m :: m in names ==> m in t
    requires forall m :: m in t ==> lossy(m) == m
    ensures forall m :: m in Insert(LexLe, n, names) ==> m in t
    ensures Insert(RowLe, RowFor(t, lossy, n), RowsFor(t, lossy, names)) ==
            RowsFor(t, lossy, Insert(LexLe, n, names))
  {
    var inserted := Insert(LexLe, n, names);
    InsertPermutes(LexLe, n, names);
    forall m | m in inserted ensures m in t {
      assert m in multiset(inserted);
    }
    if names != [] {
      var rows := RowsFor(t, lossy, names);
      assert rows[1..] == RowsFor(t, lossy, names[1..]);
      assert rows[0] == RowFor(t, lossy, names[0]) && names[0] in t && lossy(names[0]) == names[0] && lossy(n) == n;
      assert RowLe(RowFor(t, lossy, n), rows[0]) == LexLe(n, names[0]);
      if LexLe(n, names[0]) {
        assert inserted[1..] == names;
      } else {
        InsertRow(t, lossy, n, names[1..]);
        assert inserted[1..] == Insert(LexLe, n, names[1..]);
      }
    } else {
      assert [n][1..] == [];
    }
  }

  lemma {:induction false} SortRows(t: Tree, lossy: Bytes -> Bytes, names: seq<Path>)
    requires forall m :: m in names ==> m in t
    requires forall m :: m in t ==> lossy(m) == m
    ensures forall m :: m in SortNames(names) ==> m in t
    ensures Sort(RowLe, RowsFor(t, lossy, names)) == RowsFor(t, lossy, SortNames(names))
  {
    if names != [] {
      SortRows(t, lossy, names[1..]);
      InsertRow(t, lossy, names[0], SortNames(names[1..]));
    }
  }

  lemma {:induction false} RowsEncodeEntries(t: Tree, lossy: Bytes -> Bytes, names: seq<Path>)
    requires forall m :: m in names ==> m in t
    requires forall m :: m in t ==> lossy(m) == m
    ensures RowsContent(RowsFor(t, lossy, names)) == EncodeEntries(t, names)
  {
    if names != [] { RowsEncodeEntries(t, lossy, names[1..]); }
  }

  /** On UTF-8 names the hashed bytes are the stored bytes, whatever the iteration order. */
  lemma SerializersAgree(t: Tree, lossy: Bytes -> Bytes, order: seq<Path>)
    requires Enumerates(order, t.Keys)
    requires forall m :: m in t ==> lossy(m) == m
    ensures Frame(RowsContent(Sort(RowLe, Sort(RowLe, RowsFor(t, lossy, order)))))
            == Frame(TreeData(t))
  {
    SortRows(t, lossy, order);
    SortedNamesCanonical(order, t.Keys);
    SortRows(t, lossy, SortedNames(t.Keys));
    SortedNamesCanonical(SortedNames(t.Keys), t.Keys);
    RowsEncodeEntries(t, lossy, SortedNames(t.Keys));
  }
}
