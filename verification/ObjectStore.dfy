/**
 The content-addressed store: trees on disk with an in-memory cache in front, and blobs.
 A tree's name is the SHA-1 of its framed Git data; `TreeCodec.SerializersAgree` shows
 that the hashing serialiser feeds exactly these bytes to the digest.
 */
module ObjectStore {
  import opened Objects
  import opened TreeCodec
  import opened Numerals
  import opened Sorting
  import opened ByteOrder

  const BLOB_TAG: Bytes := [98, 108, 111, 98, 32]  // "blob "

  /** How the store names, writes and reads back its objects. */
  datatype Codec = Codec(
    name: Tree -> Hash,
    write: Tree -> Bytes,
    read: Bytes -> Result<Tree>,
    blobName: Bytes -> Hash)

  /** What `Tree::hash` feeds to the digest: `TreeCodec.TreeHashInput`, for names in ascending order. */
  function HashedBytes(t: Tree, lossy: Bytes -> Bytes): Bytes {
    Frame(RowsContent(Sort(RowLe, Sort(RowLe, RowsFor(t, lossy, SortedNames(t.Keys))))))
  }

  /**
   The Git codec, for any digest function and any compression.  `lossy` is the decoding of names
   that the hashing serialiser applies and the storing one does not.
   */
  function GitCodec(zlib: Zlib, sha1: Bytes -> Hash, lossy: Bytes -> Bytes): Codec {
    Codec(
      t => sha1(HashedBytes(t, lossy)),
      t => Serialize(zlib, t),
      b => Deserialize(zlib, b),
      b => sha1(BLOB_TAG + Numeral(|b|, 10) + [NUL] + b))
  }

  /** Tree files, the tree cache, blob contents and the blob metadata cache. */
  datatype State = State(
    disk: map<Hash, Bytes>,
    cache: map<Hash, Tree>,
    blobs: map<Hash, Bytes>,
    blobCache: set<Hash>)

  function AfterWrite(codec: Codec, s: State, t: Tree): State {
    var h := codec.name(t);
    if h in s.disk then s
    else s.(disk := s.disk[h := codec.write(t)], cache := s.cache[h := t])
  }

  /** What reading `h` gives: the cached tree, or the stored one if it hashes to its name. */
  function Lookup(codec: Codec, s: State, h: Hash): Result<Tree> {
    if h in s.cache then Ok(s.cache[h])
    else if h !in s.disk then Err
    else match codec.read(s.disk[h])
         case Err => Err
         case Ok(t) => if codec.name(t) != h then Err else Ok(t)
  }

  function AfterRead(codec: Codec, s: State, h: Hash): State {
    match Lookup(codec, s, h)
    case Err => s
    case Ok(t) => s.(cache := s.cache[h := t])
  }

  /** A blob in the metadata cache counts as present even without a file. */
  predicate HasBlob(s: State, h: Hash) {
    h in s.blobCache || h in s.blobs
  }

  /** What reading a blob gives: its content, if the file is there and hashes to its name. */
  function BlobContent(codec: Codec, s: State, h: Hash): Result<Bytes> {
    if h !in s.blobs || codec.blobName(s.blobs[h]) != h then Err else Ok(s.blobs[h])
  }

  /** A blob that counts as present but cannot be read. */
  predicate StaleBlob(codec: Codec, s: State, h: Hash) {
    HasBlob(s, h) && BlobContent(codec, s, h).Err?
  }

  /** Every blob file hashes to its name. */
  ghost predicate BlobsSound(codec: Codec, s: State) {
    forall h :: h in s.blobs ==> codec.blobName(s.blobs[h]) == h
  }

  /** Every blob in the metadata cache has a file. */
  predicate CacheBacked(s: State) {
    s.blobCache <= s.blobs.Keys
  }

  /** Blobs were only added: under their own names, none that counted as present, each cached. */
  ghost predicate BlobsAdded(codec: Codec, s: State, s': State) {
    && (forall h :: h in s.blobs ==> h in s'.blobs && s'.blobs[h] == s.blobs[h])
    && (forall h :: h in s'.blobs && h !in s.blobs ==> h !in s.blobCache && codec.blobName(s'.blobs[h]) == h)
    && s'.blobCache == s.blobCache + (s'.blobs.Keys - s.blobs.Keys)
  }

  /** And the trees are as they were. */
  ghost predicate OnlyNewBlobs(codec: Codec, s: State, s': State) {
    BlobsAdded(codec, s, s') && s'.disk == s.disk && s'.cache == s.cache
  }

  /** After such additions a present blob reads exactly when it was not stale before. */
  lemma PresentReadsExactly(codec: Codec, s: State, s': State, h: Hash)
    requires BlobsAdded(codec, s, s') && HasBlob(s', h)
    ensures BlobContent(codec, s', h).Ok? <==> !StaleBlob(codec, s, h)
    ensures BlobContent(codec, s, h).Ok? ==> BlobContent(codec, s', h) == BlobContent(codec, s, h)
  {
  }

  /** In a store whose cache is backed by sound files nothing is stale, and additions keep it so. */
  lemma BackedIsNeverStale(codec: Codec, s: State, s': State, h: Hash)
    requires CacheBacked(s) && BlobsSound(codec, s) && BlobsAdded(codec, s, s')
    ensures CacheBacked(s') && BlobsSound(codec, s') && !StaleBlob(codec, s, h) && !StaleBlob(codec, s', h)
  {
  }

  class Store {
    const codec: Codec
    var disk: map<Hash, Bytes>
    var cache: map<Hash, Tree>
    var blobs: map<Hash, Bytes>
    var blobCache: set<Hash>

    constructor (codec: Codec)
      ensures this.codec == codec && Value() == State(map[], map[], map[], {})
    {
      this.codec := codec;
      disk, cache, blobs, blobCache := map[], map[], map[], {};
    }

    function Value(): State
      reads this
    {
      State(disk, cache, blobs, blobCache)
    }

    /** `write_tree`: when the file exists nothing happens, not even caching. */
    method WriteTree(t: Tree) returns (hash: Hash)
      modifies this
      ensures hash == codec.name(t)
      ensures Value() == AfterWrite(codec, old(Value()), t)
      ensures codec.name(t) in old(disk) ==> Value() == old(Value())
      ensures codec.name(t) !in old(disk) ==>
                disk == old(disk)[hash := codec.write(t)] && cache == old(cache)[hash := t]
    {
      hash := codec.name(t);
      if hash in disk { return; }
      var serialized := codec.write(t);
      disk := disk[hash := serialized];
      cache := cache[hash := t];
    }

    /** `read_tree`: cache first, then disk with the hash verified. */
    method ReadTree(hash: Hash) returns (r: Result<Tree>)
      modifies this`cache
      ensures r == Lookup(codec, old(Value()), hash)
      ensures Value() == AfterRead(codec, old(Value()), hash)
      ensures cache == if r.Ok? then old(cache)[hash := r.value] else old(cache)
    {
      if hash in cache {
        r := Ok(cache[hash]);
        assert cache[hash := cache[hash]] == cache;
        return;
      }
      if hash !in disk { return Err; }
      r := codec.read(disk[hash]);
      if r.Err? { return; }
      if codec.name(r.value) != hash { return Err; }
      cache := cache[hash := r.value];
    }

    /** `write_blob`: the caller's hash is checked against the content. */
    method WriteBlob(hash: Hash, data: Bytes) returns (r: Result<()>)
      modifies this`blobs, this`blobCache
      ensures r.Err? <==> old(hash !in blobs) && codec.blobName(data) != hash
      ensures r.Err? ==> Value() == old(Value())
      ensures r.Ok? ==> blobs == (if old(hash in blobs) then old(blobs) else old(blobs)[hash := data])
      ensures r.Ok? ==> blobCache == (if old(hash in blobs) then old(blobCache) else old(blobCache) + {hash})
      ensures old(CacheBacked(Value())) ==> CacheBacked(Value())
      ensures old(BlobsSound(codec, Value())) ==> BlobsSound(codec, Value())
    {
      if hash in blobs { return Ok(()); }
      if codec.blobName(data) != hash { return Err; }
      blobs := blobs[hash := data];
      blobCache := blobCache + {hash};
      r := Ok(());
    }
  }

  // ---------------------------------------------------------------- what every run keeps

  datatype Op = Write(tree: Tree) | Read(hash: Hash)

  function Step(codec: Codec, s: State, op: Op): State {
    match op
    case Write(t) => AfterWrite(codec, s, t)
    case Read(h) => AfterRead(codec, s, h)
  }

  function Run(codec: Codec, s: State, ops: seq<Op>): State
    decreases |ops|
  {
    if ops == [] then s else Run(codec, Step(codec, s, ops[0]), ops[1..])
  }

  /** The trees in play survive writing and reading, and no two of them share a name. */
  ghost predicate Faithful(codec: Codec, trees: set<Tree>) {
    && (forall t :: t in trees ==> codec.read(codec.write(t)) == Ok(t))
    && (forall t, u :: t in trees && u in trees && codec.name(t) == codec.name(u) ==> t == u)
  }

  /** For the Git codec this takes well-formed trees, UTF-8 names and no SHA-1 collision among their data. */
  lemma GitCodecIsFaithful(zlib: Zlib, sha1: Bytes -> Hash, lossy: Bytes -> Bytes, trees: set<Tree>)
    requires Lossless(zlib)
    requires forall t :: t in trees ==> WellFormed(t) && |TreeData(t)| < U64_LIMIT
    requires forall t, n :: t in trees && n in t ==> lossy(n) == n
    requires forall t, u :: t in trees && u in trees && sha1(Frame(TreeData(t))) == sha1(Frame(TreeData(u)))
               ==> Frame(TreeData(t)) == Frame(TreeData(u))
    ensures Faithful(GitCodec(zlib, sha1, lossy), trees)
  {
    var codec := GitCodec(zlib, sha1, lossy);
    forall t | t in trees ensures HashedBytes(t, lossy) == Frame(TreeData(t)) {
      SerializersAgree(t, lossy, SortedNames(t.Keys));
    }
    forall t | t in trees ensures codec.read(codec.write(t)) == Ok(t) {
      RoundTripExactly(zlib, t);
    }
    forall t, u | t in trees && u in trees && codec.name(t) == codec.name(u) ensures t == u {
      EncodingIsInjective(t, u);
    }
  }

  ghost predicate OpsWithin(ops: seq<Op>, trees: set<Tree>) {
    forall i :: 0 <= i < |ops| && ops[i].Write? ==> ops[i].tree in trees
  }

  ghost predicate Holds(codec: Codec, s: State, h: Hash, t: Tree)
    requires h in s.disk
  {
    codec.name(t) == h && s.disk[h] == codec.write(t)
  }

  /** Every file holds one of `trees` under its own hash, and the cache agrees with the files. */
  ghost predicate Consistent(codec: Codec, s: State, trees: set<Tree>) {
    && (forall h :: h in s.disk ==>
          exists t :: t in trees && Holds(codec, s, h, t))
    && (forall h :: h in s.cache ==>
          h in s.disk && s.cache[h] in trees && codec.name(s.cache[h]) == h)
  }

  lemma LookupStored(codec: Codec, s: State, trees: set<Tree>, t: Tree)
    requires Faithful(codec, trees) && Consistent(codec, s, trees)
    requires t in trees && codec.name(t) in s.disk
    ensures Lookup(codec, s, codec.name(t)) == Ok(t)
  {
    var h := codec.name(t);
    var u :| u in trees && Holds(codec, s, h, u);
  }

  lemma WriteKeepsConsistent(codec: Codec, s: State, trees: set<Tree>, t: Tree)
    requires Consistent(codec, s, trees) && t in trees
    ensures Consistent(codec, AfterWrite(codec, s, t), trees)
  {
    var s', name := AfterWrite(codec, s, t), codec.name(t);
    forall h | h in s'.disk ensures exists u :: u in trees && Holds(codec, s', h, u) {
      if h in s.disk {
        var u :| u in trees && Holds(codec, s, h, u);
        assert Holds(codec, s', h, u);
      } else {
        assert Holds(codec, s', h, t);
      }
    }
  }

  lemma ReadFinds(codec: Codec, s: State, trees: set<Tree>, name: Hash)
    requires Faithful(codec, trees) && Consistent(codec, s, trees) && Lookup(codec, s, name).Ok?
    ensures name in s.disk && Lookup(codec, s, name).value in trees && codec.name(Lookup(codec, s, name).value) == name
  {
    if name !in s.cache {
      var u :| u in trees && Holds(codec, s, name, u);
      LookupStored(codec, s, trees, u);
    }
  }

  lemma ReadKeepsConsistent(codec: Codec, s: State, trees: set<Tree>, name: Hash)
    requires Faithful(codec, trees) && Consistent(codec, s, trees)
    ensures Consistent(codec, AfterRead(codec, s, name), trees)
  {
    if Lookup(codec, s, name).Ok? { ReadFinds(codec, s, trees, name); }
    hide Lookup, Faithful;
    var s' := AfterRead(codec, s, name);
    forall h | h in s'.disk ensures exists u :: u in trees && Holds(codec, s', h, u) {
      var u :| u in trees && Holds(codec, s, h, u);
      assert Holds(codec, s', h, u);
    }
  }

  lemma StepKeepsConsistent(codec: Codec, s: State, trees: set<Tree>, op: Op)
    requires Faithful(codec, trees) && Consistent(codec, s, trees)
    requires op.Write? ==> op.tree in trees
    ensures Consistent(codec, Step(codec, s, op), trees)
    ensures s.disk.Keys <= Step(codec, s, op).disk.Keys
  {
    match op
    case Write(t) => WriteKeepsConsistent(codec, s, trees, t);
    case Read(h) => ReadKeepsConsistent(codec, s, trees, h);
  }

  lemma {:induction false} RunKeepsConsistent(codec: Codec, s: State, trees: set<Tree>, ops: seq<Op>)
    requires Faithful(codec, trees) && Consistent(codec, s, trees)
    requires OpsWithin(ops, trees)
    ensures Consistent(codec, Run(codec, s, ops), trees)
    ensures s.disk.Keys <= Run(codec, s, ops).disk.Keys
    decreases |ops|
  {
    if ops != [] {
      StepKeepsConsistent(codec, s, trees, ops[0]);
      RunKeepsConsistent(codec, Step(codec, s, ops[0]), trees, ops[1..]);
    }
  }

  /**
   Reading back what was written: after any reads and writes around the write of `t`,
   its hash reads as `t`, whether the cache hits, was bypassed, or is dropped altogether.
   */
  lemma ReadBack(codec: Codec, before: seq<Op>, t: Tree, after: seq<Op>, trees: set<Tree>)
    requires Faithful(codec, trees)
    requires OpsWithin(before, trees) && t in trees && OpsWithin(after, trees)
    ensures var s0 := State(map[], map[], map[], {});
            var s := Run(codec, Step(codec, Run(codec, s0, before), Write(t)), after);
            Consistent(codec, s, trees)
            && Lookup(codec, s, codec.name(t)) == Ok(t)
            && Lookup(codec, s.(cache := map[]), codec.name(t)) == Ok(t)
  {
    var s0 := State(map[], map[], map[], {});
    RunKeepsConsistent(codec, s0, trees, before);
    var s1 := Run(codec, s0, before);
    StepKeepsConsistent(codec, s1, trees, Write(t));
    var s2 := Step(codec, s1, Write(t));
    assert codec.name(t) in s2.disk;
    RunKeepsConsistent(codec, s2, trees, after);
    var s := Run(codec, s2, after);
    LookupStored(codec, s, trees, t);
    LookupStored(codec, s.(cache := map[]), trees, t);
  }

  // ---------------------------------------------------------------- damaged files

  /** A run in which, before each operation, anything may have happened to the tree files. */
  function DisturbedRun(codec: Codec, s: State, ops: seq<Op>, disks: seq<map<Hash, Bytes>>): State
    requires |disks| == |ops|
    decreases |ops|
  {
    if ops == [] then s
    else DisturbedRun(codec, Step(codec, s.(disk := disks[0]), ops[0]), ops[1..], disks[1..])
  }

  ghost predicate CacheNamed(codec: Codec, s: State) {
    forall h :: h in s.cache ==> codec.name(s.cache[h]) == h
  }

  lemma {:induction false} DisturbedRunKeepsNames(codec: Codec, s: State, ops: seq<Op>, disks: seq<map<Hash, Bytes>>)
    requires |disks| == |ops| && CacheNamed(codec, s)
    ensures CacheNamed(codec, DisturbedRun(codec, s, ops, disks))
    decreases |ops|
  {
    if ops != [] {
      var s' := Step(codec, s.(disk := disks[0]), ops[0]);
      assert CacheNamed(codec, s') by { assert ops[0].Write? || ops[0].Read?; }
      DisturbedRunKeepsNames(codec, s', ops[1..], disks[1..]);
    }
  }

  /** Whatever happened to the files, what is read under a hash has that hash: damage never shows another object. */
  lemma DamageIsNoticed(
    codec: Codec, ops: seq<Op>, disks: seq<map<Hash, Bytes>>, disk: map<Hash, Bytes>, blobs: map<Hash, Bytes>, h: Hash)
    requires |disks| == |ops|
    ensures var s := DisturbedRun(codec, State(map[], map[], map[], {}), ops, disks).(disk := disk, blobs := blobs);
            && (Lookup(codec, s, h).Ok? ==> codec.name(Lookup(codec, s, h).value) == h)
            && (BlobContent(codec, s, h).Ok? ==> codec.blobName(BlobContent(codec, s, h).value) == h)
  {
    DisturbedRunKeepsNames(codec, State(map[], map[], map[], {}), ops, disks);
  }
}
