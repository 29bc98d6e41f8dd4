/**
 The vocabulary shared by every part of the model: bytes, hashes, tree entries,
 trees and checkpoints.
 */
module Objects {
  type Byte = n: int | 0 <= n < 0x100
  type Bytes = seq<Byte>

  /** A SHA-1 hash: twenty raw bytes. */
  type Hash = h: Bytes | |h| == 20 witness seq(20, _ => 0)

  type U32 = n: int | 0 <= n < 0x1_0000_0000

  /** One more than the largest `u64` (and `usize` on the supported targets). */
  const U64_LIMIT := 0x1_0000_0000_0000_0000

  /** Paths are the bytes of a repository-relative path, as the tree stores them. */
  type Path = Bytes

  datatype Option<+T> = None | Some(value: T)

  datatype Result<+T> = Ok(value: T) | Err

  datatype EntryKind = File | ExecutableFile | Symlink | Subtree

  datatype Entry = Entry(kind: EntryKind, mode: U32, hash: Hash)

  /** A tree maps paths to entries; its iteration order is never relied upon. */
  type Tree = map<Path, Entry>

  // Git modes, written in octal in the repository.
  const MODE_FILE: U32 := 0x81A4        // 0o100644
  const MODE_EXECUTABLE: U32 := 0x81ED  // 0o100755
  const MODE_SYMLINK: U32 := 0xA000     // 0o120000
  const MODE_SUBTREE: U32 := 0x4000     // 0o040000

  /** `mode & 0o111 != 0`: one of the three execute bits is set. */
  predicate HasExecBit(mode: U32) {
    mode % 2 == 1 || mode / 8 % 2 == 1 || mode / 64 % 2 == 1
  }

  function GitMode(e: Entry): U32 {
    match e.kind
    case File => e.mode
    case ExecutableFile => MODE_EXECUTABLE
    case Symlink => MODE_SYMLINK
    case Subtree => MODE_SUBTREE
  }

  function FromGitMode(mode: U32): EntryKind {
    if mode == MODE_SUBTREE then Subtree
    else if mode == MODE_EXECUTABLE then ExecutableFile
    else if mode == MODE_SYMLINK then Symlink
    else File
  }

  function FileEntry(mode: U32, hash: Hash): Entry {
    if HasExecBit(mode) then Entry(ExecutableFile, MODE_EXECUTABLE, hash)
    else Entry(File, MODE_FILE, hash)
  }

  function SymlinkEntry(hash: Hash): Entry {
    Entry(Symlink, MODE_SYMLINK, hash)
  }

  function SubtreeEntry(hash: Hash): Entry {
    Entry(Subtree, MODE_SUBTREE, hash)
  }

  /** Kind and mode agree, so the Git mode alone determines both. */
  predicate Canonical(e: Entry) {
    e.kind == FromGitMode(e.mode) && e.mode == GitMode(e)
  }

  /** A ULID is a 128-bit number whose top 48 bits are a millisecond timestamp. */
  type Ulid = nat

  function TimestampMs(id: Ulid): nat {
    id / 0x1_0000_0000_0000_0000_0000
  }

  /** Whatever the 80 random bits below it are. */
  lemma TimestampOfUlid(ms: nat, random: nat)
    requires random < 0x1_0000_0000_0000_0000_0000
    ensures TimestampMs(ms * 0x1_0000_0000_0000_0000_0000 + random) == ms
  {
  }

  datatype Checkpoint = Checkpoint(
    id: Ulid,
    parent: Option<Ulid>,
    rootTree: Hash,
    touchedPaths: seq<Path>)
}
