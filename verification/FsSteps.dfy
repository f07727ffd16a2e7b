/** The steps of the file system operations on values: what each loop has done half way, what the
    steps of an operation amount to together, and the effects of creating and removing a name. */
module FsSteps {
  import opened Bitmaps
  import opened Wrappers
  import opened FsStorage
  import opened FsTree
  import opened FsPaths

  const ENOENT := 2
  const ENOMEM := 12
  const EEXIST := 17
  const ENOTDIR := 20
  const EISDIR := 21
  const EPERM := 1
  const EFBIG := 27
  const ERANGE := 34
  const ENAMETOOLONG := 36
  const ENOTEMPTY := 39
  const EDQUOT := 122

  lemma EmptyInv(fs: Fs)
    requires Shape(fs) && (forall i :: 0 <= i < N_INODES ==> !fs.inodeBits[i])
    requires forall b :: 0 <= b < N_USABLE_BLOCKS ==> !fs.dataBits[b]
    ensures StorageInv(fs) && Abs(fs) == map[]
  {
    var own: Owners := map[];
    assert OwnedBy(fs, own);
  }

  lemma RootInv()
    ensures NsInv(map[ROOT_INO := Dir([], ROOT_INO)])
  {
    var t: Tree := map[ROOT_INO := Dir([], ROOT_INO)];
    assert EntriesOk(t, ROOT_INO);
    assert Resolve(t, []) == Some(ROOT_INO);
  }

  /** The state in the middle of a shrink: slots `keep..k` are cleared and counted off. */
  function PartlyShrunk(fs: Fs, i: nat, keep: nat, k: nat): Fs
    requires Shape(fs) && Allocated(fs, i) && keep <= k <= fs.inodes[i].nBlocks
  {
    var n := fs.inodes[i];
    fs.(inodes := fs.inodes[i := n.(nBlocks := n.nBlocks - (k - keep))],
        dataBits := Cleared(fs.dataBits, n.dataBlocks[keep..k]))
  }

  lemma ClearedNothing(bits: seq<bool>)
    ensures Cleared(bits, []) == bits
  {}

  lemma ClearedOneMore(bits: seq<bool>, freed: seq<nat>, b: nat)
    requires b < |bits|
    ensures Cleared(bits, freed)[b := false] == Cleared(bits, freed + [b])
  {}

  lemma NothingShrunk(fs: Fs, i: nat, keep: nat)
    requires Shape(fs) && Allocated(fs, i) && keep <= fs.inodes[i].nBlocks
    ensures PartlyShrunk(fs, i, keep, keep) == fs
  {
    ClearedNothing(fs.dataBits);
    assert fs.inodes[i].dataBlocks[keep..keep] == [];
  }

  /** One turn of the loop of `shrink_file`: the next block's bit is cleared, and the block counted off. */
  lemma OneMoreShrunk(fs: Fs, i: nat, keep: nat, k: nat)
    requires Shape(fs) && Allocated(fs, i) && keep <= k < fs.inodes[i].nBlocks && fs.inodes[i].dataBlocks[k] < N_USABLE_BLOCKS
    ensures var cur := PartlyShrunk(fs, i, keep, k);
      && |cur.inodes| == N_INODES && |cur.dataBits| == N_USABLE_BLOCKS
      && cur.inodes[i].dataBlocks[k] == fs.inodes[i].dataBlocks[k] && cur.inodes[i].nBlocks > 0
      && PartlyShrunk(fs, i, keep, k + 1)
         == cur.(inodes := cur.inodes[i := cur.inodes[i].(nBlocks := cur.inodes[i].nBlocks - 1)],
                 dataBits := cur.dataBits[fs.inodes[i].dataBlocks[k] := false])
  {
    hide Cleared;
    var db := fs.inodes[i].dataBlocks;
    ClearedOneMore(fs.dataBits, db[keep..k], db[k]);
    assert db[keep..k] + [db[k]] == db[keep..k + 1];
  }

  lemma AllShrunk(fs: Fs, i: nat, keep: nat, length: nat)
    requires Shape(fs) && Allocated(fs, i) && keep <= fs.inodes[i].nBlocks
    ensures var cur := PartlyShrunk(fs, i, keep, fs.inodes[i].nBlocks);
      |cur.inodes| == N_INODES && Shrunk(fs, i, keep, length) == cur.(inodes := cur.inodes[i := cur.inodes[i].(size := length)])
  {
    hide Cleared;
  }

  lemma UsableSlots(fs: Fs, i: nat)
    requires StorageInv(fs) && Allocated(fs, i)
    ensures forall k :: 0 <= k < fs.inodes[i].nBlocks ==> fs.inodes[i].dataBlocks[k] < N_USABLE_BLOCKS
  {
    var own: Owners :| OwnedBy(fs, own);
    forall k | 0 <= k < fs.inodes[i].nBlocks ensures fs.inodes[i].dataBlocks[k] < N_USABLE_BLOCKS {
      assert Slot(fs, i, k);
      assert BlockNo(fs, i, k) in own;
    }
  }

  /** The node of a directory holds its entries. */
  lemma DirIs(fs: Fs, i: nat)
    requires StorageInv(fs) && Allocated(fs, i) && fs.inodes[i].isDir
    ensures Readable(fs, fs.inodes[i]) && i in Abs(fs) && Abs(fs)[i] == Dir(Entries(fs, fs.inodes[i]), fs.inodes[i].parent)
  {
    hide Ownership, Sizes;
    InvReadable(fs, i);
  }

  /** The node of a file holds its content. */
  lemma ContentIs(fs: Fs, i: nat)
    requires StorageInv(fs) && Allocated(fs, i) && !fs.inodes[i].isDir
    ensures Readable(fs, fs.inodes[i]) && i in Abs(fs) && Abs(fs)[i] == File(Content(fs, fs.inodes[i]), fs.inodes[i].parent)
  {
    hide Ownership, Sizes;
    InvReadable(fs, i);
  }

  /** A slice of a file that stays within one block is a slice of that block. */
  lemma BlockHolds(fs: Fs, i: nat, blk: nat, start: nat, n: nat)
    requires StorageInv(fs) && i in Abs(fs) && Abs(fs)[i].File?
    requires start + n <= BLOCK_SIZE && 0 < n && blk * BLOCK_SIZE + start + n <= |Abs(fs)[i].content|
    ensures Allocated(fs, i) && blk < fs.inodes[i].nBlocks && fs.inodes[i].dataBlocks[blk] < N_DATA_BLOCKS
    ensures Abs(fs)[i].content[blk * BLOCK_SIZE + start..blk * BLOCK_SIZE + start + n]
         == fs.blocks[fs.inodes[i].dataBlocks[blk]].bytes[start..start + n]
  {
    hide Ownership, Sizes;
    InvReadable(fs, i);
  }

  /** A new content, or none, leaves every path where it led. */
  lemma SameNames(t: Tree, i: nat, c: Option<seq<Byte>>)
    requires NsInv(t) && (c.Some? ==> i in t && t[i].File?)
    ensures var t' := if c.Some? then t[i := File(c.value, t[i].parent)] else t;
      NsInv(t') && forall ts :: Resolve(t', ts) == Resolve(t, ts)
  {
    if c.Some? {
      ContentInv(t, i, c.value);
      forall ts ensures Resolve(t[i := File(c.value, t[i].parent)], ts) == Resolve(t, ts) {
        ContentKeepsNames(t, i, c.value, ts);
      }
    }
  }

  /** The block an allocation would take, 0 when there is none. */
  function NextBlock(fs: Fs): nat
    requires Shape(fs)
  {
    if FirstFree(fs.dataBits) >= 0 then FirstFree(fs.dataBits) else 0
  }

  predicate CanInsert(fs: Fs, p: nat)
    requires Shape(fs) && Allocated(fs, p)
  {
    LastBlockFull(fs.inodes[p]) ==> FirstFree(fs.dataBits) >= 0
  }

  predicate Droppable(fs: Fs, p: nat) {
    Shape(fs) && Allocated(fs, p) && fs.inodes[p].isDir && SizeOk(fs.inodes[p]) && fs.inodes[p].size > 0
  }

  /** The block a directory gives back with its last entry. */
  function AloneInBlock(n: Inode): seq<nat>
    requires SizeOk(n) && n.isDir && n.size > 0
  {
    if (n.size / DENTRY_SIZE - 1) % N_DENTRY_PER_BLOCK == 0 then [n.dataBlocks[n.nBlocks - 1]] else []
  }

  /** The effect of removing the last name of path `ts`, which led to inode `i`. */
  ghost predicate Removed(fs: Fs, fs': Fs, ts: seq<string>, i: nat) {
    && StorageInv(fs) && StorageInv(fs') && ts != [] && i < N_INODES
    && var t, t' := Abs(fs), Abs(fs');
    && var p := Resolve(t, ts[..|ts| - 1]);
    && p.Some? && p.value in t && t[p.value].Dir? && Droppable(fs, p.value)
    && (exists e :: 0 <= e < |t[p.value].entries| && t[p.value].entries[e] == Dirent(ts[|ts| - 1], i)
          && t' == Unlinked(t, p.value, e))
    && (forall us :: Resolve(t', us) == if us == ts then None else Resolve(t, us))
    && fs'.inodeBits == fs.inodeBits[i := false]
    && fs'.dataBits == Cleared(Cleared(fs.dataBits, AloneInBlock(fs.inodes[p.value])), fs.inodes[i].dataBlocks[..fs.inodes[i].nBlocks])
  }

  lemma ParentNormal(path: string)
    requires Normal(path) && |path| < FS_MAX_PATH && Tokens(path) != []
    ensures var front := Tokens(path)[..|Tokens(path)| - 1];
      Normal(PathOf(front)) && Tokens(PathOf(front)) == front && |PathOf(front)| < FS_MAX_PATH
  {
    var ts := Tokens(path);
    var front := ts[..|ts| - 1];
    TokensOfPath(front);
    LastName(path);
  }

  /** The entry a path ends with. */
  lemma EntryOfPath(t: Tree, ts: seq<string>, i: nat) returns (e: nat)
    requires NsInv(t) && ts != [] && Resolve(t, ts) == Some(i)
    ensures var p := Resolve(t, ts[..|ts| - 1]);
      && p.Some? && p.value in t && t[p.value].Dir? && i in t && p.value != i && i != ROOT_INO
      && Distinct(t[p.value].entries) && e < |t[p.value].entries| && t[p.value].entries[e] == Dirent(ts[|ts| - 1], i)
  {
    var p := Resolve(t, ts[..|ts| - 1]).value;
    LookupFinds(t, p, ts[|ts| - 1], i);
    assert EntriesOk(t, p);
    e :| 0 <= e < |t[p].entries| && t[p].entries[e] == Dirent(ts[|ts| - 1], i);
    if p == i {
      UniquePath(t, ts, ts[..|ts| - 1]);
    }
  }

  /** At its end the compaction has found the entry and the directory is ready to drop its last one. */
  lemma ScanDone(fs: Fs, fs': Fs, p: nat, index: int, found: nat, at: nat, x: Dirent)
    requires StorageInv(fs) && p in Abs(fs) && Abs(fs)[p].Dir?
    requires Scanned(fs, fs', p, index, found, |Abs(fs)[p].entries|, x)
    requires at < |Abs(fs)[p].entries| && Abs(fs)[p].entries[at] == x
    ensures index >= 0 && found == at
    ensures StorageInv(fs') && fs' == fs.(blocks := fs'.blocks)
    ensures Abs(fs') == Abs(fs)[p := Dir(Shifted(Abs(fs)[p].entries, at, |Abs(fs)[p].entries|), Abs(fs)[p].parent)]
  {
    hide StorageInv, Abs;
    if index >= 0 {
      DistinctInos(Abs(fs)[p].entries, found, at);
    }
  }

  lemma ShiftedNotEmpty(es: seq<Dirent>, at: nat)
    requires at < |es|
    ensures |Shifted(es, at, |es|)| == |es| && Shifted(es, at, |es|)[..|es| - 1] == RemoveAt(es, at)
  {}

  /** After the compaction and the drop, directory `p` lists all entries but the one at `at`. */
  lemma EntryGone(fs: Fs, fs1: Fs, p: nat, at: nat, i: nat)
    requires StorageInv(fs) && StorageInv(fs1) && p in Abs(fs) && Abs(fs)[p].Dir? && at < |Abs(fs)[p].entries|
    requires fs1 == fs.(blocks := fs1.blocks)
    requires Abs(fs1) == Abs(fs)[p := Dir(Shifted(Abs(fs)[p].entries, at, |Abs(fs)[p].entries|), Abs(fs)[p].parent)]
    requires Droppable(fs1, p)
    requires i < N_INODES && i != p
    ensures Droppable(fs, p)
    ensures var fs2 := LastDropped(fs1, p);
      && StorageInv(fs2)
      && Abs(fs2) == Abs(fs)[p := Dir(RemoveAt(Abs(fs)[p].entries, at), Abs(fs)[p].parent)]
      && fs2.inodeBits == fs.inodeBits && fs2.inodes[i] == fs.inodes[i]
      && fs2.dataBits == Cleared(fs.dataBits, AloneInBlock(fs.inodes[p]))
  {
    hide Ownership, Sizes, Abs, Shifted, Cleared;
    LastDroppedOk(fs1, p);
    DirIs(fs1, p);
    ShiftedNotEmpty(Abs(fs)[p].entries, at);
    var n := fs.inodes[p];
    if (n.size / DENTRY_SIZE - 1) % N_DENTRY_PER_BLOCK == 0 {
      assert n.dataBlocks[n.nBlocks - 1..n.nBlocks] == [n.dataBlocks[n.nBlocks - 1]];
    } else {
      assert n.dataBlocks[n.nBlocks..n.nBlocks] == [];
    }
  }

  /** A childless inode, once cut to length 0, holds no block. */
  lemma ContentGone(fs: Fs, fs': Fs, i: nat)
    requires StorageInv(fs) && StorageInv(fs') && i in Abs(fs) && Allocated(fs, i) && Childless(Abs(fs)[i])
    requires if Abs(fs)[i].File? && 0 < |Abs(fs)[i].content| then
        && Abs(fs') == Abs(fs)[i := File(Abs(fs)[i].content[..0], Abs(fs)[i].parent)]
        && fs' == Shrunk(fs, i, DivUp(0, BLOCK_SIZE), 0)
      else fs' == fs
    ensures Allocated(fs', i) && fs'.inodes[i].nBlocks == 0 && fs'.inodeBits == fs.inodeBits
    ensures fs'.dataBits == Cleared(fs.dataBits, fs.inodes[i].dataBlocks[..fs.inodes[i].nBlocks])
    ensures Abs(fs') - {i} == Abs(fs) - {i}
  {
    hide Ownership, Cleared;
    ClearedNothing(fs.dataBits);
    InvReadable(fs, i);
  }

  /** The steps of an unlink together. */
  lemma AllGone(fs: Fs, fs2: Fs, fs3: Fs, fs': Fs, ts: seq<string>, p: nat, at: nat, i: nat)
    requires StorageInv(fs) && StorageInv(fs2) && StorageInv(fs3) && NsInv(Abs(fs)) && ts != []
    requires Resolve(Abs(fs), ts) == Some(i) && Resolve(Abs(fs), ts[..|ts| - 1]) == Some(p) && p != i
    requires p in Abs(fs) && Abs(fs)[p].Dir? && i in Abs(fs) && Childless(Abs(fs)[i]) && Droppable(fs, p)
    requires at < |Abs(fs)[p].entries| && Abs(fs)[p].entries[at] == Dirent(ts[|ts| - 1], i)
    requires Abs(fs2) == Abs(fs)[p := Dir(RemoveAt(Abs(fs)[p].entries, at), Abs(fs)[p].parent)]
    requires fs2.inodeBits == fs.inodeBits && Allocated(fs, i) && fs2.inodes[i] == fs.inodes[i]
    requires fs2.dataBits == Cleared(fs.dataBits, AloneInBlock(fs.inodes[p]))
    requires Allocated(fs3, i) && fs3.inodes[i].nBlocks == 0 && fs3.inodeBits == fs2.inodeBits
    requires fs3.dataBits == Cleared(fs2.dataBits, fs2.inodes[i].dataBlocks[..fs2.inodes[i].nBlocks])
    requires Abs(fs3) - {i} == Abs(fs2) - {i}
    requires fs' == Released(fs3, i)
    ensures StorageInv(fs') && NsInv(Abs(fs')) && Removed(fs, fs', ts, i)
  {
    hide StorageInv, NsInv, Abs, Cleared, Resolve, Childless, Droppable, Distinct;
    var t := Abs(fs);
    ReleasedOk(fs3, i);
    assert Abs(fs') == Unlinked(t, p, at);
    var front := ts[..|ts| - 1];
    assert front + [t[p].entries[at].name] == ts;
    UnlinkedInv(t, front, p, at);
    forall us ensures Resolve(Unlinked(t, p, at), us) == if us == ts then None else Resolve(t, us) {
      UnlinkedResolves(t, front, p, at, us);
    }
  }

  /** What `find_inode` answers. */
  function Found(t: Tree, path: string): Option<nat> {
    if |path| > FS_MAX_PATH then None else Resolve(t, Tokens(path))
  }

  lemma ShortPath(path: string)
    requires Normal(path) && |path| <= FS_MAX_PATH
    ensures |path| < FS_MAX_PATH
  {}

  /** The outcome of create (or mkdir, when `isDir`), in the order in which the causes are checked. */
  function MakeResult(fs: Fs, t: Tree, path: string, isDir: bool): int
    requires Shape(fs)
  {
    if |path| > FS_MAX_PATH then -ENAMETOOLONG
    else if FirstFree(fs.dataBits) < 0 then -ENOMEM
    else if Resolve(t, Tokens(path)).Some? then -EEXIST
    else if Tokens(path) == [] then 0
    else
      match Resolve(t, Tokens(path)[..|Tokens(path)| - 1])
      case None => -ENOENT
      case Some(p) =>
        if !(p in t && t[p].Dir?) then -ENOTDIR
        else if |t[p].entries| == N_DENTRY_PER_DIR then -ENOMEM
        else if FirstFree(fs.inodeBits) < 0 then if isDir then -EDQUOT else -ENOMEM
        else 0
  }

  /** The effect of creating the node with path `ts`. */
  ghost predicate Made(fs: Fs, fs': Fs, ts: seq<string>, isDir: bool) {
    && StorageInv(fs) && StorageInv(fs') && ts != []
    && var t, t' := Abs(fs), Abs(fs');
    && var p := Resolve(t, ts[..|ts| - 1]);
    && var ino := FirstFree(fs.inodeBits);
    && p.Some? && p.value in t && t[p.value].Dir? && ino >= 0 && ino !in t
    && t' == Linked(t, p.value, ts[|ts| - 1], ino, isDir)
    && Resolve(t, ts) == None
    && (forall us :: Resolve(t', us) == if us == ts then Some(ino) else Resolve(t, us))
    && fs'.inodeBits == fs.inodeBits[ino := true]
    && Allocated(fs, p.value) && fs.inodes[p.value].isDir && fs.inodes[p.value].size < MAX_FILE_SIZE
    && StorageInv(NewInode(fs, ino, isDir, p.value))
    && (LastBlockFull(fs.inodes[p.value]) ==> NextBlock(fs) < N_USABLE_BLOCKS && !fs.dataBits[NextBlock(fs)])
    && fs' == EntryAdded(NewInode(fs, ino, isDir, p.value), p.value, NextBlock(fs), Dirent(ts[|ts| - 1], ino))
  }

  /** With a free inode taken, there is still room for the entry. */
  lemma FreshInode(fs: Fs, isDir: bool, p: nat)
    requires StorageInv(fs) && NsInv(Abs(fs)) && FirstFree(fs.inodeBits) >= 0 && FirstFree(fs.dataBits) >= 0
    requires p in Abs(fs) && Abs(fs)[p].Dir? && |Abs(fs)[p].entries| != N_DENTRY_PER_DIR
    ensures var ino := FirstFree(fs.inodeBits);
      var fs1 := NewInode(fs, ino, isDir, p);
      && ino !in Abs(fs) && StorageInv(fs1) && Abs(fs1) == Abs(fs)[ino := EmptyNode(isDir, p)]
      && p in Abs(fs1) && Abs(fs1)[p] == Abs(fs)[p] && |Abs(fs)[p].entries| < N_DENTRY_PER_DIR
      && Allocated(fs1, p) && fs1.inodes[p] == fs.inodes[p] && fs1.inodes[p].isDir && fs1.inodes[p].size < MAX_FILE_SIZE
      && CanInsert(fs1, p) && NextBlock(fs1) == NextBlock(fs) == FirstFree(fs.dataBits)
  {
    hide Ownership;
    var ino := FirstFree(fs.inodeBits);
    NewInodeOk(fs, ino, isDir, p);
    assert EntriesOk(Abs(fs), p);
    DirIs(fs, p);
  }

  lemma MakeDone(fs: Fs, fs': Fs, isDir: bool, p: nat, ts: seq<string>)
    requires StorageInv(fs) && NsInv(Abs(fs)) && FirstFree(fs.inodeBits) >= 0 && FirstFree(fs.dataBits) >= 0
    requires p in Abs(fs) && Abs(fs)[p].Dir? && |Abs(fs)[p].entries| != N_DENTRY_PER_DIR
    requires ts != [] && Resolve(Abs(fs), ts) == None && Resolve(Abs(fs), ts[..|ts| - 1]) == Some(p) && ValidName(ts[|ts| - 1])
    requires var ino := FirstFree(fs.inodeBits);
      var fs1 := NewInode(fs, ino, isDir, p);
      && StorageInv(fs1) && Allocated(fs1, p) && fs1.inodes[p].isDir && fs1.inodes[p].size < MAX_FILE_SIZE
      && CanInsert(fs1, p)
      && fs' == EntryAdded(fs1, p, NextBlock(fs1), Dirent(ts[|ts| - 1], ino))
    ensures StorageInv(fs') && NsInv(Abs(fs')) && Made(fs, fs', ts, isDir)
  {
    hide Ownership, Sizes, NsInv, Abs, Resolve, ValidName, EntryAdded, LookupIn, NewInode, Linked, CanInsert, NextBlock;
    var ino := FirstFree(fs.inodeBits);
    var fs1 := NewInode(fs, ino, isDir, p);
    var name := ts[|ts| - 1];
    FreshInode(fs, isDir, p);
    NewInodeFrame(fs, ino, isDir, p);
    InsertRoom(fs1, p);
    EntryAddedOk(fs1, p, NextBlock(fs1), Dirent(name, ino));
    EntryAddedBits(fs1, p, NextBlock(fs1), Dirent(name, ino));
    AddedIsLinked(fs, fs1, p, NextBlock(fs1), name, ino, isDir);
    MakeNames(Abs(fs), p, ts, ino, isDir);
  }

  lemma InsertRoom(fs: Fs, p: nat)
    requires StorageInv(fs) && Allocated(fs, p) && CanInsert(fs, p)
    ensures LastBlockFull(fs.inodes[p]) ==> NextBlock(fs) < N_USABLE_BLOCKS && !fs.dataBits[NextBlock(fs)]
  {}

  lemma NewInodeFrame(fs: Fs, ino: int, isDir: bool, p: nat)
    requires StorageInv(fs) && 0 <= ino < N_INODES
    ensures NewInode(fs, ino, isDir, p).inodeBits == fs.inodeBits[ino := true] && NewInode(fs, ino, isDir, p).dataBits == fs.dataBits
  {}

  /** The added entry is the new link of the tree. */
  lemma AddedIsLinked(fs: Fs, fs1: Fs, p: nat, b: nat, name: string, ino: nat, isDir: bool)
    requires StorageInv(fs) && StorageInv(fs1) && Allocated(fs1, p) && fs1.inodes[p].isDir && fs1.inodes[p].size < MAX_FILE_SIZE
    requires LastBlockFull(fs1.inodes[p]) ==> b < N_USABLE_BLOCKS && !fs1.dataBits[b]
    requires Readable(fs1, fs1.inodes[p]) && StorageInv(EntryAdded(fs1, p, b, Dirent(name, ino)))
    requires Abs(EntryAdded(fs1, p, b, Dirent(name, ino))) == Abs(fs1)[p := Dir(Entries(fs1, fs1.inodes[p]) + [Dirent(name, ino)], fs1.inodes[p].parent)]
    requires p in Abs(fs) && Abs(fs)[p].Dir? && ino !in Abs(fs) && Abs(fs1) == Abs(fs)[ino := EmptyNode(isDir, p)] && p in Abs(fs1) && Abs(fs1)[p] == Abs(fs)[p]
    ensures Abs(EntryAdded(fs1, p, b, Dirent(name, ino))) == Linked(Abs(fs), p, name, ino, isDir)
  {
    hide Ownership, Sizes, Abs, EntryAdded;
    DirIs(fs1, p);
  }

  /** What the new link means for names. */
  lemma MakeNames(t: Tree, p: nat, ts: seq<string>, ino: nat, isDir: bool)
    requires NsInv(t) && p in t && t[p].Dir? && |t[p].entries| < N_DENTRY_PER_DIR && ino !in t
    requires ts != [] && Resolve(t, ts) == None && Resolve(t, ts[..|ts| - 1]) == Some(p) && ValidName(ts[|ts| - 1])
    ensures var t' := Linked(t, p, ts[|ts| - 1], ino, isDir);
      NsInv(t') && forall us :: Resolve(t', us) == if us == ts then Some(ino) else Resolve(t, us)
  {
    hide NsInv, Resolve, ValidName, LookupIn, Linked;
    var front, name := ts[..|ts| - 1], ts[|ts| - 1];
    assert front + [name] == ts;
    ResolveStep(t, front, name);
    LinkedInv(t, front, p, name, ino, isDir);
    forall us ensures Resolve(Linked(t, p, name, ino, isDir), us) == if us == ts then Some(ino) else Resolve(t, us) {
      LinkedResolves(t, front, p, name, ino, isDir, us);
    }
  }

  /** An added entry leaves the inode bitmap alone and takes a block only when it needs one. */
  lemma EntryAddedBits(fs: Fs, p: nat, b: nat, d: Dirent)
    requires StorageInv(fs) && Allocated(fs, p) && fs.inodes[p].isDir && fs.inodes[p].size < MAX_FILE_SIZE
    requires LastBlockFull(fs.inodes[p]) ==> b < N_USABLE_BLOCKS && !fs.dataBits[b]
    ensures var fs' := EntryAdded(fs, p, b, d);
      && Shape(fs') && fs'.inodeBits == fs.inodeBits
      && fs'.dataBits == (if LastBlockFull(fs.inodes[p]) then fs.dataBits[b := true] else fs.dataBits)
      && SizeOk(fs'.inodes[p]) && fs'.inodes[p].isDir && fs'.inodes[p].size > 0
      && AloneInBlock(fs'.inodes[p]) == (if LastBlockFull(fs.inodes[p]) then [b] else [])
      && forall j :: 0 <= j < N_INODES && j != p ==> fs'.inodes[j] == fs.inodes[j]
  {
    hide Ownership, Sizes;
    SizesAt(fs, p);
    var w := Widened(fs, p, b);
    WidenedOk(fs, p, b);
    InvReadable(w, p);
    assert SizeOk(w.inodes[p]) by { SizesAt(w, p); }
    assert Slot(w, p, fs.inodes[p].size / DENTRY_SIZE / N_DENTRY_PER_BLOCK);
    assert EntryAdded(fs, p, b, d) == SlotSet(w, p, fs.inodes[p].size / DENTRY_SIZE, d);
  }

  lemma SizesAt(fs: Fs, i: nat)
    requires StorageInv(fs) && Allocated(fs, i)
    ensures SizeOk(fs.inodes[i])
  {
    hide Ownership;
  }

  /** The path just made leads to the new, empty file. */
  lemma MadeFound(fs: Fs, fs': Fs, path: string)
    requires Made(fs, fs', Tokens(path), false) && |path| <= FS_MAX_PATH
    ensures var ino := FirstFree(fs.inodeBits);
      && ino >= 0 && Found(Abs(fs'), path) == Some(ino) && ino in Abs(fs') && Abs(fs')[ino].File?
  {
    hide StorageInv, Abs, Resolve;
  }

  lemma BitsRestored(fs: Fs, fs1: Fs, fs2: Fs, ts: seq<string>)
    requires Made(fs, fs1, ts, false) && Removed(fs1, fs2, ts, FirstFree(fs.inodeBits))
    ensures fs2.inodeBits == fs.inodeBits && fs2.dataBits == fs.dataBits
    ensures forall us :: Resolve(Abs(fs2), us) == Resolve(Abs(fs), us)
  {
    hide Ownership, Sizes, Abs, Resolve, EntryAdded, Unlinked, Linked, AloneInBlock, Cleared;
    var ino := FirstFree(fs.inodeBits);
    var p := Resolve(Abs(fs), ts[..|ts| - 1]).value;
    EntryAddedBits(NewInode(fs, ino, false, p), p, NextBlock(fs), Dirent(ts[|ts| - 1], ino));
    ClearedBack(fs.dataBits, NextBlock(fs));
    ClearedNothing(fs.dataBits);
    assert ino != p;
  }

  lemma ClearedBack(bits: seq<bool>, b: nat)
    requires b < |bits|
    ensures !bits[b] ==> Cleared(bits[b := true], [b]) == bits
  {}

  /** Only the entries of directory `p` differ between the states; there they are `es`. */
  ghost predicate ShiftState(fs: Fs, fs': Fs, p: nat, es: seq<Dirent>) {
    && StorageInv(fs) && StorageInv(fs') && p in Abs(fs)
    && fs' == fs.(blocks := fs'.blocks)
    && Abs(fs') == Abs(fs)[p := Dir(es, Abs(fs)[p].parent)]
  }

  /** The entries when all before position `m` have been looked at and entry `at` was the match. */
  function Shifted(es: seq<Dirent>, at: nat, m: nat): seq<Dirent>
    requires at < |es| && at <= m <= |es|
  {
    var k := if m < |es| then m else |es| - 1;
    es[..at] + es[at + 1..k + 1] + es[k..]
  }

  /** The compaction after `m` entries: `x` not met so far, or met at `at` and shifted out. */
  ghost predicate Scanned(fs: Fs, fs': Fs, p: nat, index: int, at: nat, m: nat, x: Dirent) {
    && StorageInv(fs) && p in Abs(fs) && Abs(fs)[p].Dir?
    && var es := Abs(fs)[p].entries;
    && Distinct(es) && m <= |es|
    && (if index < 0 then fs' == fs && forall k :: 0 <= k < m ==> es[k] != x
        else at < m && es[at] == x && ShiftState(fs, fs', p, Shifted(es, at, m)))
  }

  lemma ScanStarts(fs: Fs, p: nat, x: Dirent)
    requires StorageInv(fs) && p in Abs(fs) && Abs(fs)[p].Dir? && Distinct(Abs(fs)[p].entries)
    ensures Scanned(fs, fs, p, -1, 0, 0, x)
  {}

  /** What a turn of the compaction may rely on. */
  lemma ScanOpen(fs: Fs, cur: Fs, p: nat, index: int, at: nat, e: nat, x: Dirent)
    requires Scanned(fs, cur, p, index, at, e, x) && e < |Abs(fs)[p].entries|
    ensures StorageInv(fs) && p in Abs(fs) && Abs(fs)[p].Dir?
    ensures StorageInv(cur) && p in Abs(cur) && Abs(cur)[p].Dir? && cur == fs.(blocks := cur.blocks)
    ensures |Abs(cur)[p].entries| == |Abs(fs)[p].entries| && Abs(cur)[p].entries[e..] == Abs(fs)[p].entries[e..]
    ensures Abs(cur) == Abs(fs)[p := Dir(if index < 0 then Abs(fs)[p].entries else Shifted(Abs(fs)[p].entries, at, e), Abs(fs)[p].parent)]
  {
    hide StorageInv, Abs, Distinct;
    if index < 0 {
      assert Abs(fs) == Abs(fs)[p := Dir(Abs(fs)[p].entries, Abs(fs)[p].parent)];
    }
  }

  lemma ShiftedStep(es: seq<Dirent>, at: nat, e: nat)
    requires at <= e < |es|
    ensures Shifted(es, at, e + 1) == if e < |es| - 1 then Shifted(es, at, e)[e := es[e + 1]] else Shifted(es, at, e)
    ensures Shifted(es, at, at) == es
  {}

  lemma ScanStep(fs: Fs, cur: Fs, fs': Fs, p: nat, index: int, at: nat, index': int, at': nat, e: nat, x: Dirent)
    requires Scanned(fs, cur, p, index, at, e, x) && e < |Abs(fs)[p].entries|
    requires var es := Abs(fs)[p].entries;
      && (if es[e] == x then index' >= 0 && at' == e else index' == index && at' == at)
      && p in Abs(cur) && Abs(cur)[p].Dir? && |Abs(cur)[p].entries| == |es|
      && (if index' >= 0 && e < |es| - 1 then ShiftState(cur, fs', p, Abs(cur)[p].entries[e := es[e + 1]]) else fs' == cur)
    ensures Scanned(fs, fs', p, index', at', e + 1, x)
  {
    hide StorageInv, Abs, Shifted;
    var es := Abs(fs)[p].entries;
    ScanOpen(fs, cur, p, index, at, e, x);
    if es[e] == x && index >= 0 {
      DistinctInos(es, at, e);
    }
    hide Distinct;
    if index' >= 0 {
      ShiftedStep(es, at', e);
    }
  }

  lemma FullBlocks(n: Inode)
    requires SizeOk(n) && n.isDir
    ensures (n.nBlocks - 1) * N_DENTRY_PER_BLOCK < n.size / DENTRY_SIZE || n.nBlocks == 0
    ensures n.size / DENTRY_SIZE <= n.nBlocks * N_DENTRY_PER_BLOCK
  {}

  lemma RootFacts(t: Tree)
    requires NsInv(t)
    ensures ROOT_INO in t && t[ROOT_INO].Dir? && Resolve(t, []) == Some(ROOT_INO)
    ensures Tokens([DELIM]) == []
  {
    assert [DELIM][1..] == "";
  }

  lemma EmptyNotNormal(path: string)
    requires Normal(path)
    ensures path != ""
  {}

  lemma EnoughBlocks(n: Inode, offset: nat)
    requires SizeOk(n) && !n.isDir && offset <= n.size
    ensures offset / BLOCK_SIZE <= n.nBlocks
  {}

  lemma NoLookupInFile(t: Tree, d: nat, name: string)
    requires d in t && t[d].File?
    ensures LookupIn(t, d, name) == None
  {}

  lemma SpliceNothing(t: Tree, i: nat, off: nat)
    requires i in t && t[i].File? && off <= |t[i].content|
    ensures t == t[i := File(Splice(t[i].content, off, []), t[i].parent)]
  {
    assert Splice(t[i].content, off, []) == t[i].content;
  }

  lemma WriteBlockShape(fs: Fs, i: nat, blk: nat, b: nat, start: nat, d: seq<Byte>)
    requires StorageInv(fs) && Allocated(fs, i) && !fs.inodes[i].isDir
    requires blk <= fs.inodes[i].nBlocks && blk < N_DATA_BLOCKS_PER_INODE && start + |d| <= BLOCK_SIZE
    requires blk == fs.inodes[i].nBlocks ==> b < N_USABLE_BLOCKS && !fs.dataBits[b]
    ensures var fs' := WriteBlock(fs, i, blk, b, start, d);
      && Shape(fs') && Allocated(fs', i) && !fs'.inodes[i].isDir && fs'.inodes[i].nBlocks > blk
      && fs'.inodes[i].size >= blk * BLOCK_SIZE + start + |d|
  {
    hide Ownership, Sizes;
    if blk < fs.inodes[i].nBlocks {
      InvReadable(fs, i);
      assert Slot(fs, i, blk);
    }
  }

  /** One block further: the tree shows the longer prefix of the buffer. */
  lemma WriteStep(fs: Fs, t: Tree, i: nat, blk: nat, start: nat, offset: nat, buffer: seq<Byte>, written: nat, count: nat)
    requires StorageInv(fs) && Allocated(fs, i) && !fs.inodes[i].isDir && i in t && t[i].File?
    requires blk <= fs.inodes[i].nBlocks && blk < N_DATA_BLOCKS_PER_INODE
    requires blk == fs.inodes[i].nBlocks ==> FirstFree(fs.dataBits) >= 0
    requires start + count <= BLOCK_SIZE && blk * BLOCK_SIZE + start == offset + written <= fs.inodes[i].size
    requires offset <= |t[i].content| && written + count <= |buffer| && offset + written + count < MAX_FILE_SIZE
    requires written == 0 ==> count > 0
    requires Abs(fs) == t[i := File(Splice(t[i].content, offset, buffer[..written]), t[i].parent)]
    ensures var fs' := WriteBlock(fs, i, blk, if blk < fs.inodes[i].nBlocks then 0 else FirstFree(fs.dataBits),
                                  start, buffer[written..written + count]);
      && StorageInv(fs') && Allocated(fs', i) && !fs'.inodes[i].isDir && fs'.inodes[i].nBlocks > blk
      && fs'.inodes[i].size >= offset + written + count
      && Abs(fs') == t[i := File(Splice(t[i].content, offset, buffer[..written + count]), t[i].parent)]
  {
    hide Ownership, Sizes, Content, WriteBlock;
    InvReadable(fs, i);
    var d := buffer[written..written + count];
    var b := if blk < fs.inodes[i].nBlocks then 0 else FirstFree(fs.dataBits);
    WriteBlockOk(fs, i, blk, b, start, d);
    assert Abs(fs)[i] == File(Content(fs, fs.inodes[i]), fs.inodes[i].parent);
    WriteBlockShape(fs, i, blk, b, start, d);
    SpliceSplice(t[i].content, offset, buffer[..written], d);
    assert buffer[..written] + d == buffer[..written + count];
  }

  /** A walk that fails at a component fails for the whole path. */
  lemma {:induction false} ResolveCutShort(t: Tree, ts: seq<string>, i: nat)
    requires i <= |ts| && Resolve(t, ts[..i]) == None
    ensures Resolve(t, ts) == None
    decreases |ts| - i
  {
    if i < |ts| {
      assert ts[..i + 1] == ts[..i] + [ts[i]];
      ResolveStep(t, ts[..i], ts[i]);
      ResolveCutShort(t, ts, i + 1);
    } else {
      assert ts[..i] == ts;
    }
  }
}
