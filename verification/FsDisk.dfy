/** The file system operations, updating inodes, blocks and bitmaps in place. Each is proved
    against the tree of names and contents that the structures represent. */
module FsDisk {
  import opened Bitmaps
  import opened Wrappers
  import opened FsStorage
  import opened FsTree
  import opened FsPaths
  import opened FsSteps

  class Disk {
    const inodes: array<Inode>
    const blocks: array<Block>
    const inodeBitmap: Bitmap
    const dataBitmap: Bitmap

    ghost predicate Wired() {
      && inodes.Length == N_INODES && blocks.Length == N_DATA_BLOCKS
      && inodeBitmap.words.Length * BITS_PER_WORD == N_INODES
      && dataBitmap.words.Length == DATA_BITMAP_WORDS
      && inodeBitmap.words != dataBitmap.words
    }

    ghost function State(): (fs: Fs)
      requires Wired()
      reads inodes, blocks, inodeBitmap.words, dataBitmap.words
      ensures Shape(fs)
    {
      Fs(inodes[..], blocks[..], inodeBitmap.Bits(), dataBitmap.Bits())
    }

    ghost predicate Valid()
      reads inodes, blocks, inodeBitmap.words, dataBitmap.words
    {
      Wired() && StorageInv(State()) && NsInv(Abs(State()))
    }

    /** An empty file system: the root inode and nothing else. */
    constructor ()
      ensures Valid() && fresh(inodes) && fresh(blocks) && fresh(inodeBitmap.words) && fresh(dataBitmap.words)
      ensures Abs(State()) == map[ROOT_INO := Dir([], ROOT_INO)]
    {
      inodes := new Inode[N_INODES](_ => RawInode(false, 0, 0, seq(N_DATA_BLOCKS_PER_INODE, _ => 0), 0));
      blocks := new Block[N_DATA_BLOCKS](_ => RawBlock(seq(BLOCK_SIZE, _ => 0), seq(N_DENTRY_PER_BLOCK, _ => Dirent("", 0))));
      inodeBitmap := new Bitmap(N_INODES / BITS_PER_WORD);
      dataBitmap := new Bitmap(DATA_BITMAP_WORDS);
      new;
      EmptyInv(State());
      ghost var before := State();
      var root := InitInode(true);
      NewInodeOk(before, ROOT_INO, true, ROOT_INO);
      RootInv();
    }

    // -------------------------------------------------------------------------------------------
    // Allocation

    /** Takes the lowest free inode. */
    method InitInode(isDir: bool) returns (r: Option<nat>)
      requires Wired()
      modifies inodes, inodeBitmap.words
      ensures r.None? ==> FirstFree(old(State()).inodeBits) < 0 && State() == old(State())
      ensures r.Some? ==>
        && r.value == FirstFree(old(State()).inodeBits)
        && State() == NewInode(old(State()), r.value, isDir, old(State()).inodes[r.value].parent)
    {
      var freeBit := inodeBitmap.GetFreeBit();
      if freeBit < 0 {
        return None;
      }
      inodeBitmap.SetBit(freeBit);
      inodes[freeBit] := inodes[freeBit].(isDir := isDir, size := 0, nBlocks := 0);
      return Some(freeBit);
    }

    /** Takes the lowest free data block. */
    method InitDataBlock() returns (r: Option<nat>)
      requires Wired()
      modifies dataBitmap.words
      ensures r.None? ==> FirstFree(old(State()).dataBits) < 0 && State() == old(State())
      ensures r.Some? ==>
        && r.value == FirstFree(old(State()).dataBits)
        && State() == old(State()).(dataBits := old(State()).dataBits[r.value := true])
    {
      var freeBit := dataBitmap.GetFreeBit();
      if freeBit < 0 {
        return None;
      }
      dataBitmap.SetBit(freeBit);
      return Some(freeBit);
    }

    // -------------------------------------------------------------------------------------------
    // Directories

    /** Entry `e` of a directory. */
    method GetDirent(d: nat, e: nat) returns (x: Dirent)
      requires Wired() && StorageInv(State()) && d in Abs(State()) && Abs(State())[d].Dir?
      requires e < |Abs(State())[d].entries|
      ensures x == Abs(State())[d].entries[e]
    {
      hide StorageInv, Abs, Bitmap.Bits;
      NodeFacts(d);
      DirIs(State(), d);
      var block := inodes[d].dataBlocks[e / N_DENTRY_PER_BLOCK];
      x := blocks[block].dents[e % N_DENTRY_PER_BLOCK];
    }

    /** Scans a directory for a name. */
    method FindInDir(name: string, d: nat) returns (r: Option<nat>)
      requires Wired() && StorageInv(State()) && NsInv(Abs(State())) && d in Abs(State())
      ensures r == LookupIn(Abs(State()), d, name)
      ensures r.Some? ==> r.value in Abs(State())
    {
      hide State, Wired, StorageInv, NsInv, Abs, LookupIn, SizeOk;
      ghost var t := Abs(State());
      NodeFacts(d);
      if !inodes[d].isDir {
        NoLookupInFile(t, d, name);
        return None;
      }
      var n := inodes[d].size / DENTRY_SIZE;
      for e := 0 to n
        invariant forall k :: 0 <= k < e ==> t[d].entries[k].name != name
      {
        var x := GetDirent(d, e);
        if x.name == name {
          ScanFinds(t, d, name, e);
          LookupFinds(t, d, name, x.ino);
          return Some(x.ino);
        }
      }
      ScanFinds(t, d, name, n);
      return None;
    }

    /** Walks a path from the root, one component at a time. */
    method FindInode(path: string) returns (r: Option<nat>)
      requires Wired() && StorageInv(State()) && NsInv(Abs(State())) && Normal(path)
      ensures r == if |path| > FS_MAX_PATH then None else Resolve(Abs(State()), Tokens(path))
      ensures r.Some? ==> r.value in Abs(State())
    {
      hide State, Wired, StorageInv, NsInv, Abs, LookupIn, Resolve, Tokens, Normal, PathOf;
      ghost var t := Abs(State());
      RootFacts(t);
      if |path| > FS_MAX_PATH || |path| == 0 {
        EmptyNotNormal(path);
        return None;
      }
      if path == [DELIM] {
        return Some(ROOT_INO);
      }
      var tokens := Tokens(path);
      var curr := Some(ROOT_INO);
      assert tokens[..0] == [];
      for i := 0 to |tokens|
        invariant curr.Some? && curr == Resolve(t, tokens[..i]) && curr.value in t
      {
        ResolveStep(t, tokens[..i], tokens[i]);
        assert tokens[..i + 1] == tokens[..i] + [tokens[i]];
        curr := FindInDir(tokens[i], curr.value);
        if curr.None? {
          ResolveCutShort(t, tokens, i + 1);
          return None;
        }
      }
      assert tokens[..|tokens|] == tokens;
      return curr;
    }

    // -------------------------------------------------------------------------------------------
    // File contents

    /** One turn of the write loop: slot `blk`, taken from the bitmap if need be, receives `d`. */
    method WriteOneBlock(i: nat, blk: nat, start: nat, d: seq<Byte>) returns (ok: bool)
      requires Wired() && StorageInv(State()) && Allocated(State(), i)
      requires blk <= State().inodes[i].nBlocks && blk < N_DATA_BLOCKS_PER_INODE && start + |d| <= BLOCK_SIZE
      modifies inodes, blocks, dataBitmap.words
      ensures !ok ==> State() == old(State()) && FirstFree(old(State()).dataBits) < 0
      ensures ok ==>
        && (blk == old(State()).inodes[i].nBlocks ==> FirstFree(old(State()).dataBits) >= 0)
        && State() == WriteBlock(old(State()), i, blk,
                                 if blk < old(State()).inodes[i].nBlocks then 0 else FirstFree(old(State()).dataBits),
                                 start, d)
    {
      hide Ownership, Sizes;
      ghost var fs := State();
      InvReadable(fs, i);
      var block: nat;
      if blk < inodes[i].nBlocks {
        block := inodes[i].dataBlocks[blk];
      } else {
        var r := InitDataBlock();
        if r.None? {
          return false;
        }
        block := r.value;
        inodes[i] := inodes[i].(dataBlocks := inodes[i].dataBlocks[inodes[i].nBlocks := block], nBlocks := inodes[i].nBlocks + 1);
        assert State() == Grown(fs, i, block);
      }
      ghost var g := State();
      blocks[block] := blocks[block].(bytes := Splice(blocks[block].bytes, start, d));
      var end := blk * BLOCK_SIZE + start + |d|;
      inodes[i] := inodes[i].(size := if inodes[i].size > end then inodes[i].size else end);
      assert State() == Patched(g, i, blk, start, d);
      return true;
    }

    /** Writes `buffer` at `offset`; the returned count falls short only when the disk fills. */
    method WriteFile(i: nat, buffer: seq<Byte>, offset: nat) returns (r: int)
      requires Wired() && StorageInv(State()) && i in Abs(State())
      requires offset + |buffer| != MAX_FILE_SIZE
      modifies inodes, blocks, dataBitmap.words
      ensures StorageInv(State())
      ensures r < 0 ==> State() == old(State())
      ensures r == -EISDIR <==> old(Abs(State()))[i].Dir?
      ensures r == -EFBIG <==>
        && old(Abs(State()))[i].File?
        && (offset > |old(Abs(State()))[i].content| || offset + |buffer| > MAX_FILE_SIZE)
      ensures r != -EISDIR && r != -EFBIG ==>
        && 0 <= r <= |buffer|
        && (r < |buffer| ==> FirstFree(State().dataBits) < 0)
        && Abs(State()) == old(Abs(State()))[i := File(Splice(old(Abs(State()))[i].content, offset, buffer[..r]), old(Abs(State()))[i].parent)]
      ensures r >= 0 ==> i in Abs(State()) && Abs(State())[i].File? && old(Abs(State()))[i].File?
      ensures r >= 0 ==> var c, c' := old(Abs(State()))[i].content, Abs(State())[i].content;
        && offset <= |c| && |c'| == (if offset + r > |c| then offset + r else |c|)
        && (forall k: nat :: offset <= k < offset + r ==> c'[k] == buffer[k - offset])
        && (forall k: nat :: k < |c| && !(offset <= k < offset + r) ==> c'[k] == c[k])
    {
      hide State, Wired, StorageInv, Abs, Splice, WriteBlock, SizeOk, FirstFree;
      ghost var t := Abs(State());
      NodeFacts(i);
      if inodes[i].isDir {
        return -EISDIR;
      }
      if inodes[i].size < offset {
        return -EFBIG;
      }
      if |buffer| + offset > MAX_FILE_SIZE {
        return -EFBIG;
      }
      SpliceNothing(t, i, offset);
      if |buffer| == 0 {
        assert buffer[..0] == [];
        SpliceBytes(t[i].content, offset, []);
        return 0;
      }
      var firstBlk, firstOffset := offset / BLOCK_SIZE, offset % BLOCK_SIZE;
      var lastBlk, lastOffset := (|buffer| + offset) / BLOCK_SIZE, (|buffer| + offset) % BLOCK_SIZE;
      var written := 0;
      var blk := firstBlk;
      EnoughBlocks(inodes[i], offset);
      assert buffer[..0] == [];
      while blk <= lastBlk
        invariant firstBlk <= blk <= lastBlk + 1
        invariant written == if blk == firstBlk then 0 else if blk == lastBlk + 1 then |buffer| else blk * BLOCK_SIZE - offset
        invariant Wired() && StorageInv(State()) && Allocated(State(), i) && !State().inodes[i].isDir && State().inodes[i].nBlocks >= blk
        invariant Abs(State()) == t[i := File(Splice(t[i].content, offset, buffer[..written]), t[i].parent)]
        invariant State().inodes[i].size >= offset + written
      {
        var start, count := 0, BLOCK_SIZE;
        if blk == firstBlk {
          start, count := firstOffset, BLOCK_SIZE - firstOffset;
        }
        if blk == lastBlk {
          count := lastOffset - start;
        }
        ghost var fs := State();
        var ok := WriteOneBlock(i, blk, start, buffer[written..written + count]);
        if !ok {
          SpliceBytes(t[i].content, offset, buffer[..written]);
          return written;
        }
        WriteStep(fs, t, i, blk, start, offset, buffer, written, count);
        written := written + count;
        blk := blk + 1;
      }
      assert buffer[..written] == buffer;
      SpliceBytes(t[i].content, offset, buffer);
      return written;
    }

    /** Shortens a file, giving back the blocks past the new end; does nothing when it is not longer. */
    method ShrinkFile(i: nat, length: nat)
      requires Wired() && StorageInv(State()) && i in Abs(State())
      modifies inodes, dataBitmap.words
      ensures StorageInv(State())
      ensures old(Abs(State()))[i].File? && length < |old(Abs(State()))[i].content| ==>
        && Abs(State()) == old(Abs(State()))[i := File(old(Abs(State()))[i].content[..length], old(Abs(State()))[i].parent)]
        && DivUp(length, BLOCK_SIZE) <= old(State()).inodes[i].nBlocks
        && State() == Shrunk(old(State()), i, DivUp(length, BLOCK_SIZE), length)
      ensures !(old(Abs(State()))[i].File? && length < |old(Abs(State()))[i].content|) ==> State() == old(State())
    {
      hide State, StorageInv, Abs, SizeOk, Shrunk;
      ghost var fs := State();
      NodeFacts(i);
      if inodes[i].isDir || inodes[i].size <= length {
        return;
      }
      ShrinkOk(fs, i, length);
      ContentIs(fs, i);
      UsableSlots(fs, i);
      ClearBlocks(i, length);
    }

    /** The loop of `shrink_file`: bits cleared from the first block past `length` on. */
    method ClearBlocks(i: nat, length: nat)
      requires Wired() && Allocated(State(), i) && DivUp(length, BLOCK_SIZE) <= State().inodes[i].nBlocks
      requires length / BLOCK_SIZE <= State().inodes[i].nBlocks
      requires forall k :: 0 <= k < State().inodes[i].nBlocks ==> State().inodes[i].dataBlocks[k] < N_USABLE_BLOCKS
      modifies inodes, dataBitmap.words
      ensures State() == Shrunk(old(State()), i, DivUp(length, BLOCK_SIZE), length)
    {
      hide Cleared, Bitmap.Bits, PartlyShrunk;
      ghost var fs := State();
      var lastBlk, lastOffset := length / BLOCK_SIZE, length % BLOCK_SIZE;
      var n := inodes[i].nBlocks;
      ghost var keep := DivUp(length, BLOCK_SIZE);
      NothingShrunk(fs, i, keep);
      for k := lastBlk to n
        invariant State() == PartlyShrunk(fs, i, keep, if k < keep then keep else k)
      {
        if k == lastBlk && lastOffset > 0 {
          continue;
        }
        OneMoreShrunk(fs, i, keep, k);
        dataBitmap.ClearBit(inodes[i].dataBlocks[k]);
        inodes[i] := inodes[i].(nBlocks := inodes[i].nBlocks - 1);
      }
      AllShrunk(fs, i, keep, length);
      inodes[i] := inodes[i].(size := length);
    }

    /** Reads up to `size` bytes from `offset`: exactly that slice of the content. */
    method Read(path: string, size: nat, offset: nat) returns (r: int, data: seq<Byte>)
      requires Valid() && Normal(path)
      ensures var t := Abs(State());
        var i := if |path| > FS_MAX_PATH then None else Resolve(t, Tokens(path));
        && (r == -ENOENT <==> i.None?)
        && (r == -EISDIR <==> i.Some? && i.value in t && t[i.value].Dir?)
        && (r == -ERANGE <==> i.Some? && i.value in t && t[i.value].File? && offset > |t[i.value].content|)
        && (r < 0 ==> data == [] && r in {-ENOENT, -EISDIR, -ERANGE})
        && (r >= 0 ==>
          && i.Some? && i.value in t && t[i.value].File? && offset <= |t[i.value].content|
          && r == |data| == (if size > |t[i.value].content| - offset then |t[i.value].content| - offset else size)
          && data == t[i.value].content[offset..offset + |data|])
    {
      hide Valid, State, StorageInv, NsInv, Abs, SizeOk, Resolve, Tokens, Normal;
      ValidParts();
      data := [];
      var found := FindInode(path);
      if found.None? {
        return -ENOENT, [];
      }
      var i := found.value;
      NodeFacts(i);
      if inodes[i].isDir {
        return -EISDIR, [];
      }
      if inodes[i].size < offset {
        return -ERANGE, [];
      }
      var count := if size > inodes[i].size - offset then inodes[i].size - offset else size;
      if count == 0 {
        return 0, [];
      }
      data := ReadBlocks(i, count, offset);
      return |data|, data;
    }

    /** The loop of `fisopfs_read` over the blocks that hold the slice. */
    method ReadBlocks(i: nat, count: nat, offset: nat) returns (data: seq<Byte>)
      requires Wired() && StorageInv(State()) && i in Abs(State()) && Abs(State())[i].File?
      requires 0 < count && offset + count <= |Abs(State())[i].content|
      ensures |data| == count && data == Abs(State())[i].content[offset..offset + count]
    {
      hide State, StorageInv, Abs, SizeOk;
      NodeFacts(i);
      Records();
      ghost var c := Abs(State())[i].content;
      var firstBlk, firstOffset := offset / BLOCK_SIZE, offset % BLOCK_SIZE;
      var lastBlk, lastOffset := (count + offset) / BLOCK_SIZE, (count + offset) % BLOCK_SIZE;
      data := [];
      var blk := firstBlk;
      while blk <= lastBlk
        invariant firstBlk <= blk <= lastBlk + 1
        invariant |data| == if blk == firstBlk then 0 else if blk == lastBlk + 1 then count else blk * BLOCK_SIZE - offset
        invariant data == c[offset..offset + |data|]
      {
        var start, n := 0, BLOCK_SIZE;
        if blk == firstBlk {
          start, n := firstOffset, BLOCK_SIZE - firstOffset;
        }
        if blk == lastBlk {
          n := lastOffset - start;
        }
        // At an end on a block boundary the last turn copies nothing, from a slot that may be unused.
        if n > 0 {
          BlockHolds(State(), i, blk, start, n);
          var block := inodes[i].dataBlocks[blk];
          SlicesJoin(c, offset, offset + |data|, offset + |data| + n);
          data := data + blocks[block].bytes[start..start + n];
        }
        blk := blk + 1;
      }
    }

    method Write(path: string, buffer: seq<Byte>, offset: nat) returns (r: int)
      requires Valid() && Normal(path) && offset + |buffer| != MAX_FILE_SIZE
      modifies inodes, blocks, dataBitmap.words
      ensures Valid() && forall ts :: Resolve(Abs(State()), ts) == old(Resolve(Abs(State()), ts))
      ensures r < 0 ==> State() == old(State())
      ensures r >= 0 ==> var t := old(Abs(State())); var i := Resolve(t, Tokens(path));
        && i.Some? && i.value in t && t[i.value].File? && offset <= |t[i.value].content|
        && r <= |buffer| && (r < |buffer| ==> FirstFree(State().dataBits) < 0)
        && Abs(State()) == t[i.value := File(Splice(t[i.value].content, offset, buffer[..r]), t[i.value].parent)]
      ensures r >= 0 ==> var t, t' := old(Abs(State())), Abs(State()); var i := Resolve(t, Tokens(path)).value;
        && i in t' && t'[i].File? && |t'[i].content| == (if offset + r > |t[i].content| then offset + r else |t[i].content|)
        && (forall k: nat :: offset <= k < offset + r ==> t'[i].content[k] == buffer[k - offset])
        && (forall k: nat :: k < |t[i].content| && !(offset <= k < offset + r) ==> t'[i].content[k] == t[i].content[k])
      ensures r < 0 <==>
        var t := old(Abs(State())); var i := if |path| > FS_MAX_PATH then None else Resolve(t, Tokens(path));
        i.None? || i.value !in t || t[i.value].Dir? || offset > |t[i.value].content| || offset + |buffer| > MAX_FILE_SIZE
      ensures r < 0 ==> r == match Found(old(Abs(State())), path)
                             case None => -ENOENT
                             case Some(i) => if i in old(Abs(State())) && old(Abs(State()))[i].Dir? then -EISDIR else -EFBIG
    {
      hide Valid, State, StorageInv, NsInv, Abs, Resolve, Tokens, Normal, FirstFree, Splice;
      ValidParts();
      ghost var t := Abs(State());
      var found := FindInode(path);
      if found.None? {
        SameNames(t, 0, None);
        return -ENOENT;
      }
      var i := found.value;
      NodeFacts(i);
      if inodes[i].isDir {
        SameNames(t, 0, None);
        return -EISDIR;
      }
      r := WriteFile(i, buffer, offset);
      if r < 0 {
        SameNames(t, 0, None);
      } else {
        SameNames(t, i, Some(Splice(t[i].content, offset, buffer[..r])));
      }
      PartsValid();
    }

    /** What was written is what is then read. */
    method WriteThenRead(path: string, buffer: seq<Byte>, offset: nat) returns (r: int, n: int, data: seq<Byte>)
      requires Valid() && Normal(path) && offset + |buffer| != MAX_FILE_SIZE
      modifies inodes, blocks, dataBitmap.words
      ensures Valid()
      ensures r >= 0 ==> n == r <= |buffer|
      ensures r >= 0 ==> r < |buffer| ==> FirstFree(State().dataBits) < 0
      ensures r >= 0 ==> data == buffer[..r]
    {
      hide Valid, State, StorageInv, NsInv, Abs, Resolve, Tokens, Normal, FirstFree, Splice;
      ValidParts();
      ghost var t := Abs(State());
      r := Write(path, buffer, offset);
      n, data := -1, [];
      if r >= 0 {
        ValidParts();
        ghost var i := Resolve(t, Tokens(path)).value;
        ghost var t' := Abs(State());
        assert |path| <= FS_MAX_PATH && Resolve(t', Tokens(path)) == Some(i);
        ghost var c' := t'[i].content;
        assert c'[offset..offset + r] == buffer[..r] by {
          SliceIs(c', offset, buffer[..r]);
        }
        n, data := Read(path, r, offset);
        assert n >= 0;
        assert data == c'[offset..offset + |data|];
        assert n == |data| == r;
      }
    }

    /** Cuts a file or extends it with zeros. */
    method Truncate(path: string, length: nat) returns (r: int)
      requires Valid() && Normal(path) && length != MAX_FILE_SIZE
      modifies inodes, blocks, dataBitmap.words
      ensures Valid() && forall ts :: Resolve(Abs(State()), ts) == old(Resolve(Abs(State()), ts))
      ensures r < 0 ==> State() == old(State())
      ensures r < 0 <==>
        var t := old(Abs(State())); var i := if |path| > FS_MAX_PATH then None else Resolve(t, Tokens(path));
        length > MAX_FILE_SIZE || i.None? || i.value !in t || t[i.value].Dir?
      ensures r == if length > MAX_FILE_SIZE then -EFBIG else match Found(old(Abs(State())), path)
                   case None => -ENOENT
                   case Some(i) => if i in old(Abs(State())) && old(Abs(State()))[i].File? then 0 else -EISDIR
      ensures r == 0 ==> var t := old(Abs(State())); var i := Resolve(t, Tokens(path));
        && i.Some? && i.value in t && t[i.value].File?
        && i.value in Abs(State()) && Abs(State())[i.value].File?
        && Abs(State()) == t[i.value := File(Abs(State())[i.value].content, t[i.value].parent)]
      ensures r == 0 ==> var t := old(Abs(State())); var i := Resolve(t, Tokens(path)).value;
        var c, c' := t[i].content, Abs(State())[i].content;
        && (length <= |c| ==> c' == c[..length])
        && (length > |c| ==> |c| <= |c'| <= length && (|c'| < length ==> FirstFree(State().dataBits) < 0))
        && (length > |c| ==> forall k: nat :: k < |c'| ==> c'[k] == if k < |c| then c[k] else 0)
    {
      hide Valid, State, StorageInv, NsInv, Abs, Resolve, Tokens, Normal, FirstFree, Splice, SizeOk;
      ValidParts();
      ghost var t := Abs(State());
      SameNames(t, 0, None);
      if length > MAX_FILE_SIZE {
        return -EFBIG;
      }
      var found := FindInode(path);
      if found.None? {
        return -ENOENT;
      }
      var i := found.value;
      NodeFacts(i);
      if inodes[i].isDir {
        return -EISDIR;
      }
      var size := inodes[i].size;
      ghost var c := t[i].content;
      if length == size {
        assert t == t[i := File(c, t[i].parent)] && c == c[..length];
        r := 0;
      } else if length > size {
        var zeros := seq(length - size, _ => 0);
        r := WriteFile(i, zeros, size);
        SameNames(t, i, Some(Splice(c, size, zeros[..r])));
        PartsValid();
        if r >= 0 {
          r := 0;
        }
      } else {
        ShrinkFile(i, length);
        SameNames(t, i, Some(c[..length]));
        PartsValid();
        r := 0;
      }
    }

    // -------------------------------------------------------------------------------------------
    // Names

    /** Appends a directory entry, in a new block when the last one is full. */
    method InsertDentry(p: nat, ino: nat, name: string) returns (r: int)
      requires Wired() && StorageInv(State()) && p in Abs(State()) && Abs(State())[p].Dir?
      requires |Abs(State())[p].entries| < N_DENTRY_PER_DIR
      modifies inodes, blocks, dataBitmap.words
      ensures r == 0 || r == -ENOMEM
      ensures r == -ENOMEM <==> !CanInsert(old(State()), p)
      ensures r == -ENOMEM ==> State() == old(State())
      ensures r == 0 ==> State() == EntryAdded(old(State()), p, NextBlock(old(State())), Dirent(name, ino))
    {
      hide StorageInv, Abs, FirstFree, Bitmap.Bits;
      ghost var fs := State();
      NodeFacts(p);
      UsableSlots(fs, p);
      if inodes[p].size == inodes[p].nBlocks * BLOCK_SIZE {
        var block := InitDataBlock();
        if block.None? {
          return -ENOMEM;
        }
        inodes[p] := inodes[p].(dataBlocks := inodes[p].dataBlocks[inodes[p].nBlocks := block.value], nBlocks := inodes[p].nBlocks + 1);
      }
      var e := inodes[p].size / DENTRY_SIZE;
      var block := inodes[p].dataBlocks[e / N_DENTRY_PER_BLOCK];
      blocks[block] := blocks[block].(dents := blocks[block].dents[e % N_DENTRY_PER_BLOCK := Dirent(name, ino)]);
      inodes[p] := inodes[p].(size := inodes[p].size + DENTRY_SIZE);
      return 0;
    }

    /** Overwrites entry `e`: name and inode number. */
    method SetDirent(p: nat, e: nat, x: Dirent)
      requires Wired() && StorageInv(State()) && p in Abs(State()) && Abs(State())[p].Dir?
      requires e < |Abs(State())[p].entries|
      modifies blocks
      ensures ShiftState(old(State()), State(), p, old(Abs(State()))[p].entries[e := x])
    {
      hide StorageInv, Abs, Bitmap.Bits;
      ghost var fs := State();
      NodeFacts(p);
      UsableSlots(fs, p);
      DirIs(fs, p);
      SlotSetEntries(fs, p, e, x);
      var block := inodes[p].dataBlocks[e / N_DENTRY_PER_BLOCK];
      blocks[block] := blocks[block].(dents := blocks[block].dents[e % N_DENTRY_PER_BLOCK := x]);
    }

    /** The compaction loop of `unlink_inode`: every entry behind the match moves up by one place.
        The directory keeps its size here, so the last entry also stays where it was. */
    method ShiftEntries(p: nat, ino: nat, name: string) returns (index: int, ghost at: nat)
      requires Wired() && StorageInv(State()) && p in Abs(State()) && Abs(State())[p].Dir?
      requires Distinct(Abs(State())[p].entries)
      modifies blocks
      ensures Scanned(old(State()), State(), p, index, at, |old(Abs(State()))[p].entries|, Dirent(name, ino))
    {
      hide State, StorageInv, Abs, Distinct, Scanned, DivUp;
      ghost var fs := State();
      NodeFacts(p);
      var n := inodes[p].size / DENTRY_SIZE;
      var nBlocks := inodes[p].nBlocks;
      FullBlocks(inodes[p]);
      index, at := -1, 0;
      ScanStarts(fs, p, Dirent(name, ino));
      for i := 0 to nBlocks
        invariant Scanned(fs, State(), p, index, at, if i * N_DENTRY_PER_BLOCK < n then i * N_DENTRY_PER_BLOCK else n, Dirent(name, ino))
      {
        var nEntries := if (i + 1) * N_DENTRY_PER_BLOCK <= n then N_DENTRY_PER_BLOCK else n % N_DENTRY_PER_BLOCK;
        for j := 0 to nEntries
          invariant Scanned(fs, State(), p, index, at, i * N_DENTRY_PER_BLOCK + j, Dirent(name, ino))
        {
          index, at := ShiftOne(p, j + i * N_DENTRY_PER_BLOCK, j, j == nEntries - 1 && i == nBlocks - 1, ino, name, index, fs, at);
        }
      }
    }

    /** One turn: entry `e` is compared, and from the match on overwritten by the entry behind it. */
    method ShiftOne(p: nat, e: nat, j: nat, last: bool, ino: nat, name: string, index: int, ghost fs: Fs, ghost at: nat)
      returns (index': int, ghost at': nat)
      requires Wired() && Scanned(fs, State(), p, index, at, e, Dirent(name, ino))
      requires StorageInv(fs) && p in Abs(fs) && Abs(fs)[p].Dir?
      requires e < |Abs(fs)[p].entries| && last == (e == |Abs(fs)[p].entries| - 1)
      modifies blocks
      ensures Scanned(fs, State(), p, index', at', e + 1, Dirent(name, ino))
    {
      hide State, StorageInv, Abs, Distinct, Scanned, Shifted;
      ghost var x := Dirent(name, ino);
      ghost var cur := State();
      ScanOpen(fs, cur, p, index, at, e, x);
      var curr := GetDirent(p, e);
      index', at' := index, at;
      if ino == curr.ino && curr.name == name {
        index', at' := j, e;
      }
      if index' >= 0 && !last {
        var next := GetDirent(p, e + 1);
        SetDirent(p, e, next);
      }
      ScanStep(fs, cur, State(), p, index, at, index', at', e, x);
    }

    /** The directory gives up its last entry, and its last block if that was alone in it. */
    method DropLastEntry(p: nat)
      requires Wired() && StorageInv(State()) && p in Abs(State()) && Abs(State())[p].Dir? && Abs(State())[p].entries != []
      modifies inodes, dataBitmap.words
      ensures Droppable(old(State()), p) && State() == LastDropped(old(State()), p)
    {
      hide StorageInv, Abs, Bitmap.Bits, Cleared;
      ghost var fs := State();
      NodeFacts(p);
      UsableSlots(fs, p);
      var n := inodes[p].size / DENTRY_SIZE;
      ghost var db := inodes[p].dataBlocks;
      ClearedNothing(fs.dataBits);
      inodes[p] := inodes[p].(size := inodes[p].size - DENTRY_SIZE);
      if (n - 1) % N_DENTRY_PER_BLOCK == 0 {
        var last := inodes[p].nBlocks - 1;
        ClearedOneMore(fs.dataBits, [], db[last]);
        assert [] + [db[last]] == db[last..last + 1];
        dataBitmap.ClearBit(inodes[p].dataBlocks[last]);
        inodes[p] := inodes[p].(nBlocks := last);
      } else {
        assert db[inodes[p].nBlocks..inodes[p].nBlocks] == [];
      }
    }

    /** Removes the name `path` and the inode `i` it leads to. */
    method UnlinkInode(path: string, i: nat) returns (r: int)
      requires Valid() && Normal(path) && |path| < FS_MAX_PATH && Tokens(path) != []
      requires Resolve(Abs(State()), Tokens(path)) == Some(i) && i in Abs(State())
      modifies inodes, blocks, inodeBitmap.words, dataBitmap.words
      ensures Valid()
      ensures r == (if Childless(old(Abs(State()))[i]) then 0 else -ENOTEMPTY)
      ensures r != 0 ==> State() == old(State())
      ensures r == 0 ==> Removed(old(State()), State(), Tokens(path), i)
    {
      hide Valid, State, StorageInv, NsInv, Abs, Tokens, Normal, Resolve, Removed, Distinct, Scanned, Shifted, LookupIn,
        LastDropped, Droppable, Shrunk, SizeOk;
      ValidParts();
      ghost var fs, t := State(), Abs(State());
      NodeFacts(i);
      if inodes[i].isDir && inodes[i].size > 0 {
        return -ENOTEMPTY;
      }
      ParentNormal(path);
      var parentPath, filename := SplitPath(path);
      ghost var at := EntryOfPath(t, Tokens(path), i);
      var parent := FindInode(parentPath);
      var p := parent.value;
      ghost var es := t[p].entries;
      var index;
      ghost var found;
      index, found := ShiftEntries(p, i, filename);
      // A path that resolved has its entry, so the source's return of -ENOENT here is never taken.
      if index < 0 {
        ScanDone(fs, State(), p, index, found, at, Dirent(filename, i));
        assert false;
      }
      ScanDone(fs, State(), p, index, found, at, Dirent(filename, i));
      ghost var fs1 := State();
      ShiftedNotEmpty(es, at);
      DropLastEntry(p);
      EntryGone(fs, fs1, p, at, i);
      ghost var fs2 := State();
      NodeFacts(i);
      if !inodes[i].isDir {
        ShrinkFile(i, 0);
      }
      ContentGone(fs2, State(), i);
      ghost var fs3 := State();
      FreeInode(i);
      AllGone(fs, fs2, fs3, State(), Tokens(path), p, at, i);
      PartsValid();
      return 0;
    }

    method FreeInode(i: nat)
      requires Wired() && i < N_INODES
      modifies inodeBitmap.words
      ensures State() == Released(old(State()), i)
    {
      hide Bitmap.Bits;
      inodeBitmap.ClearBit(i);
    }

    /** Removes a file. */
    method Unlink(path: string) returns (r: int)
      requires Valid() && Normal(path)
      modifies inodes, blocks, inodeBitmap.words, dataBitmap.words
      ensures Valid()
      ensures r == (match Found(old(Abs(State())), path)
                    case None => -ENOENT
                    case Some(i) => if i in old(Abs(State())) && old(Abs(State()))[i].File? then 0 else -EISDIR)
      ensures r != 0 ==> State() == old(State())
      ensures r == 0 ==> Removed(old(State()), State(), Tokens(path), Found(old(Abs(State())), path).value)
    {
      hide Valid, State, StorageInv, NsInv, Abs, Tokens, Normal, Resolve, Removed;
      ValidParts();
      var found := FindInode(path);
      if found.None? {
        return -ENOENT;
      }
      var i := found.value;
      NodeFacts(i);
      if inodes[i].isDir {
        return -EISDIR;
      }
      RootFacts(Abs(State()));
      ShortPath(path);
      r := UnlinkInode(path, i);
    }

    /** Removes an empty directory other than the root. */
    method Rmdir(path: string) returns (r: int)
      requires Valid() && Normal(path)
      modifies inodes, blocks, inodeBitmap.words, dataBitmap.words
      ensures Valid()
      ensures r == (match Found(old(Abs(State())), path)
                    case None => -ENOENT
                    case Some(i) =>
                      if !(i in old(Abs(State())) && old(Abs(State()))[i].Dir?) then -ENOTDIR
                      else if i == ROOT_INO then -EPERM
                      else if old(Abs(State()))[i].entries != [] then -ENOTEMPTY
                      else 0)
      ensures r != 0 ==> State() == old(State())
      ensures r == 0 ==> Removed(old(State()), State(), Tokens(path), Found(old(Abs(State())), path).value)
    {
      hide Valid, State, StorageInv, NsInv, Abs, Tokens, Normal, Resolve, Removed;
      ValidParts();
      var found := FindInode(path);
      if found.None? {
        return -ENOENT;
      }
      var i := found.value;
      NodeFacts(i);
      if !inodes[i].isDir {
        return -ENOTDIR;
      }
      if i == ROOT_INO {
        return -EPERM;
      }
      if inodes[i].size > 0 {
        return -ENOTEMPTY;
      }
      RootFacts(Abs(State()));
      ShortPath(path);
      r := UnlinkInode(path, i);
    }

    /** `fisopfs_create` and `fisopfs_mkdir`, which differ in the kind of node and in the error for
        a full inode table. */
    method Make(path: string, isDir: bool) returns (r: int)
      requires Valid() && Normal(path)
      modifies inodes, blocks, inodeBitmap.words, dataBitmap.words
      ensures Valid()
      ensures r == MakeResult(old(State()), old(Abs(State())), path, isDir)
      ensures r != 0 ==> State() == old(State())
      ensures r == 0 ==> Made(old(State()), State(), Tokens(path), isDir)
    {
      hide Valid, State, StorageInv, NsInv, Abs, Tokens, Normal, Resolve, Made, FirstFree, EntryAdded, NewInode, LookupIn,
        PathOf, SizeOk;
      ValidParts();
      ghost var fs, t := State(), Abs(State());
      if |path| > FS_MAX_PATH {
        return -ENAMETOOLONG;
      }
      var freeBlock := dataBitmap.GetFreeBit();
      StateBits();
      if freeBlock < 0 {
        return -ENOMEM;
      }
      var existing := FindInode(path);
      if existing.Some? {
        return -EEXIST;
      }
      RootFacts(t);
      ShortPath(path);
      ParentNormal(path);
      var parentPath, filename := SplitPath(path);
      if |filename| > FS_FILENAME_LEN {
        return -ENAMETOOLONG;
      }
      var parent := FindInode(parentPath);
      if parent.None? {
        return -ENOENT;
      }
      var p := parent.value;
      NodeFacts(p);
      if !inodes[p].isDir {
        return -ENOTDIR;
      }
      if inodes[p].size / DENTRY_SIZE == N_DENTRY_PER_DIR {
        return -ENOMEM;
      }
      var inode := InitInode(isDir);
      if inode.None? {
        PartsValid();
        return if isDir then -EDQUOT else -ENOMEM;
      }
      var ino := inode.value;
      SetParent(fs, ino, isDir, p);
      FreshInode(fs, isDir, p);
      // The free block found above makes this succeed, so ignoring the result is harmless.
      var ignored := InsertDentry(p, ino, filename);
      assert ignored == 0;
      MakeDone(fs, State(), isDir, p, Tokens(path));
      PartsValid();
      return 0;
    }

    /** `inode->parent = parent->ino`. */
    method SetParent(ghost fs: Fs, ino: nat, isDir: bool, p: nat)
      requires Wired() && Shape(fs) && ino < N_INODES && State() == NewInode(fs, ino, isDir, fs.inodes[ino].parent)
      modifies inodes
      ensures State() == NewInode(fs, ino, isDir, p)
    {
      hide Bitmap.Bits;
      inodes[ino] := inodes[ino].(parent := p);
    }

    /** Creating a file and unlinking it again restores both bitmaps and every path. */
    method CreateThenUnlink(path: string) returns (created: int, unlinked: int)
      requires Valid() && Normal(path)
      modifies inodes, blocks, inodeBitmap.words, dataBitmap.words
      ensures Valid()
      ensures created == 0 ==> unlinked == 0
      ensures created == 0 ==> State().inodeBits == old(State()).inodeBits && State().dataBits == old(State()).dataBits
      ensures created == 0 ==> forall us :: Resolve(Abs(State()), us) == old(Resolve(Abs(State()), us))
    {
      hide Valid, StorageInv, NsInv, Abs, Tokens, Normal, Resolve, Removed, Made, State, FirstFree;
      ValidParts();
      ghost var fs := State();
      created := Make(path, false);
      unlinked := 0;
      ghost var fs1 := State();
      if created == 0 {
        ValidParts();
        MadeFound(fs, fs1, path);
        unlinked := Unlink(path);
        BitsRestored(fs, fs1, State(), Tokens(path));
      }
    }

    // -------------------------------------------------------------------------------------------
    // Facts used above

    /** The record of an inode in the tree agrees with its node. */
    lemma NodeFacts(i: nat)
      requires Wired() && StorageInv(State()) && i in Abs(State())
      ensures i < inodes.Length && Allocated(State(), i) && SizeOk(inodes[i]) && State().inodes[i] == inodes[i]
      ensures var t := Abs(State());
        && t[i].Dir? == inodes[i].isDir && t[i].parent == inodes[i].parent
        && (t[i].Dir? ==> |t[i].entries| == inodes[i].size / DENTRY_SIZE && |t[i].entries| * DENTRY_SIZE == inodes[i].size)
        && (t[i].File? ==> |t[i].content| == inodes[i].size)
    {
      hide Ownership;
      InvReadable(State(), i);
    }

    lemma StateBits()
      requires Wired()
      ensures State().inodeBits == inodeBitmap.Bits() && State().dataBits == dataBitmap.Bits()
    {}

    lemma Records()
      requires Wired()
      ensures inodes.Length == N_INODES && blocks.Length == N_DATA_BLOCKS
      ensures State().inodes == inodes[..] && State().blocks == blocks[..]
    {}

    lemma ValidParts()
      requires Valid()
      ensures Wired() && StorageInv(State()) && NsInv(Abs(State()))
    {}

    lemma PartsValid()
      requires Wired() && StorageInv(State()) && NsInv(Abs(State()))
      ensures Valid()
    {}
  }
}
