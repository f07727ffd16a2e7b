/** The on-disk structures of fisopfs and their ownership invariant: inodes, data blocks and the
    two bitmaps, and the tree of nodes they represent. */
module FsStorage {
  import opened Bitmaps

  const BLOCK_SIZE := 4096
  const N_DATA_BLOCKS_PER_INODE := 32
  const MAX_FILE_SIZE := N_DATA_BLOCKS_PER_INODE * BLOCK_SIZE
  const DENTRY_SIZE := 512
  const N_DENTRY_PER_BLOCK := 8
  const N_DENTRY_PER_DIR := 256
  const N_INODES := 4096
  const N_DATA_BLOCKS := 3837
  const DATA_BITMAP_WORDS := 119
  const N_USABLE_BLOCKS := DATA_BITMAP_WORDS * BITS_PER_WORD
  const ROOT_INO := 0

  type Byte = b: int | 0 <= b < 256

  datatype Dirent = Dirent(name: string, ino: nat)

  /** A data block is used either as 4096 bytes of a file or as 8 directory slots. */
  datatype RawBlock = RawBlock(bytes: seq<Byte>, dents: seq<Dirent>)
  type Block = b: RawBlock | |b.bytes| == BLOCK_SIZE && |b.dents| == N_DENTRY_PER_BLOCK
    witness RawBlock(seq(BLOCK_SIZE, _ => 0), seq(N_DENTRY_PER_BLOCK, _ => Dirent("", 0)))

  datatype RawInode = RawInode(isDir: bool, size: nat, nBlocks: nat, dataBlocks: seq<nat>, parent: nat)
  type Inode = i: RawInode | |i.dataBlocks| == N_DATA_BLOCKS_PER_INODE && i.nBlocks <= N_DATA_BLOCKS_PER_INODE
    witness RawInode(false, 0, 0, seq(N_DATA_BLOCKS_PER_INODE, _ => 0), 0)

  datatype Fs = Fs(inodes: seq<Inode>, blocks: seq<Block>, inodeBits: seq<bool>, dataBits: seq<bool>)

  predicate Shape(fs: Fs) {
    && |fs.inodes| == N_INODES && |fs.inodeBits| == N_INODES
    && |fs.blocks| == N_DATA_BLOCKS && |fs.dataBits| == N_USABLE_BLOCKS
  }

  predicate Allocated(fs: Fs, i: int)
    requires Shape(fs)
  {
    0 <= i < N_INODES && fs.inodeBits[i]
  }

  /** Block slot `k` of inode `i` is in use. */
  predicate Slot(fs: Fs, i: int, k: int)
    requires Shape(fs)
  {
    Allocated(fs, i) && 0 <= k < fs.inodes[i].nBlocks
  }

  function BlockNo(fs: Fs, i: int, k: int): nat
    requires Shape(fs) && Slot(fs, i, k)
  {
    fs.inodes[i].dataBlocks[k]
  }

  function DivUp(n: nat, d: nat): nat
    requires d > 0
  {
    (n + d - 1) / d
  }

  /** How many blocks an inode of a given size may hold. */
  predicate SizeOk(n: Inode) {
    if n.isDir then
      n.size % DENTRY_SIZE == 0 && n.size <= MAX_FILE_SIZE && n.nBlocks == DivUp(n.size / DENTRY_SIZE, N_DENTRY_PER_BLOCK)
    else
      && n.size < MAX_FILE_SIZE
      && DivUp(n.size, BLOCK_SIZE) <= n.nBlocks <= n.size / BLOCK_SIZE + 1
      && (n.size == 0 ==> n.nBlocks == 0)
  }

  datatype SlotId = SlotId(ino: nat, index: nat)
  type Owners = map<nat, SlotId>

  /** `own` sends every marked block to the one slot that holds it. */
  ghost predicate OwnedBy(fs: Fs, own: Owners)
    requires Shape(fs)
  {
    && (forall i: nat, k: nat :: Slot(fs, i, k) ==> BlockNo(fs, i, k) in own && own[BlockNo(fs, i, k)] == SlotId(i, k))
    && (forall b: nat :: b in own ==> Slot(fs, own[b].ino, own[b].index) && BlockNo(fs, own[b].ino, own[b].index) == b)
    && (forall b: nat :: b in own <==> b < N_USABLE_BLOCKS && fs.dataBits[b])
  }

  ghost predicate Ownership(fs: Fs)
    requires Shape(fs)
  {
    exists own: Owners :: OwnedBy(fs, own)
  }

  /** What ownership says: a data bit is set exactly when one slot, and no other, holds the block. */
  lemma OwnershipMeans(fs: Fs, b: nat)
    requires Shape(fs) && Ownership(fs) && b < N_USABLE_BLOCKS
    ensures fs.dataBits[b] <==> exists i: nat, k: nat :: Slot(fs, i, k) && BlockNo(fs, i, k) == b
    ensures forall i: nat, k: nat, j: nat, l: nat ::
      Slot(fs, i, k) && Slot(fs, j, l) && BlockNo(fs, i, k) == b && BlockNo(fs, j, l) == b ==> i == j && k == l
  {
    var own: Owners :| OwnedBy(fs, own);
    if fs.dataBits[b] {
      assert Slot(fs, own[b].ino, own[b].index) && BlockNo(fs, own[b].ino, own[b].index) == b;
    }
  }

  ghost predicate Sizes(fs: Fs)
    requires Shape(fs)
  {
    forall i :: Allocated(fs, i) ==> SizeOk(fs.inodes[i])
  }

  /** The storage invariant. */
  ghost predicate StorageInv(fs: Fs) {
    Shape(fs) && Ownership(fs) && Sizes(fs)
  }

  // ---------------------------------------------------------------------------------------------
  // The nodes the storage represents

  datatype Node = File(content: seq<Byte>, parent: nat) | Dir(entries: seq<Dirent>, parent: nat)
  type Tree = map<nat, Node>

  predicate Readable(fs: Fs, n: Inode)
    requires Shape(fs)
  {
    && (forall k :: 0 <= k < n.nBlocks ==> n.dataBlocks[k] < N_DATA_BLOCKS)
    && (if n.isDir then n.size / DENTRY_SIZE <= n.nBlocks * N_DENTRY_PER_BLOCK else n.size <= n.nBlocks * BLOCK_SIZE)
  }

  function Content(fs: Fs, n: Inode): (c: seq<Byte>)
    requires Shape(fs) && Readable(fs, n) && !n.isDir
    ensures |c| == n.size
  {
    seq(n.size, x requires 0 <= x < n.size => fs.blocks[n.dataBlocks[x / BLOCK_SIZE]].bytes[x % BLOCK_SIZE])
  }

  function Entries(fs: Fs, n: Inode): (c: seq<Dirent>)
    requires Shape(fs) && Readable(fs, n) && n.isDir
    ensures |c| == n.size / DENTRY_SIZE
  {
    seq(n.size / DENTRY_SIZE, e requires 0 <= e < n.size / DENTRY_SIZE =>
      fs.blocks[n.dataBlocks[e / N_DENTRY_PER_BLOCK]].dents[e % N_DENTRY_PER_BLOCK])
  }

  function NodeOf(fs: Fs, n: Inode): Node
    requires Shape(fs) && Readable(fs, n)
  {
    if n.isDir then Dir(Entries(fs, n), n.parent) else File(Content(fs, n), n.parent)
  }

  lemma InvReadable(fs: Fs, i: nat)
    requires StorageInv(fs) && Allocated(fs, i)
    ensures Readable(fs, fs.inodes[i])
  {
    var own: Owners :| OwnedBy(fs, own);
    forall k | 0 <= k < fs.inodes[i].nBlocks ensures fs.inodes[i].dataBlocks[k] < N_DATA_BLOCKS {
      assert Slot(fs, i, k);
      assert BlockNo(fs, i, k) in own;
    }
  }

  ghost function Abs(fs: Fs): (t: Tree)
    requires StorageInv(fs)
  {
    map i: nat | 0 <= i < N_INODES && fs.inodeBits[i] :: InvReadable(fs, i); NodeOf(fs, fs.inodes[i])
  }

  // ---------------------------------------------------------------------------------------------
  // Framing

  /** An inode whose own record and blocks are untouched reads the same. */
  lemma NodeFrame(fs: Fs, fs': Fs, n: Inode)
    requires Shape(fs) && Shape(fs') && Readable(fs, n)
    requires forall k :: 0 <= k < n.nBlocks ==> fs'.blocks[n.dataBlocks[k]] == fs.blocks[n.dataBlocks[k]]
    ensures Readable(fs', n) && NodeOf(fs', n) == NodeOf(fs, n)
  {
    if n.isDir {
      assert Entries(fs', n) == Entries(fs, n);
    } else {
      assert Content(fs', n) == Content(fs, n);
    }
  }

  /** Inode `j` and its blocks are the same in both states. */
  ghost predicate Untouched(fs: Fs, fs': Fs, j: int)
    requires Shape(fs) && Shape(fs')
  {
    && 0 <= j < N_INODES && fs'.inodes[j] == fs.inodes[j]
    && (forall k: nat :: Slot(fs, j, k) && BlockNo(fs, j, k) < N_DATA_BLOCKS ==> fs'.blocks[BlockNo(fs, j, k)] == fs.blocks[BlockNo(fs, j, k)])
  }

  lemma UntouchedNode(fs: Fs, fs': Fs, j: nat)
    requires StorageInv(fs) && Shape(fs') && Allocated(fs, j) && Untouched(fs, fs', j)
    ensures Readable(fs, fs.inodes[j]) && Readable(fs', fs.inodes[j])
    ensures NodeOf(fs', fs.inodes[j]) == NodeOf(fs, fs.inodes[j])
  {
    hide Ownership, Sizes;
    InvReadable(fs, j);
    var n := fs.inodes[j];
    forall k | 0 <= k < n.nBlocks ensures fs'.blocks[n.dataBlocks[k]] == fs.blocks[n.dataBlocks[k]] {
      assert Slot(fs, j, k);
      assert BlockNo(fs, j, k) == n.dataBlocks[k];
    }
    NodeFrame(fs, fs', n);
  }

  /** Only inode `i` changed, so only its node did. */
  lemma AbsUpdate(fs: Fs, fs': Fs, i: nat)
    requires StorageInv(fs) && StorageInv(fs') && Allocated(fs', i)
    requires fs'.inodeBits == fs.inodeBits[i := true]
    requires forall j :: Allocated(fs, j) && j != i ==> Untouched(fs, fs', j)
    ensures Readable(fs', fs'.inodes[i])
    ensures Abs(fs') == Abs(fs)[i := NodeOf(fs', fs'.inodes[i])]
  {
    hide Ownership, Sizes;
    InvReadable(fs', i);
    forall j: nat | Allocated(fs, j) && j != i ensures j in Abs(fs) && j in Abs(fs') && Abs(fs')[j] == Abs(fs)[j] {
      UntouchedNode(fs, fs', j);
    }
    assert Abs(fs').Keys == Abs(fs).Keys + {i};
  }

  /** Ownership looks only at the bitmaps and the block lists of allocated inodes. */
  lemma OwnershipFrame(fs: Fs, fs': Fs)
    requires Shape(fs) && Shape(fs') && Ownership(fs)
    requires fs'.dataBits == fs.dataBits
    requires forall i: nat, k: nat :: Slot(fs', i, k) <==> Slot(fs, i, k)
    requires forall i: nat, k: nat :: Slot(fs', i, k) ==> BlockNo(fs', i, k) == BlockNo(fs, i, k)
    ensures Ownership(fs')
  {
    var own: Owners :| OwnedBy(fs, own);
    assert OwnedBy(fs', own);
  }

  /** Writing block `blk` of inode `i` cannot be seen through any other slot. */
  lemma OtherBlocks(fs: Fs, i: nat, blk: nat)
    requires Shape(fs) && Ownership(fs) && Slot(fs, i, blk)
    ensures forall j: nat, k: nat :: Slot(fs, j, k) && (j != i || k != blk) ==> BlockNo(fs, j, k) != BlockNo(fs, i, blk)
  {
    var own: Owners :| OwnedBy(fs, own);
  }

  // ---------------------------------------------------------------------------------------------
  // Taking and giving back blocks

  /** Inode `i` takes the free block `b` as its next one. */
  function Grown(fs: Fs, i: nat, b: nat): Fs
    requires Shape(fs) && Allocated(fs, i) && fs.inodes[i].nBlocks < N_DATA_BLOCKS_PER_INODE && b < N_USABLE_BLOCKS
  {
    var n := fs.inodes[i];
    fs.(inodes := fs.inodes[i := n.(dataBlocks := n.dataBlocks[n.nBlocks := b], nBlocks := n.nBlocks + 1)],
        dataBits := fs.dataBits[b := true])
  }

  lemma GrownOwnership(fs: Fs, i: nat, b: nat)
    requires Shape(fs) && Ownership(fs) && Allocated(fs, i) && fs.inodes[i].nBlocks < N_DATA_BLOCKS_PER_INODE
    requires b < N_USABLE_BLOCKS && !fs.dataBits[b]
    ensures Ownership(Grown(fs, i, b))
  {
    var fs' := Grown(fs, i, b);
    var last := fs.inodes[i].nBlocks;
    var own: Owners :| OwnedBy(fs, own);
    var own' := own[b := SlotId(i, last)];
    assert OwnedBy(fs', own') by {
      assert b !in own;
      forall j: nat, k: nat | Slot(fs', j, k)
        ensures BlockNo(fs', j, k) in own' && own'[BlockNo(fs', j, k)] == SlotId(j, k)
      {
        if j != i || k != last {
          assert Slot(fs, j, k) && BlockNo(fs', j, k) == BlockNo(fs, j, k);
        }
      }
      forall c: nat | c in own' ensures Slot(fs', own'[c].ino, own'[c].index) && BlockNo(fs', own'[c].ino, own'[c].index) == c {
        if c != b {
          assert Slot(fs, own[c].ino, own[c].index) && BlockNo(fs, own[c].ino, own[c].index) == c;
        }
      }
    }
  }

  /** The bitmap with the listed blocks cleared. */
  function Cleared(bits: seq<bool>, freed: seq<nat>): (r: seq<bool>)
    ensures |r| == |bits|
    ensures forall b :: 0 <= b < |bits| ==> r[b] == (bits[b] && b !in freed)
  {
    seq(|bits|, b requires 0 <= b < |bits| => bits[b] && b !in freed)
  }

  /** Inode `i` keeps its first `keep` blocks and gives the others back. */
  function Shrunk(fs: Fs, i: nat, keep: nat, size: nat): Fs
    requires Shape(fs) && Allocated(fs, i) && keep <= fs.inodes[i].nBlocks
  {
    var n := fs.inodes[i];
    fs.(inodes := fs.inodes[i := n.(nBlocks := keep, size := size)],
        dataBits := Cleared(fs.dataBits, n.dataBlocks[keep..n.nBlocks]))
  }

  /** Among owned blocks, the freed ones are those in the slots given up. */
  lemma FreedOwners(fs: Fs, own: Owners, i: nat, keep: nat, b: nat)
    requires Shape(fs) && OwnedBy(fs, own) && Allocated(fs, i) && keep <= fs.inodes[i].nBlocks && b in own
    ensures var n := fs.inodes[i];
      b in n.dataBlocks[keep..n.nBlocks] <==> own[b].ino == i && own[b].index >= keep
  {
    var n := fs.inodes[i];
    var freed := n.dataBlocks[keep..n.nBlocks];
    assert Slot(fs, own[b].ino, own[b].index) && BlockNo(fs, own[b].ino, own[b].index) == b;
    if own[b].ino == i && own[b].index >= keep {
      assert freed[own[b].index - keep] == b;
    }
    if b in freed {
      var m :| 0 <= m < |freed| && freed[m] == b;
      assert Slot(fs, i, keep + m) && BlockNo(fs, i, keep + m) == b;
    }
  }

  lemma ShrunkOwnership(fs: Fs, i: nat, keep: nat, size: nat)
    requires Shape(fs) && Ownership(fs) && Allocated(fs, i) && keep <= fs.inodes[i].nBlocks
    ensures Ownership(Shrunk(fs, i, keep, size))
  {
    var fs' := Shrunk(fs, i, keep, size);
    var freed := fs.inodes[i].dataBlocks[keep..fs.inodes[i].nBlocks];
    var own: Owners :| OwnedBy(fs, own);
    var own' := map b: nat | b in own && b !in freed :: own[b];
    assert OwnedBy(fs', own') by {
      forall j: nat, k: nat | Slot(fs', j, k)
        ensures BlockNo(fs', j, k) in own' && own'[BlockNo(fs', j, k)] == SlotId(j, k)
      {
        assert Slot(fs, j, k) && BlockNo(fs, j, k) == BlockNo(fs', j, k);
        FreedOwners(fs, own, i, keep, BlockNo(fs, j, k));
      }
      forall c: nat | c in own' ensures Slot(fs', own'[c].ino, own'[c].index) && BlockNo(fs', own'[c].ino, own'[c].index) == c {
        FreedOwners(fs, own, i, keep, c);
        assert Slot(fs, own[c].ino, own[c].index) && BlockNo(fs, own[c].ino, own[c].index) == c;
      }
    }
  }

  // ---------------------------------------------------------------------------------------------
  // Writing one block of a file

  /** `d` laid over `c` at offset `off`, lengthening `c` when it reaches past its end. */
  function Splice(c: seq<Byte>, off: nat, d: seq<Byte>): seq<Byte>
    requires off <= |c|
  {
    c[..off] + d + (if off + |d| < |c| then c[off + |d|..] else [])
  }

  /** Byte by byte: the new bytes inside, the old ones outside. */
  lemma SpliceBytes(c: seq<Byte>, off: nat, d: seq<Byte>)
    requires off <= |c|
    ensures |Splice(c, off, d)| == if off + |d| > |c| then off + |d| else |c|
    ensures forall k: nat :: off <= k < off + |d| ==> Splice(c, off, d)[k] == d[k - off]
    ensures forall k: nat :: k < |c| && !(off <= k < off + |d|) ==> Splice(c, off, d)[k] == c[k]
  {
    assert forall k: nat :: k < off ==> Splice(c, off, d)[k] == c[k];
  }

  lemma SlicesJoin(c: seq<Byte>, i: nat, j: nat, k: nat)
    requires i <= j <= k <= |c|
    ensures c[i..j] + c[j..k] == c[i..k]
  {}

  lemma SliceIs(c: seq<Byte>, off: nat, d: seq<Byte>)
    requires off + |d| <= |c| && forall k: nat :: off <= k < off + |d| ==> c[k] == d[k - off]
    ensures c[off..off + |d|] == d
  {}

  lemma SpliceSplice(c: seq<Byte>, off: nat, d: seq<Byte>, e: seq<Byte>)
    requires off <= |c|
    ensures off + |d| <= |Splice(c, off, d)|
    ensures Splice(Splice(c, off, d), off + |d|, e) == Splice(c, off, d + e)
  {}

  /** Bytes `d` stored at `start` of slot `blk`, and the size raised to cover them. */
  function Patched(fs: Fs, i: nat, blk: nat, start: nat, d: seq<Byte>): Fs
    requires Shape(fs) && Slot(fs, i, blk) && BlockNo(fs, i, blk) < N_DATA_BLOCKS && start + |d| <= BLOCK_SIZE
  {
    var n := fs.inodes[i];
    var b := n.dataBlocks[blk];
    var end := blk * BLOCK_SIZE + start + |d|;
    fs.(blocks := fs.blocks[b := fs.blocks[b].(bytes := Splice(fs.blocks[b].bytes, start, d))],
        inodes := fs.inodes[i := n.(size := if n.size > end then n.size else end)])
  }

  /** What reading sees after one block of a file was patched and its size raised. */
  lemma PatchedContent(fs: Fs, fs': Fs, n: Inode, n': Inode, blk: nat, start: nat, d: seq<Byte>)
    requires Shape(fs) && Shape(fs') && Readable(fs, n) && Readable(fs', n') && !n.isDir && !n'.isDir
    requires blk < n.nBlocks && start + |d| <= BLOCK_SIZE && blk * BLOCK_SIZE + start <= n.size
    requires n'.dataBlocks == n.dataBlocks
    requires forall k :: 0 <= k < n.nBlocks && k != blk ==> fs'.blocks[n.dataBlocks[k]] == fs.blocks[n.dataBlocks[k]]
    requires fs'.blocks[n.dataBlocks[blk]].bytes == Splice(fs.blocks[n.dataBlocks[blk]].bytes, start, d)
    requires var end := blk * BLOCK_SIZE + start + |d|; n'.size == if n.size > end then n.size else end
    ensures Content(fs', n') == Splice(Content(fs, n), blk * BLOCK_SIZE + start, d)
  {
    var c, c' := Content(fs, n), Content(fs', n');
    var pos := blk * BLOCK_SIZE + start;
    forall x | 0 <= x < n'.size ensures c'[x] == Splice(c, pos, d)[x] {
      if x / BLOCK_SIZE == blk {
        assert c'[x] == Splice(fs.blocks[n.dataBlocks[blk]].bytes, start, d)[x % BLOCK_SIZE];
      }
    }
    assert c' == Splice(c, pos, d);
  }

  /** A shorter size over the same blocks reads as a prefix. */
  lemma PrefixContent(fs: Fs, fs': Fs, n: Inode, n': Inode)
    requires Shape(fs) && Shape(fs') && Readable(fs, n) && Readable(fs', n') && !n.isDir && !n'.isDir
    requires fs'.blocks == fs.blocks && n'.size <= n.size
    requires forall k :: 0 <= k < n'.nBlocks && k < n.nBlocks ==> n'.dataBlocks[k] == n.dataBlocks[k]
    ensures Content(fs', n') == Content(fs, n)[..n'.size]
  {}

  lemma PrefixEntries(fs: Fs, fs': Fs, n: Inode, n': Inode)
    requires Shape(fs) && Shape(fs') && Readable(fs, n) && Readable(fs', n') && n.isDir && n'.isDir
    requires fs'.blocks == fs.blocks && n'.size <= n.size
    requires forall k :: 0 <= k < n'.nBlocks && k < n.nBlocks ==> n'.dataBlocks[k] == n.dataBlocks[k]
    ensures Entries(fs', n') == Entries(fs, n)[..n'.size / DENTRY_SIZE]
  {}

  lemma PatchedEntries(fs: Fs, fs': Fs, n: Inode, e: nat, d: Dirent)
    requires Shape(fs) && Shape(fs') && Readable(fs, n) && n.isDir && e < n.size / DENTRY_SIZE
    requires forall k :: 0 <= k < n.nBlocks && k != e / N_DENTRY_PER_BLOCK ==> fs'.blocks[n.dataBlocks[k]] == fs.blocks[n.dataBlocks[k]]
    requires fs'.blocks[n.dataBlocks[e / N_DENTRY_PER_BLOCK]].dents
          == fs.blocks[n.dataBlocks[e / N_DENTRY_PER_BLOCK]].dents[e % N_DENTRY_PER_BLOCK := d]
    ensures Readable(fs', n) && Entries(fs', n) == Entries(fs, n)[e := d]
  {}

  /** One turn of the write loop: a new block if slot `blk` is the next one, then the bytes. */
  function WriteBlock(fs: Fs, i: nat, blk: nat, b: nat, start: nat, d: seq<Byte>): Fs
    requires StorageInv(fs) && Allocated(fs, i)
    requires blk <= fs.inodes[i].nBlocks && blk < N_DATA_BLOCKS_PER_INODE
    requires blk == fs.inodes[i].nBlocks ==> b < N_USABLE_BLOCKS && !fs.dataBits[b]
    requires start + |d| <= BLOCK_SIZE
  {
    if blk < fs.inodes[i].nBlocks then
      assert Slot(fs, i, blk);
      Patched(fs, i, blk, start, d)
    else
      Patched(Grown(fs, i, b), i, blk, start, d)
  }

  /** The first half of a write step: slot `blk` exists, the content is what it was. */
  lemma SlotReady(fs: Fs, g: Fs, i: nat, blk: nat, b: nat)
    requires StorageInv(fs) && Allocated(fs, i) && !fs.inodes[i].isDir
    requires blk <= fs.inodes[i].nBlocks && blk < N_DATA_BLOCKS_PER_INODE
    requires blk == fs.inodes[i].nBlocks ==> b < N_USABLE_BLOCKS && !fs.dataBits[b]
    requires g == if blk < fs.inodes[i].nBlocks then fs else Grown(fs, i, b)
    ensures Shape(g) && Ownership(g) && Slot(g, i, blk) && BlockNo(g, i, blk) < N_USABLE_BLOCKS
    ensures Readable(fs, fs.inodes[i]) && Readable(g, g.inodes[i])
    ensures Content(g, g.inodes[i]) == Content(fs, fs.inodes[i])
  {
    InvReadable(fs, i);
    if blk == fs.inodes[i].nBlocks {
      GrownOwnership(fs, i, b);
    }
    hide Ownership;
    assert Slot(g, i, blk);
    OtherBlocks(g, i, blk);
    PrefixContent(fs, g, fs.inodes[i], g.inodes[i]);
  }

  lemma WriteBlockInv(fs: Fs, g: Fs, i: nat, blk: nat, b: nat, start: nat, d: seq<Byte>)
    requires StorageInv(fs) && Allocated(fs, i) && !fs.inodes[i].isDir
    requires blk <= fs.inodes[i].nBlocks && blk < N_DATA_BLOCKS_PER_INODE
    requires blk == fs.inodes[i].nBlocks ==> b < N_USABLE_BLOCKS && !fs.dataBits[b]
    requires start + |d| <= BLOCK_SIZE && blk * BLOCK_SIZE + start <= fs.inodes[i].size
    requires blk * BLOCK_SIZE + start + |d| < MAX_FILE_SIZE
    requires fs.inodes[i].size == 0 ==> |d| > 0
    requires g == if blk < fs.inodes[i].nBlocks then fs else Grown(fs, i, b)
    requires Shape(g) && Ownership(g) && Slot(g, i, blk) && BlockNo(g, i, blk) < N_USABLE_BLOCKS
    ensures var fs' := Patched(g, i, blk, start, d);
      StorageInv(fs') && forall j :: Allocated(fs, j) && j != i ==> Untouched(fs, fs', j)
  {
    hide Ownership;
    OtherBlocks(g, i, blk);
    var fs' := Patched(g, i, blk, start, d);
    WriteBlockFrame(fs, g, fs', i, blk);
    OwnershipFrame(g, fs');
  }

  lemma PatchedReads(g: Fs, i: nat, blk: nat, start: nat, d: seq<Byte>)
    requires Shape(g) && Ownership(g) && Slot(g, i, blk) && BlockNo(g, i, blk) < N_USABLE_BLOCKS
    requires !g.inodes[i].isDir && Readable(g, g.inodes[i])
    requires start + |d| <= BLOCK_SIZE && blk * BLOCK_SIZE + start <= g.inodes[i].size
    ensures var fs' := Patched(g, i, blk, start, d);
      && Readable(fs', fs'.inodes[i])
      && Content(fs', fs'.inodes[i]) == Splice(Content(g, g.inodes[i]), blk * BLOCK_SIZE + start, d)
  {
    OtherBlocks(g, i, blk);
    hide Ownership;
    var n := g.inodes[i];
    forall k | 0 <= k < n.nBlocks && k != blk ensures n.dataBlocks[k] != n.dataBlocks[blk] {
      assert Slot(g, i, k) && BlockNo(g, i, k) == n.dataBlocks[k];
    }
    var fs' := Patched(g, i, blk, start, d);
    PatchedContent(g, fs', n, fs'.inodes[i], blk, start, d);
  }

  lemma WriteBlockOk(fs: Fs, i: nat, blk: nat, b: nat, start: nat, d: seq<Byte>)
    requires StorageInv(fs) && Allocated(fs, i) && !fs.inodes[i].isDir
    requires blk <= fs.inodes[i].nBlocks && blk < N_DATA_BLOCKS_PER_INODE
    requires blk == fs.inodes[i].nBlocks ==> b < N_USABLE_BLOCKS && !fs.dataBits[b]
    requires start + |d| <= BLOCK_SIZE && blk * BLOCK_SIZE + start <= fs.inodes[i].size
    requires blk * BLOCK_SIZE + start + |d| < MAX_FILE_SIZE
    requires fs.inodes[i].size == 0 ==> |d| > 0
    ensures StorageInv(WriteBlock(fs, i, blk, b, start, d))
    ensures Readable(fs, fs.inodes[i])
    ensures Abs(WriteBlock(fs, i, blk, b, start, d))
         == Abs(fs)[i := File(Splice(Content(fs, fs.inodes[i]), blk * BLOCK_SIZE + start, d), fs.inodes[i].parent)]
  {
    var g := if blk < fs.inodes[i].nBlocks then fs else Grown(fs, i, b);
    SlotReady(fs, g, i, blk, b);
    WriteBlockInv(fs, g, i, blk, b, start, d);
    PatchedReads(g, i, blk, start, d);
    var fs' := WriteBlock(fs, i, blk, b, start, d);
    assert fs' == Patched(g, i, blk, start, d);
    hide Ownership, Sizes, Untouched, Abs, Content;
    AbsUpdate(fs, fs', i);
  }

  /** Patching a block of inode `i` leaves every other inode untouched. */
  lemma WriteBlockFrame(fs: Fs, g: Fs, fs': Fs, i: nat, blk: nat)
    requires Shape(fs) && Shape(g) && Shape(fs') && Slot(g, i, blk)
    requires g.inodeBits == fs.inodeBits && g.blocks == fs.blocks
    requires forall j :: 0 <= j < N_INODES && j != i ==> g.inodes[j] == fs.inodes[j] && fs'.inodes[j] == fs.inodes[j]
    requires forall c :: 0 <= c < N_DATA_BLOCKS && c != BlockNo(g, i, blk) ==> fs'.blocks[c] == g.blocks[c]
    requires forall j: nat, k: nat :: Slot(g, j, k) && (j != i || k != blk) ==> BlockNo(g, j, k) != BlockNo(g, i, blk)
    ensures forall j :: Allocated(fs, j) && j != i ==> Untouched(fs, fs', j)
  {
    forall j, k: nat | Allocated(fs, j) && j != i && Slot(fs, j, k)
      ensures BlockNo(fs, j, k) != BlockNo(g, i, blk)
    {
      assert Slot(g, j, k) && BlockNo(g, j, k) == BlockNo(fs, j, k);
    }
  }

  /** Cutting a file to a shorter length frees exactly the blocks past it. */
  lemma ShrinkOk(fs: Fs, i: nat, length: nat)
    requires StorageInv(fs) && Allocated(fs, i) && !fs.inodes[i].isDir && length < fs.inodes[i].size
    ensures length / BLOCK_SIZE <= DivUp(length, BLOCK_SIZE) <= fs.inodes[i].nBlocks
    ensures StorageInv(Shrunk(fs, i, DivUp(length, BLOCK_SIZE), length))
    ensures Readable(fs, fs.inodes[i])
    ensures Abs(Shrunk(fs, i, DivUp(length, BLOCK_SIZE), length))
         == Abs(fs)[i := File(Content(fs, fs.inodes[i])[..length], fs.inodes[i].parent)]
  {
    hide Ownership;
    InvReadable(fs, i);
    ShrunkOwnership(fs, i, DivUp(length, BLOCK_SIZE), length);
    var fs' := Shrunk(fs, i, DivUp(length, BLOCK_SIZE), length);
    AbsUpdate(fs, fs', i);
    PrefixContent(fs, fs', fs.inodes[i], fs'.inodes[i]);
  }

  // ---------------------------------------------------------------------------------------------
  // Inodes and directory entries

  /** A fresh inode: its bit set, its record empty. */
  function NewInode(fs: Fs, i: nat, isDir: bool, parent: nat): Fs
    requires Shape(fs) && i < N_INODES
  {
    fs.(inodes := fs.inodes[i := fs.inodes[i].(isDir := isDir, size := 0, nBlocks := 0, parent := parent)],
        inodeBits := fs.inodeBits[i := true])
  }

  function EmptyNode(isDir: bool, parent: nat): Node {
    if isDir then Dir([], parent) else File([], parent)
  }

  lemma NewInodeOk(fs: Fs, i: nat, isDir: bool, parent: nat)
    requires StorageInv(fs) && i < N_INODES && !fs.inodeBits[i]
    ensures StorageInv(NewInode(fs, i, isDir, parent))
    ensures Abs(NewInode(fs, i, isDir, parent)) == Abs(fs)[i := EmptyNode(isDir, parent)]
  {
    hide Ownership;
    var fs' := NewInode(fs, i, isDir, parent);
    OwnershipFrame(fs, fs');
    AbsUpdate(fs, fs', i);
    if isDir { assert Entries(fs', fs'.inodes[i]) == []; } else { assert Content(fs', fs'.inodes[i]) == []; }
  }

  /** An inode with no blocks is released. */
  function Released(fs: Fs, i: nat): Fs
    requires Shape(fs) && i < N_INODES
  {
    fs.(inodeBits := fs.inodeBits[i := false])
  }

  lemma ReleasedOk(fs: Fs, i: nat)
    requires StorageInv(fs) && Allocated(fs, i) && fs.inodes[i].nBlocks == 0
    ensures StorageInv(Released(fs, i)) && Abs(Released(fs, i)) == Abs(fs) - {i}
  {
    hide Ownership;
    var fs' := Released(fs, i);
    assert Sizes(fs');
    OwnershipFrame(fs, fs');
    forall j: nat | Allocated(fs', j) ensures j in Abs(fs') && j in Abs(fs) && Abs(fs')[j] == Abs(fs)[j] {
      UntouchedNode(fs, fs', j);
    }
    assert Abs(fs').Keys == Abs(fs).Keys - {i};
  }

  /** Directory slot `e` of directory `i` overwritten. */
  function SlotSet(fs: Fs, i: nat, e: nat, d: Dirent): Fs
    requires Shape(fs) && Slot(fs, i, e / N_DENTRY_PER_BLOCK) && BlockNo(fs, i, e / N_DENTRY_PER_BLOCK) < N_DATA_BLOCKS
  {
    var b := BlockNo(fs, i, e / N_DENTRY_PER_BLOCK);
    fs.(blocks := fs.blocks[b := fs.blocks[b].(dents := fs.blocks[b].dents[e % N_DENTRY_PER_BLOCK := d])])
  }

  lemma SlotSetEntries(fs: Fs, i: nat, e: nat, d: Dirent)
    requires StorageInv(fs) && Allocated(fs, i) && fs.inodes[i].isDir && e < fs.inodes[i].size / DENTRY_SIZE
    ensures Readable(fs, fs.inodes[i]) && Slot(fs, i, e / N_DENTRY_PER_BLOCK) && BlockNo(fs, i, e / N_DENTRY_PER_BLOCK) < N_DATA_BLOCKS
    ensures StorageInv(SlotSet(fs, i, e, d))
    ensures Abs(SlotSet(fs, i, e, d)) == Abs(fs)[i := Dir(Entries(fs, fs.inodes[i])[e := d], fs.inodes[i].parent)]
  {
    hide Ownership;
    InvReadable(fs, i);
    var n := fs.inodes[i];
    var blk := e / N_DENTRY_PER_BLOCK;
    assert Slot(fs, i, blk);
    OtherBlocks(fs, i, blk);
    var fs' := SlotSet(fs, i, e, d);
    OwnershipFrame(fs, fs');
    WriteBlockFrame(fs, fs, fs', i, blk);
    AbsUpdate(fs, fs', i);
    forall k | 0 <= k < n.nBlocks && k != blk ensures fs'.blocks[n.dataBlocks[k]] == fs.blocks[n.dataBlocks[k]] {
      assert Slot(fs, i, k) && BlockNo(fs, i, k) == n.dataBlocks[k];
    }
    PatchedEntries(fs, fs', n, e, d);
  }

  predicate LastBlockFull(n: Inode) {
    n.size == n.nBlocks * BLOCK_SIZE
  }

  /** A directory made one entry longer; full up to its last block, it takes block `b` first. */
  function Widened(fs: Fs, i: nat, b: nat): Fs
    requires Shape(fs) && Allocated(fs, i) && fs.inodes[i].isDir && SizeOk(fs.inodes[i])
    requires fs.inodes[i].size < MAX_FILE_SIZE && (LastBlockFull(fs.inodes[i]) ==> b < N_USABLE_BLOCKS)
  {
    var n := fs.inodes[i];
    var g := if LastBlockFull(n) then Grown(fs, i, b) else fs;
    g.(inodes := g.inodes[i := g.inodes[i].(size := n.size + DENTRY_SIZE)])
  }

  lemma WidenedOk(fs: Fs, i: nat, b: nat)
    requires StorageInv(fs) && Allocated(fs, i) && fs.inodes[i].isDir && fs.inodes[i].size < MAX_FILE_SIZE
    requires LastBlockFull(fs.inodes[i]) ==> b < N_USABLE_BLOCKS && !fs.dataBits[b]
    ensures var fs' := Widened(fs, i, b);
      && Readable(fs, fs.inodes[i]) && StorageInv(fs') && Readable(fs', fs'.inodes[i])
      && Entries(fs', fs'.inodes[i])[..fs.inodes[i].size / DENTRY_SIZE] == Entries(fs, fs.inodes[i])
      && Abs(fs') == Abs(fs)[i := Dir(Entries(fs', fs'.inodes[i]), fs.inodes[i].parent)]
  {
    hide Ownership;
    InvReadable(fs, i);
    var n := fs.inodes[i];
    var g := if LastBlockFull(n) then Grown(fs, i, b) else fs;
    if LastBlockFull(n) {
      GrownOwnership(fs, i, b);
    }
    var fs' := Widened(fs, i, b);
    OwnershipFrame(g, fs');
    AbsUpdate(fs, fs', i);
    PrefixEntries(fs', fs, fs'.inodes[i], n);
  }

  /** A directory entry appended. */
  function EntryAdded(fs: Fs, i: nat, b: nat, d: Dirent): Fs
    requires StorageInv(fs) && Allocated(fs, i) && fs.inodes[i].isDir && fs.inodes[i].size < MAX_FILE_SIZE
    requires LastBlockFull(fs.inodes[i]) ==> b < N_USABLE_BLOCKS && !fs.dataBits[b]
  {
    WidenedOk(fs, i, b);
    var fs' := Widened(fs, i, b);
    assert Slot(fs', i, fs.inodes[i].size / DENTRY_SIZE / N_DENTRY_PER_BLOCK);
    SlotSet(fs', i, fs.inodes[i].size / DENTRY_SIZE, d)
  }

  lemma EntryAddedOk(fs: Fs, i: nat, b: nat, d: Dirent)
    requires StorageInv(fs) && Allocated(fs, i) && fs.inodes[i].isDir && fs.inodes[i].size < MAX_FILE_SIZE
    requires LastBlockFull(fs.inodes[i]) ==> b < N_USABLE_BLOCKS && !fs.dataBits[b]
    ensures Readable(fs, fs.inodes[i]) && StorageInv(EntryAdded(fs, i, b, d))
    ensures Abs(EntryAdded(fs, i, b, d))
         == Abs(fs)[i := Dir(Entries(fs, fs.inodes[i]) + [d], fs.inodes[i].parent)]
  {
    hide Ownership;
    WidenedOk(fs, i, b);
    var fs' := Widened(fs, i, b);
    var e := fs.inodes[i].size / DENTRY_SIZE;
    SlotSetEntries(fs', i, e, d);
    hide Ownership, Sizes, Abs, Widened;
    assert Entries(fs', fs'.inodes[i])[e := d] == Entries(fs, fs.inodes[i]) + [d];
  }

  /** A directory without its last entry gives its last block back exactly when that leaves the
      block empty. */
  function LastDropped(fs: Fs, i: nat): Fs
    requires Shape(fs) && Allocated(fs, i) && fs.inodes[i].isDir && SizeOk(fs.inodes[i]) && fs.inodes[i].size > 0
  {
    var n := fs.inodes[i];
    Shrunk(fs, i,
           if (n.size / DENTRY_SIZE - 1) % N_DENTRY_PER_BLOCK == 0 then n.nBlocks - 1 else n.nBlocks,
           n.size - DENTRY_SIZE)
  }

  lemma LastDroppedInv(fs: Fs, i: nat)
    requires StorageInv(fs) && Allocated(fs, i) && fs.inodes[i].isDir && fs.inodes[i].size > 0
    ensures StorageInv(LastDropped(fs, i))
    ensures forall j :: Allocated(fs, j) && j != i ==> Untouched(fs, LastDropped(fs, i), j)
  {
    var n := fs.inodes[i];
    ShrunkOwnership(fs, i,
                    if (n.size / DENTRY_SIZE - 1) % N_DENTRY_PER_BLOCK == 0 then n.nBlocks - 1 else n.nBlocks,
                    n.size - DENTRY_SIZE);
    hide Ownership;
  }

  lemma LastDroppedOk(fs: Fs, i: nat)
    requires StorageInv(fs) && Allocated(fs, i) && fs.inodes[i].isDir && fs.inodes[i].size > 0
    ensures Readable(fs, fs.inodes[i]) && StorageInv(LastDropped(fs, i))
    ensures Abs(LastDropped(fs, i))
         == Abs(fs)[i := Dir(Entries(fs, fs.inodes[i])[..fs.inodes[i].size / DENTRY_SIZE - 1], fs.inodes[i].parent)]
  {
    LastDroppedInv(fs, i);
    InvReadable(fs, i);
    InvReadable(LastDropped(fs, i), i);
    hide Ownership, Sizes, Untouched, Abs;
    AbsUpdate(fs, LastDropped(fs, i), i);
    PrefixEntries(fs, LastDropped(fs, i), fs.inodes[i], LastDropped(fs, i).inodes[i]);
  }
}
