/**
 * The read-only file system of student-distrib/filesys.c, over the bytes of its image: a boot
 * block of directory entries, then one 4096-byte block per inode, then the data blocks.
 */
module FileSys {
  import opened Bytes

  const BLOCK := 4096
  const MAX_FILE := 1023 * BLOCK

  type Image = seq<Byte>

  // ---------------------------------------------------------------- the image

  /** A little-endian 32-bit word. */
  function Word32(img: Image, a: nat): (w: nat)
    requires a + 4 <= |img|
    ensures w < 0x1_0000_0000
  {
    img[a] as int + 0x100 * img[a + 1] as int + 0x1_0000 * img[a + 2] as int + 0x100_0000 * img[a + 3] as int
  }

  function EntryAddress(k: nat): nat {
    64 + 64 * k
  }

  function InodeAddress(inode: nat): nat {
    BLOCK + BLOCK * inode
  }

  ghost predicate Header(img: Image) {
    && |img| >= BLOCK
    && |img| == BLOCK * Blocks(img)
    && DirEntries(img) <= 63
  }

  function DirEntries(img: Image): nat
    requires |img| >= BLOCK
  {
    Word32(img, 0)
  }

  function NumInodes(img: Image): nat
    requires |img| >= BLOCK
  {
    Word32(img, 4)
  }

  /** The boot block, the inodes and the data blocks. */
  function Blocks(img: Image): nat
    requires |img| >= BLOCK
  {
    1 + NumInodes(img) + Word32(img, 8)
  }

  /** Block `n` of the image. */
  function BlockAt(img: Image, n: nat): (b: seq<Byte>)
    requires Header(img) && n < Blocks(img)
    ensures |b| == BLOCK
  {
    img[n * BLOCK..(n + 1) * BLOCK]
  }

  /** Data block `n`; the data blocks follow the inodes. */
  function DataBlock(img: Image, n: nat): (b: seq<Byte>)
    requires Header(img) && 1 + NumInodes(img) + n < Blocks(img)
    ensures |b| == BLOCK
  {
    BlockAt(img, 1 + NumInodes(img) + n)
  }

  /** Inode `i`, a block of words: the length of the file, then the numbers of its data blocks. */
  function InodeBlock(img: Image, i: nat): (b: seq<Byte>)
    requires Header(img) && 1 + i < Blocks(img)
    ensures |b| == BLOCK
  {
    BlockAt(img, 1 + i)
  }

  /** The inode number in directory entry `k`, after its name and type. */
  function InodeOf(img: Image, k: nat): nat
    requires Header(img) && k < DirEntries(img)
  {
    Word32(img, EntryAddress(k) + 36)
  }

  function Length(img: Image, inode: nat): nat
    requires Header(img) && 1 + inode < Blocks(img)
  {
    Word32(InodeBlock(img, inode), 0)
  }

  function DataNumber(img: Image, inode: nat, j: nat): nat
    requires Header(img) && 1 + inode < Blocks(img) && j < 1023
  {
    Word32(InodeBlock(img, inode), 4 * (j + 1))
  }

  /** The number of blocks that hold so many bytes. */
  function BlocksFor(length: nat): (n: nat)
    ensures (n - 1) * BLOCK < length <= n * BLOCK || n == length == 0
  {
    (length + BLOCK - 1) / BLOCK
  }

  /**
   * The inode block lies in the image, and its length and block numbers do too. The block one past
   * the inodes, which is the first data block, is not excluded.
   */
  ghost predicate GoodInode(img: Image, inode: nat)
    requires Header(img)
  {
    && 1 + inode < Blocks(img)
    && Length(img, inode) <= MAX_FILE
    && GoodBlocks(img, inode, BlocksFor(Length(img, inode)))
  }

  ghost predicate GoodBlocks(img: Image, inode: nat, n: nat)
    requires Header(img) && 1 + inode < Blocks(img)
  {
    n <= 1023 && forall j :: 0 <= j < n ==> 1 + NumInodes(img) + DataNumber(img, inode, j) < Blocks(img)
  }

  ghost predicate WellFormed(img: Image) {
    && Header(img)
    && forall k :: 0 <= k < DirEntries(img) ==> InodeOf(img, k) < NumInodes(img) && GoodInode(img, InodeOf(img, k))
  }

  /** The first `n` data blocks of a file, one after the other. */
  ghost function DataBlocks(img: Image, inode: nat, n: nat): (s: seq<Byte>)
    requires Header(img) && 1 + inode < Blocks(img) && GoodBlocks(img, inode, n)
    ensures |s| == n * BLOCK
  {
    if n == 0 then [] else DataBlocks(img, inode, n - 1) + DataBlock(img, DataNumber(img, inode, n - 1))
  }

  /** The file that an inode describes: its blocks in order, cut to its length. */
  ghost function Contents(img: Image, inode: nat): (s: seq<Byte>)
    requires Header(img) && GoodInode(img, inode)
    ensures |s| == Length(img, inode)
  {
    DataBlocks(img, inode, BlocksFor(Length(img, inode)))[..Length(img, inode)]
  }

  // ---------------------------------------------------------------- addresses

  /** The 32-bit word of an inode that `read_data` reads at `inode_block[w]`. */
  function InodeWord(img: Image, inode: nat, w: nat): nat
    requires InodeAddress(inode) + 4 * w + 4 <= |img|
  {
    Word32(img, InodeAddress(inode) + 4 * w)
  }

  /** The address of `data_block` for byte `i` of a file. */
  function DataAddress(img: Image, inode: nat, i: nat): nat
    requires |img| >= BLOCK && InodeAddress(inode) + 4 * (i / BLOCK + 1) + 4 <= |img|
  {
    BLOCK + (NumInodes(img) + InodeWord(img, inode, i / BLOCK + 1)) * BLOCK
  }

  lemma WordOfInode(img: Image, inode: nat, w: nat)
    requires Header(img) && 1 + inode < Blocks(img) && w < 1024
    ensures InodeAddress(inode) + 4 * w + 4 <= |img|
    ensures InodeWord(img, inode, w) == Word32(InodeBlock(img, inode), 4 * w)
  {
    var a, b := InodeAddress(inode), InodeBlock(img, inode);
    assert forall k :: 0 <= k < BLOCK ==> b[k] == img[a + k];
  }

  /** Byte `i` of the blocks is the byte `i % 4096` of block `i / 4096`. */
  lemma {:induction false} ByteOfBlocks(img: Image, inode: nat, n: nat, j: nat, r: nat)
    requires Header(img) && 1 + inode < Blocks(img) && GoodBlocks(img, inode, n)
    requires j < n && r < BLOCK
    ensures DataBlocks(img, inode, n)[j * BLOCK + r] == DataBlock(img, DataNumber(img, inode, j))[r]
    decreases n
  {
    if j + 1 < n {
      ByteOfBlocks(img, inode, n - 1, j, r);
    }
  }

  lemma BlockOfByte(i: nat, length: nat)
    requires i < length
    ensures i / BLOCK < BlocksFor(length) && i == i / BLOCK * BLOCK + i % BLOCK
  {
  }

  /** Byte `i` of a file is byte `i % 4096` of its block `i / 4096`. */
  lemma ByteInBlock(img: Image, inode: nat, i: nat)
    requires Header(img) && GoodInode(img, inode) && i < Length(img, inode)
    ensures i / BLOCK < 1023 && 1 + NumInodes(img) + DataNumber(img, inode, i / BLOCK) < Blocks(img)
    ensures Contents(img, inode)[i] == DataBlock(img, DataNumber(img, inode, i / BLOCK))[i % BLOCK]
  {
    BlockOfByte(i, Length(img, inode));
    ByteOfBlocks(img, inode, BlocksFor(Length(img, inode)), i / BLOCK, i % BLOCK);
  }

  /** The address that `read_data` computes lies in the image and holds that byte of the file. */
  lemma ByteOfFile(img: Image, inode: nat, i: nat)
    requires Header(img) && GoodInode(img, inode) && i < Length(img, inode)
    ensures InodeAddress(inode) + 4 * (i / BLOCK + 1) + 4 <= |img|
    ensures DataAddress(img, inode, i) + BLOCK <= |img|
    ensures img[DataAddress(img, inode, i) + i % BLOCK] == Contents(img, inode)[i]
  {
    ByteInBlock(img, inode, i);
    WordOfInode(img, inode, i / BLOCK + 1);
    ByteOfData(img, DataNumber(img, inode, i / BLOCK), i % BLOCK);
  }

  /** `b` is at the address that `read_data` computes for byte `i`. */
  ghost predicate Lies(img: Image, inode: nat, i: nat, b: Byte) {
    && |img| >= BLOCK && InodeAddress(inode) + 4 * (i / BLOCK + 1) + 4 <= |img|
    && DataAddress(img, inode, i) + BLOCK <= |img|
    && img[DataAddress(img, inode, i) + i % BLOCK] == b
  }

  ghost predicate AllLie(img: Image, inode: nat, file: seq<Byte>) {
    forall i :: 0 <= i < |file| ==> Lies(img, inode, i, file[i])
  }

  lemma ContentsLie(img: Image, inode: nat)
    requires Header(img) && GoodInode(img, inode)
    ensures AllLie(img, inode, Contents(img, inode))
  {
    forall i | 0 <= i < Length(img, inode) ensures Lies(img, inode, i, Contents(img, inode)[i]) {
      ByteOfFile(img, inode, i);
    }
  }

  lemma ByteOfData(img: Image, n: nat, r: nat)
    requires Header(img) && 1 + NumInodes(img) + n < Blocks(img) && r < BLOCK
    ensures BLOCK + (NumInodes(img) + n) * BLOCK + BLOCK <= |img|
    ensures img[BLOCK + (NumInodes(img) + n) * BLOCK + r] == DataBlock(img, n)[r]
  {
  }

  /** One past the inodes is the first data block: `read_data` takes its bytes for a length and block numbers. */
  lemma PastTheTable(img: Image, i: nat)
    requires Header(img) && GoodInode(img, NumInodes(img)) && i < Length(img, NumInodes(img))
    ensures Length(img, NumInodes(img)) == Word32(DataBlock(img, 0), 0)
    ensures i / BLOCK < 1023
    ensures var number := Word32(DataBlock(img, 0), 4 * (i / BLOCK + 1));
      1 + NumInodes(img) + number < Blocks(img) && Contents(img, NumInodes(img))[i] == DataBlock(img, number)[i % BLOCK]
  {
    ByteInBlock(img, NumInodes(img), i);
  }

  ghost function File(img: Image, k: nat): seq<Byte>
    requires WellFormed(img) && k < DirEntries(img)
  {
    Contents(img, InodeOf(img, k))
  }

  /** The comparison of `fopen`: the entry begins with the name. */
  predicate NameAt(img: Image, k: nat, name: seq<Byte>) {
    EntryAddress(k) + |name| <= |img| && img[EntryAddress(k)..EntryAddress(k) + |name|] == name
  }

  /** The first directory entry from `k` on that begins with the name, or the number of entries. */
  function Found(img: Image, name: seq<Byte>, k: nat): (i: nat)
    requires |img| >= BLOCK
    ensures k <= DirEntries(img) ==> k <= i <= DirEntries(img)
    ensures i < DirEntries(img) ==> NameAt(img, i, name)
    ensures forall j :: k <= j < i ==> !NameAt(img, j, name)
    decreases DirEntries(img) - k
  {
    if k >= DirEntries(img) || NameAt(img, k, name) then k else Found(img, name, k + 1)
  }

  lemma FoundIs(img: Image, name: seq<Byte>, k: nat, i: nat)
    requires |img| >= BLOCK && k <= i <= DirEntries(img)
    requires i < DirEntries(img) ==> NameAt(img, i, name)
    requires forall j :: k <= j < i ==> !NameAt(img, j, name)
    ensures Found(img, name, k) == i
  {
  }

  /** A name field, 32 bytes that a NUL ends when it is shorter, as a string. */
  function UpToNul(s: seq<Byte>): (t: seq<Byte>)
    ensures t <= s && NUL !in t && (|t| < |s| ==> s[|t|] == NUL)
  {
    if s == [] || s[0] == NUL then [] else [s[0]] + UpToNul(s[1..])
  }

  function EntryName(img: Image, k: nat): seq<Byte>
    requires EntryAddress(k) + 32 <= |img|
  {
    UpToNul(img[EntryAddress(k)..EntryAddress(k) + 32])
  }

  /** The comparison of `fopen` asks whether the name in the entry begins with the name given. */
  lemma NameAtIsPrefix(img: Image, k: nat, name: seq<Byte>)
    requires EntryAddress(k) + 32 <= |img| && |name| <= 32 && NUL !in name
    ensures NameAt(img, k, name) <==> name <= EntryName(img, k)
  {
    var a := EntryAddress(k);
    assert img[a..a + 32][..|name|] == img[a..a + |name|];
    PrefixUpToNul(img[a..a + 32], name);
  }

  lemma {:induction false} PrefixUpToNul(s: seq<Byte>, name: seq<Byte>)
    requires NUL !in name
    ensures name <= s <==> name <= UpToNul(s)
  {
    if name != [] && s != [] && name[0] == s[0] {
      assert name[0] in name;
      PrefixUpToNul(s[1..], name[1..]);
      assert name == [name[0]] + name[1..] && s == [s[0]] + s[1..];
    }
  }

  /** The first entry from `k` on with exactly this name, or the number of entries. */
  function Wanted(img: Image, name: seq<Byte>, k: nat): (i: nat)
    requires Header(img) && k <= DirEntries(img)
    ensures k <= i <= DirEntries(img)
    ensures i < DirEntries(img) ==> EntryName(img, i) == name
    ensures forall j :: k <= j < i ==> EntryName(img, j) != name
    decreases DirEntries(img) - k
  {
    if k == DirEntries(img) || EntryName(img, k) == name then k else Wanted(img, name, k + 1)
  }

  /**
   * `fopen` finds the entry of that name, or none, exactly when no earlier entry has a longer name
   * that begins with it.
   */
  lemma OpensTheNamedEntry(img: Image, name: seq<Byte>)
    requires Header(img) && |name| <= 32 && NUL !in name
    ensures Found(img, name, 0) == Wanted(img, name, 0) <==>
      forall j :: 0 <= j < Wanted(img, name, 0) ==> !(name < EntryName(img, j))
  {
    var w := Wanted(img, name, 0);
    forall j | 0 <= j < DirEntries(img) ensures NameAt(img, j, name) <==> name <= EntryName(img, j) {
      NameAtIsPrefix(img, j, name);
    }
    if forall j :: 0 <= j < w ==> !(name < EntryName(img, j)) {
      FoundIs(img, name, 0, w);
    }
  }

  /** Two empty files, "ab" and "a". */
  function TwoFiles(): (img: Image)
    ensures |img| == 2 * BLOCK && forall i :: 0 <= i < 2 * BLOCK ==> img[i] == TwoFilesByte(i)
  {
    seq(2 * BLOCK, i requires 0 <= i < 2 * BLOCK => TwoFilesByte(i))
  }

  function TwoFilesByte(i: nat): Byte {
    if i == 0 then 2
    else if i == 4 then 1
    else if i == EntryAddress(0) || i == EntryAddress(1) then Ascii('a')
    else if i == EntryAddress(0) + 1 then Ascii('b')
    else 0
  }

  lemma OneLetter(field: seq<Byte>)
    requires |field| > 1 && field[0] != NUL && field[1] == NUL
    ensures UpToNul(field) == [field[0]]
  {
    assert UpToNul(field[1..]) == [];
  }

  lemma SmallWord(s: seq<Byte>, a: nat, low: Byte)
    requires a + 4 <= |s| && s[a] == low && s[a + 1] == s[a + 2] == s[a + 3] == 0
    ensures Word32(s, a) == low
  {
  }

  lemma EmptyFiles(img: Image)
    requires |img| == 2 * BLOCK && Word32(img, 0) == 2 && Word32(img, 4) == 1 && Word32(img, 8) == 0
    requires Word32(img, EntryAddress(0) + 36) == Word32(img, EntryAddress(1) + 36) == 0
    requires Word32(img, InodeAddress(0)) == 0
    ensures WellFormed(img) && DirEntries(img) == 2
  {
    WordOfInode(img, 0, 0);
    assert Length(img, 0) == 0;
  }

  lemma TwoFilesWellFormed()
    ensures WellFormed(TwoFiles()) && DirEntries(TwoFiles()) == 2
  {
    var img := TwoFiles();
    SmallWord(img, 0, 2);
    SmallWord(img, 4, 1);
    SmallWord(img, 8, 0);
    SmallWord(img, EntryAddress(0) + 36, 0);
    SmallWord(img, EntryAddress(1) + 36, 0);
    SmallWord(img, InodeAddress(0), 0);
    EmptyFiles(img);
  }

  lemma TwoLetters(field: seq<Byte>)
    requires |field| > 1 && field[0] != NUL && field[1] != NUL
    ensures |UpToNul(field)| > 1
  {
    assert UpToNul(field[1..]) != [];
  }

  /** Opening "a" in it opens "ab". */
  lemma LongerNameFirst()
    ensures WellFormed(TwoFiles()) && EntryName(TwoFiles(), 1) == Text("a")
    ensures Found(TwoFiles(), Text("a"), 0) == 0 && EntryName(TwoFiles(), 0) != Text("a")
  {
    var img, a := TwoFiles(), Text("a");
    TwoFilesWellFormed();
    OneLetter(img[EntryAddress(1)..EntryAddress(1) + 32]);
    TwoLetters(img[EntryAddress(0)..EntryAddress(0) + 32]);
    assert img[EntryAddress(0)..EntryAddress(0) + |a|] == a;
    FoundIs(img, a, 0, 0);
  }

  /** At most `n` bytes from position `p` on. */
  ghost function Chunk(s: seq<Byte>, p: nat, n: nat): (c: seq<Byte>)
    ensures |c| <= n && (p <= |s| ==> p + |c| <= |s|)
    ensures |c| < n ==> |s| <= p + |c|
    ensures forall i :: 0 <= i < |c| ==> p + i < |s| && c[i] == s[p + i]
  {
    if p >= |s| then [] else if p + n <= |s| then s[p..p + n] else s[p..]
  }

  lemma ChunkPast(s: seq<Byte>, p: nat, n: nat)
    requires p < 0x1_0000_0000 && |s| <= MAX_FILE
    ensures p + |Chunk(s, p, n)| < 0x1_0000_0000 && |Chunk(s, p, n)| <= MAX_FILE
  {
  }

  /** One less than a 32-bit number, wrapping around. */
  function Back(p: nat): nat {
    if p == 0 then 0xFFFF_FFFF else p - 1
  }

  /** The position after a read, and the difference that `fread` returns. */
  lemma Advanced(p: nat, n: int)
    requires p < 0x1_0000_0000 && (n == -1 || (0 <= n <= MAX_FILE && p + n < 0x1_0000_0000))
    ensures U32(p + n) == if n == -1 then Back(p) else p + n
    ensures S32(U32(p + n) - p) == n
  {
  }

  /** The bytes of a file from `offset` to `i` stored, one by one, over what was in the buffer. */
  ghost function Partly(file: seq<Byte>, offset: nat, i: nat, before: seq<Byte>): (buf: seq<Byte>)
    requires offset <= i <= |file| && i - offset <= |before|
    ensures |buf| == |before|
    decreases i
  {
    if i == offset then before else Partly(file, offset, i - 1, before)[i - 1 - offset := file[i - 1]]
  }

  lemma {:induction false} PartlyIs(file: seq<Byte>, offset: nat, i: nat, before: seq<Byte>)
    requires offset <= i <= |file| && i - offset <= |before|
    ensures Partly(file, offset, i, before) == file[offset..i] + before[i - offset..]
    decreases i
  {
    if offset < i {
      PartlyIs(file, offset, i - 1, before);
      CopiedOne(file, offset, i - 1, before);
    }
  }

  lemma CopiedOne(file: seq<Byte>, offset: nat, i: nat, before: seq<Byte>)
    requires offset <= i < |file| && i - offset < |before|
    ensures (file[offset..i] + before[i - offset..])[i - offset := file[i]] ==
      file[offset..i + 1] + before[i + 1 - offset..]
  {
  }

  lemma CopiedAll(file: seq<Byte>, offset: nat, i: nat, before: seq<Byte>, nbytes: nat)
    requires offset <= i <= |file| && i - offset <= nbytes <= |before|
    requires i - offset == nbytes || i == |file|
    ensures i - offset == |Chunk(file, offset, nbytes)|
    ensures Partly(file, offset, i, before) == Chunk(file, offset, nbytes) + before[i - offset..]
  {
    PartlyIs(file, offset, i, before);
  }

  // ---------------------------------------------------------------- the code

  class FileSystem {
    const image: Image
    const bytesRead: array<nat>
    var dirEntries: nat
    var numInodes: nat
    var dirPosition: nat

    ghost predicate Valid()
      reads this, bytesRead
    {
      && WellFormed(image) && bytesRead.Length == 64
      && dirEntries == DirEntries(image) && numInodes == NumInodes(image)
      && forall k :: 0 <= k < 64 ==> bytesRead[k] < 0x1_0000_0000
    }

    /** `filesys_init`; the positions are static and start at 0. */
    constructor (img: Image)
      requires WellFormed(img)
      ensures Valid() && image == img && forall k :: 0 <= k < 64 ==> bytesRead[k] == 0
    {
      image := img;
      bytesRead := new nat[64](_ => 0);
      dirEntries, numInodes := DirEntries(img), NumInodes(img);
      dirPosition := 1;
    }

    /** `strncmp` of a name with the bytes of a directory entry. */
    method SameName(name: seq<Byte>, k: nat) returns (same: bool)
      requires Valid() && k < dirEntries && EntryAddress(k) + |name| <= |image|
      ensures same <==> NameAt(image, k, name)
    {
      var a := EntryAddress(k);
      for i := 0 to |name|
        invariant forall j :: 0 <= j < i ==> image[a + j] == name[j]
      {
        if image[a + i] != name[i] {
          assert image[a..a + |name|][i] == image[a + i];
          return false;
        }
      }
      assert image[a..a + |name|] == name;
      return true;
    }

    /** `fopen`; the name is short enough for the comparison to stay in the image. */
    method Fopen(name: seq<Byte>) returns (fd: int)
      requires Valid() && |name| <= 64 + (|image| - BLOCK)
      modifies bytesRead
      ensures Valid()
      ensures fd == if Found(image, name, 0) < dirEntries then Found(image, name, 0) else -1
      ensures bytesRead[..] == Step(image, old(bytesRead[..]), Open(name))
    {
      var i := 0;
      while i < dirEntries
        invariant i <= dirEntries && Valid() && bytesRead[..] == old(bytesRead[..])
        invariant Found(image, name, i) == Found(image, name, 0)
      {
        var same := SameName(name, i);
        if same {
          break;
        }
        i := i + 1;
      }
      bytesRead[i] := 0;
      if i < dirEntries {
        return i;
      }
      return -1;
    }

    static method Blank(buf: array<Byte>, nbytes: nat)
      requires nbytes <= buf.Length
      modifies buf
      ensures buf[..] == seq(nbytes, _ => 0) + old(buf[..])[nbytes..]
    {
      for i := 0 to nbytes
        invariant forall j :: 0 <= j < i ==> buf[j] == 0
        invariant forall j :: i <= j < buf.Length ==> buf[j] == old(buf[j])
      {
        buf[i] := 0;
      }
    }

    /** `read_data`. Its check lets the number one past the inodes through, as if it were an inode. */
    method ReadData(inode: nat, offset: nat, buf: array?<Byte>, nbytes: nat) returns (r: int)
      requires Header(image) && numInodes == NumInodes(image)
      requires inode <= numInodes ==> GoodInode(image, inode)
      requires buf != null ==> nbytes <= buf.Length
      modifies buf
      ensures r == -1 <==> inode > numInodes || buf == null
      ensures r == -1 && buf != null ==> buf[..] == old(buf[..])
      ensures r != -1 ==> 0 <= r == |Chunk(Contents(image, inode), offset, nbytes)|
      ensures r != -1 && offset < Length(image, inode) ==>
        buf[..] == Chunk(Contents(image, inode), offset, nbytes) + old(buf[..])[r..]
      ensures r != -1 ==> buf[..][..r] == Chunk(Contents(image, inode), offset, nbytes)
      // At the end of the file the whole request is blanked.
      ensures r != -1 && offset >= Length(image, inode) ==>
        buf[..] == seq(nbytes, _ => 0) + old(buf[..])[nbytes..]
    {
      if inode > numInodes || buf == null {
        return -1;
      }
      WordOfInode(image, inode, 0);
      var length := InodeWord(image, inode, 0);
      if offset >= length {
        Blank(buf, nbytes);
        return 0;
      }
      ContentsLie(image, inode);
      r := ReadBlocks(inode, length, offset, buf, nbytes, Contents(image, inode));
    }

    /** The copy of `read_data`. */
    method ReadBlocks(inode: nat, length: nat, offset: nat, buf: array<Byte>, nbytes: nat, ghost file: seq<Byte>)
      returns (n: nat)
      requires AllLie(image, inode, file) && length == |file|
      requires offset <= length && nbytes <= buf.Length
      modifies buf
      ensures n == |Chunk(file, offset, nbytes)|
      ensures buf[..] == Chunk(file, offset, nbytes) + old(buf[..])[n..]
    {
      ghost var before := buf[..];
      var i := offset;
      while i - offset < nbytes && i < length
        invariant offset <= i <= length && i - offset <= nbytes
        invariant buf[..] == Partly(file, offset, i, before)
        decreases length - i
      {
        CopyByte(inode, i, buf, i - offset, file);
        i := i + 1;
      }
      CopiedAll(file, offset, i, before, nbytes);
      n := i - offset;
    }

    /** Copies byte `i` of a file. */
    method CopyByte(inode: nat, i: nat, buf: array<Byte>, at: nat, ghost file: seq<Byte>)
      requires AllLie(image, inode, file) && i < |file| && at < buf.Length
      modifies buf
      ensures buf[..] == old(buf[..])[at := file[i]]
    {
      assert Lies(image, inode, i, file[i]);
      var data := DataAddress(image, inode, i);
      buf[at] := image[data + i % BLOCK];
    }

    /** `fread`. The -1 that `read_data` returns for a NULL buffer is added to the position. */
    method Fread(index: nat, buf: array?<Byte>, nbytes: nat) returns (r: int)
      requires Valid() && (buf != null ==> nbytes <= buf.Length)
      modifies bytesRead, buf
      ensures Valid()
      ensures r == -1 <==> index >= dirEntries || buf == null
      ensures r == -1 && buf != null ==> buf[..] == old(buf[..])
      ensures r != -1 ==> 0 <= r == |Chunk(File(image, index), old(bytesRead[index]), nbytes)|
      ensures r != -1 ==> buf[..][..r] == Chunk(File(image, index), old(bytesRead[index]), nbytes)
      ensures bytesRead[..] ==
        Step(image, old(bytesRead[..]), if buf == null then ReadNull(index) else Read(index, nbytes))
    {
      if index >= dirEntries {
        return -1;
      }
      var inode := InodeOf(image, index);
      assert GoodInode(image, inode);
      ChunkPast(File(image, index), bytesRead[index], nbytes);
      var n := ReadData(inode, bytesRead[index], buf, nbytes);
      r := Advance(index, n);
    }

    /** Adds the result of `read_data` to a position; `fread` returns the difference. */
    method Advance(index: nat, n: int) returns (r: int)
      requires Valid() && index < 64
      requires n == -1 || (0 <= n <= MAX_FILE && bytesRead[index] + n < 0x1_0000_0000)
      modifies bytesRead
      ensures Valid() && r == n
      ensures bytesRead[..] ==
        old(bytesRead[..])[index := if n == -1 then Back(old(bytesRead[..])[index]) else old(bytesRead[..])[index] + n]
    {
      var before: int := bytesRead[index];
      Advanced(before, n);
      bytesRead[index] := U32(before + n);
      return S32(bytesRead[index] - before);
    }
  }

  // ---------------------------------------------------------------- runs

  /** The calls that move positions; `ReadNull` is a read into NULL. */
  datatype Op = Open(name: seq<Byte>) | Read(index: nat, nbytes: nat) | ReadNull(index: nat)

  ghost function Step(img: Image, pos: seq<nat>, op: Op): (after: seq<nat>)
    requires WellFormed(img) && |pos| == 64
    ensures |after| == 64
  {
    match op
    case Open(name) => pos[Found(img, name, 0) := 0]
    case Read(k, n) => if k < DirEntries(img) then pos[k := pos[k] + |Chunk(File(img, k), pos[k], n)|] else pos
    case ReadNull(k) => if k < DirEntries(img) then pos[k := Back(pos[k])] else pos
  }

  /** The file positions after a run that began with all files at their start. */
  ghost function Positions(img: Image, ops: seq<Op>): (pos: seq<nat>)
    requires WellFormed(img)
    ensures |pos| == 64
  {
    if ops == [] then seq(64, _ => 0) else Step(img, Positions(img, ops[..|ops| - 1]), ops[|ops| - 1])
  }

  predicate Opens(img: Image, op: Op, k: nat)
    requires |img| >= BLOCK
  {
    op.Open? && Found(img, op.name, 0) == k
  }

  /** What the reads of file `k` have returned since it was last opened. */
  ghost function Returned(img: Image, ops: seq<Op>, k: nat): seq<Byte>
    requires WellFormed(img) && k < DirEntries(img)
  {
    if ops == [] then []
    else
      var before, last := ops[..|ops| - 1], ops[|ops| - 1];
      if Opens(img, last, k) then []
      else if last.Read? && last.index == k then
        Returned(img, before, k) + Chunk(File(img, k), Positions(img, before)[k], last.nbytes)
      else Returned(img, before, k)
  }

  /** The reads of file `k` into NULL since it was last opened. */
  ghost function NullReads(img: Image, ops: seq<Op>, k: nat): nat
    requires WellFormed(img)
  {
    if ops == [] then 0
    else
      var before, last := ops[..|ops| - 1], ops[|ops| - 1];
      if Opens(img, last, k) then 0
      else NullReads(img, before, k) + if last == ReadNull(k) then 1 else 0
  }

  /** Wrapping around early or late makes no difference. */
  lemma WrapOnce(x: int, d: int)
    ensures U32(U32(x) + d) == U32(x + d)
  {
    assert x + d == U32(x) + d + x / 0x1_0000_0000 * 0x1_0000_0000;
  }

  ghost predicate Counts(pos: nat, returned: nat, nulls: nat) {
    pos == U32(returned - nulls)
  }

  lemma CountsStill(pos: nat, returned: nat, nulls: nat, pos': nat, returned': nat, nulls': nat)
    requires Counts(pos, returned, nulls)
    requires if nulls' == nulls then pos <= pos' < 0x1_0000_0000 && pos' - pos == returned' - returned
      else pos' == Back(pos) && returned' == returned && nulls' == nulls + 1
    ensures Counts(pos', returned', nulls')
  {
    WrapOnce(returned - nulls, if nulls' == nulls then pos' - pos else -1);
  }

  lemma LastRead(img: Image, ops: seq<Op>, k: nat)
    requires WellFormed(img) && k < DirEntries(img)
    requires ops != [] && !Opens(img, ops[|ops| - 1], k)
    ensures var before, last := ops[..|ops| - 1], ops[|ops| - 1];
      var pos, n := Positions(img, before)[k], |Returned(img, before, k)|;
      var c := if last.Read? && last.index == k then |Chunk(File(img, k), pos, last.nbytes)| else 0;
      && Positions(img, ops)[k] == (if last == ReadNull(k) then Back(pos) else pos + c)
      && |Returned(img, ops, k)| == n + c
      && NullReads(img, ops, k) == NullReads(img, before, k) + if last == ReadNull(k) then 1 else 0
  {
  }

  lemma NothingCounted(img: Image, ops: seq<Op>, k: nat)
    requires WellFormed(img) && k < DirEntries(img)
    requires ops == [] || Opens(img, ops[|ops| - 1], k)
    ensures Positions(img, ops)[k] == 0 && |Returned(img, ops, k)| == 0 && NullReads(img, ops, k) == 0
  {
  }

  /** A position counts the bytes returned since the last open, less one for each read into NULL. */
  lemma {:induction false} PositionCounts(img: Image, ops: seq<Op>, k: nat)
    requires WellFormed(img) && k < DirEntries(img)
    ensures Counts(Positions(img, ops)[k], |Returned(img, ops, k)|, NullReads(img, ops, k))
    decreases |ops|
  {
    if ops == [] || Opens(img, ops[|ops| - 1], k) {
      NothingCounted(img, ops, k);
      assert Counts(0, 0, 0);
      return;
    }
    var before, last := ops[..|ops| - 1], ops[|ops| - 1];
    PositionCounts(img, before, k);
    LastRead(img, ops, k);
    var pos, returned, nulls := Positions(img, before)[k], |Returned(img, before, k)|, NullReads(img, before, k);
    if last.Read? {
      ChunkPast(File(img, k), pos, last.nbytes);
    }
    CountsStill(pos, returned, nulls, Positions(img, ops)[k], |Returned(img, ops, k)|, NullReads(img, ops, k));
  }

  /**
   * However opens and reads of all files interleave, each file's chunks are a prefix of it, up to
   * its position, as long as none of its reads was into NULL.
   */
  lemma {:induction false} ChunksAreAPrefix(img: Image, ops: seq<Op>, k: nat)
    requires WellFormed(img) && k < DirEntries(img) && NullReads(img, ops, k) == 0
    ensures Positions(img, ops)[k] <= |File(img, k)|
    ensures Returned(img, ops, k) == File(img, k)[..Positions(img, ops)[k]]
    decreases |ops|
  {
    if ops != [] && !Opens(img, ops[|ops| - 1], k) {
      var before := ops[..|ops| - 1];
      ChunksAreAPrefix(img, before, k);
      match ops[|ops| - 1]
      case Open(_) =>
      case ReadNull(_) =>
      case Read(j, n) =>
        if j == k {
          ChunkExtends(File(img, k), Positions(img, before)[k], n);
        }
    }
  }

  lemma ChunkExtends(s: seq<Byte>, p: nat, n: nat)
    requires p <= |s|
    ensures s[..p] + Chunk(s, p, n) == s[..p + |Chunk(s, p, n)|]
  {
  }

  /** A read of at least one byte returns nothing exactly when the whole file has been returned. */
  lemma EmptyReadMeansDone(img: Image, ops: seq<Op>, k: nat, n: nat)
    requires WellFormed(img) && k < DirEntries(img) && n > 0 && NullReads(img, ops, k) == 0
    ensures Chunk(File(img, k), Positions(img, ops)[k], n) == [] <==> Returned(img, ops, k) == File(img, k)
  {
    ChunksAreAPrefix(img, ops, k);
  }
}
