/**
 * The file system image that holds given files, laid out byte by byte: what `Word32`, the directory
 * and the inodes of module FileSys mean. Reading it back gives the files.
 */
module Images {
  import opened Bytes
  import opened FileSys

  datatype Stored = Stored(name: seq<Byte>, data: seq<Byte>)

  /** At most 63 files, with names of at most 32 characters and at most 1023 blocks of data each. */
  ghost predicate Storable(files: seq<Stored>) {
    && |files| <= 63
    && forall k {:trigger files[k]} :: 0 <= k < |files| ==>
      |files[k].name| <= 32 && NUL !in files[k].name && |files[k].data| <= 1023 * 4096
  }

  /** Byte `k` of a word, least significant first. */
  function WordByte(w: nat, k: nat): Byte {
    if k == 0 then w % 0x100
    else if k == 1 then w / 0x100 % 0x100
    else if k == 2 then w / 0x1_0000 % 0x100
    else w / 0x100_0000 % 0x100
  }

  lemma WordHasBytes(w: nat)
    requires w < 0x1_0000_0000
    ensures w == WordByte(w, 0) + 0x100 * WordByte(w, 1) + 0x1_0000 * WordByte(w, 2) + 0x100_0000 * WordByte(w, 3)
  {
    assert w / 0x100 / 0x100 == w / 0x1_0000 && w / 0x1_0000 / 0x100 == w / 0x100_0000;
  }

  /** A 32-bit word is read from its four bytes, the least significant one first. */
  lemma WordReads(img: Image, a: nat, w: nat)
    requires a + 4 <= |img| && w < 0x1_0000_0000
    requires img[a] == WordByte(w, 0) && img[a + 1] == WordByte(w, 1)
    requires img[a + 2] == WordByte(w, 2) && img[a + 3] == WordByte(w, 3)
    ensures Word32(img, a) == w
  {
    WordHasBytes(w);
  }

  lemma LowByte(b: Byte, rest: nat)
    ensures (b + 0x100 * rest) % 0x100 == b && (b + 0x100 * rest) / 0x100 == rest
  {
  }

  /** The bytes of a word that is read are the four bytes in the image. */
  lemma WordIsBytes(img: Image, a: nat)
    requires a + 4 <= |img|
    ensures var w := Word32(img, a);
      && img[a] == WordByte(w, 0) && img[a + 1] == WordByte(w, 1)
      && img[a + 2] == WordByte(w, 2) && img[a + 3] == WordByte(w, 3)
  {
    var w: nat, b0, b1, b2, b3 := Word32(img, a), img[a], img[a + 1], img[a + 2], img[a + 3];
    var w1: nat, w2: nat := b1 + 0x100 * (b2 + 0x100 * b3), b2 + 0x100 * b3;
    LowByte(b0, w1);
    LowByte(b1, w2);
    LowByte(b2, b3);
    assert w == b0 + 0x100 * w1 && w1 == b1 + 0x100 * w2;
    assert w / 0x1_0000 == w / 0x100 / 0x100 && w / 0x100_0000 == w / 0x100 / 0x100 / 0x100;
  }

  // ---------------------------------------------------------------- the layout

  /** The number of the first data block of file `k`; those of the files follow one another. */
  function First(files: seq<Stored>, k: nat): (n: nat)
    requires k <= |files|
  {
    if k == 0 then 0 else First(files, k - 1) + (|files[k - 1].data| + 4095) / 4096
  }

  /** The file from `k` on that data block `n` belongs to. */
  function Owner(files: seq<Stored>, k: nat, n: nat): (i: nat)
    requires k <= |files|
    ensures k <= i <= |files|
    decreases |files| - k
  {
    if k == |files| || n < First(files, k + 1) then k else Owner(files, k + 1, n)
  }

  function ByteOr0(s: seq<Byte>, i: nat): Byte {
    if i < |s| then s[i] else 0
  }

  function EntryByte(f: Stored, k: nat, r: nat): Byte {
    if r < 32 then ByteOr0(f.name, r)
    else if r < 36 then WordByte(2, r - 32)
    else if r < 40 then WordByte(k, r - 36)
    else 0
  }

  function BootByte(files: seq<Stored>, r: nat): Byte {
    if r < 4 then WordByte(|files|, r)
    else if r < 8 then WordByte(|files|, r - 4)
    else if r < 12 then WordByte(First(files, |files|), r - 8)
    else if 64 <= r < 64 + 64 * |files| then EntryByte(files[(r - 64) / 64], (r - 64) / 64, (r - 64) % 64)
    else 0
  }

  function InodeByte(files: seq<Stored>, k: nat, r: nat): Byte
    requires k < |files|
  {
    if r < 4 then WordByte(|files[k].data|, r) else WordByte(First(files, k) + (r / 4 - 1), r % 4)
  }

  function DataByte(files: seq<Stored>, n: nat, r: nat): Byte {
    var k := Owner(files, 0, n);
    if k < |files| && First(files, k) <= n then ByteOr0(files[k].data, 4096 * (n - First(files, k)) + r) else 0
  }

  function ImageByte(files: seq<Stored>, block: nat, r: nat): Byte {
    if block == 0 then BootByte(files, r)
    else if block <= |files| then InodeByte(files, block - 1, r)
    else DataByte(files, block - 1 - |files|, r)
  }

  /** The first `n` blocks of the image. */
  function ImageBlocks(files: seq<Stored>, n: nat): (img: Image)
    ensures |img| == 4096 * n
  {
    if n == 0 then []
    else ImageBlocks(files, n - 1) + seq(4096, r requires 0 <= r < 4096 => ImageByte(files, n - 1, r))
  }

  function ImageOf(files: seq<Stored>): (img: Image)
    ensures |img| == 4096 * (1 + |files| + First(files, |files|))
  {
    ImageBlocks(files, 1 + |files| + First(files, |files|))
  }

  lemma {:induction false} ImageBlocksAt(files: seq<Stored>, n: nat, block: nat, r: nat)
    requires block < n && r < 4096
    ensures ImageBlocks(files, n)[4096 * block + r] == ImageByte(files, block, r)
    decreases n
  {
    if block + 1 < n {
      ImageBlocksAt(files, n - 1, block, r);
    }
  }

  lemma ImageAt(files: seq<Stored>, block: nat, r: nat)
    requires block < 1 + |files| + First(files, |files|) && r < 4096
    ensures 4096 * block + r < |ImageOf(files)|
    ensures ImageOf(files)[4096 * block + r] == ImageByte(files, block, r)
  {
    ImageBlocksAt(files, 1 + |files| + First(files, |files|), block, r);
  }

  lemma {:induction false} FirstGrows(files: seq<Stored>, j: nat, k: nat)
    requires j <= k <= |files|
    ensures First(files, j) <= First(files, k)
    decreases k
  {
    if j < k {
      FirstGrows(files, j, k - 1);
    }
  }

  lemma {:induction false} FirstBound(files: seq<Stored>, k: nat)
    requires Storable(files) && k <= |files|
    ensures First(files, k) <= 1023 * k
    decreases k
  {
    if k > 0 {
      FirstBound(files, k - 1);
      assert |files[k - 1].data| <= 1023 * 4096;
    }
  }

  lemma {:induction false} OwnerIs(files: seq<Stored>, from: nat, k: nat, n: nat)
    requires from <= k < |files| && First(files, k) <= n < First(files, k + 1)
    ensures Owner(files, from, n) == k
    decreases k - from
  {
    if from < k {
      FirstGrows(files, from + 1, k);
      OwnerIs(files, from + 1, k, n);
    }
  }

  // ---------------------------------------------------------------- reading it back

  lemma BootReads(files: seq<Stored>)
    requires Storable(files)
    ensures var img := ImageOf(files);
      |img| >= 4096 && DirEntries(img) == NumInodes(img) == |files| && Word32(img, 8) == First(files, |files|)
  {
    var img, n := ImageOf(files), |files|;
    FirstBound(files, n);
    forall r | 0 <= r < 12 ensures img[r] == BootByte(files, r) {
      ImageAt(files, 0, r);
    }
    WordReads(img, 0, n);
    WordReads(img, 4, n);
    WordReads(img, 8, First(files, n));
  }

  lemma ImageHeader(files: seq<Stored>)
    requires Storable(files)
    ensures Header(ImageOf(files)) && Blocks(ImageOf(files)) == 1 + |files| + First(files, |files|)
  {
    BootReads(files);
  }

  lemma EntryAt(files: seq<Stored>, k: nat, r: nat)
    requires Storable(files) && k < |files| && r < 64
    ensures EntryAddress(k) + r < |ImageOf(files)|
    ensures ImageOf(files)[EntryAddress(k) + r] == EntryByte(files[k], k, r)
  {
    ImageAt(files, 0, 64 + 64 * k + r);
    assert (64 * k + r) / 64 == k && (64 * k + r) % 64 == r;
  }

  lemma InodeReads(files: seq<Stored>, k: nat)
    requires Storable(files) && k < |files|
    ensures Header(ImageOf(files)) && DirEntries(ImageOf(files)) == |files| && InodeOf(ImageOf(files), k) == k
  {
    var img, a := ImageOf(files), EntryAddress(k) + 36;
    BootReads(files);
    EntryAt(files, k, 40);
    EntryAt(files, k, 36);
    EntryAt(files, k, 37);
    EntryAt(files, k, 38);
    EntryAt(files, k, 39);
    WordReads(img, a, k);
  }

  lemma {:induction false} UpToNulIs(s: seq<Byte>, t: seq<Byte>)
    requires t <= s && NUL !in t && (|t| < |s| ==> s[|t|] == NUL)
    ensures UpToNul(s) == t
  {
    if t != [] {
      assert t[0] in t;
      UpToNulIs(s[1..], t[1..]);
    }
  }

  lemma FieldIs(field: seq<Byte>, name: seq<Byte>)
    requires |name| <= |field| && NUL !in name
    requires forall r :: 0 <= r < |field| ==> field[r] == ByteOr0(name, r)
    ensures UpToNul(field) == name
  {
    UpToNulIs(field, name);
  }

  lemma NameReads(files: seq<Stored>, k: nat)
    requires Storable(files) && k < |files|
    ensures EntryAddress(k) + 32 <= |ImageOf(files)| && EntryName(ImageOf(files), k) == files[k].name
  {
    var img, a := ImageOf(files), EntryAddress(k);
    EntryAt(files, k, 32);
    var field := img[a..a + 32];
    forall r | 0 <= r < 32 ensures field[r] == ByteOr0(files[k].name, r) {
      EntryAt(files, k, r);
    }
    FieldIs(field, files[k].name);
  }

  lemma InodeByteReads(files: seq<Stored>, k: nat, r: nat)
    requires Storable(files) && k < |files| && r < 4096
    requires Header(ImageOf(files)) && 1 + k < Blocks(ImageOf(files))
    ensures InodeBlock(ImageOf(files), k)[r] == InodeByte(files, k, r)
  {
    ImageHeader(files);
    ImageAt(files, 1 + k, r);
  }

  lemma LengthReads(files: seq<Stored>, k: nat)
    requires Storable(files) && k < |files|
    requires Header(ImageOf(files)) && 1 + k < Blocks(ImageOf(files))
    ensures Length(ImageOf(files), k) == |files[k].data|
  {
    var b := InodeBlock(ImageOf(files), k);
    InodeByteReads(files, k, 0);
    InodeByteReads(files, k, 1);
    InodeByteReads(files, k, 2);
    InodeByteReads(files, k, 3);
    WordReads(b, 0, |files[k].data|);
  }

  lemma NumberReads(files: seq<Stored>, k: nat, j: nat)
    requires Storable(files) && k < |files| && j < 1023
    requires Header(ImageOf(files)) && 1 + k < Blocks(ImageOf(files))
    ensures DataNumber(ImageOf(files), k, j) == First(files, k) + j
  {
    FirstBound(files, k);
    NumberByte(files, k, j, 0);
    NumberByte(files, k, j, 1);
    NumberByte(files, k, j, 2);
    NumberByte(files, k, j, 3);
    WordReads(InodeBlock(ImageOf(files), k), 4 * (j + 1), First(files, k) + j);
  }

  lemma NumberByte(files: seq<Stored>, k: nat, j: nat, q: nat)
    requires Storable(files) && k < |files| && j < 1023 && q < 4
    requires Header(ImageOf(files)) && 1 + k < Blocks(ImageOf(files))
    ensures InodeBlock(ImageOf(files), k)[4 * (j + 1) + q] == WordByte(First(files, k) + j, q)
  {
    var r := 4 * (j + 1) + q;
    InodeByteReads(files, k, r);
    assert r / 4 == j + 1 && r % 4 == q;
  }

  lemma InodeIsGood(files: seq<Stored>, k: nat)
    requires Storable(files) && k < |files|
    ensures Header(ImageOf(files)) && GoodInode(ImageOf(files), k) && Length(ImageOf(files), k) == |files[k].data|
  {
    var img, n := ImageOf(files), BlocksFor(|files[k].data|);
    ImageHeader(files);
    BootReads(files);
    FirstGrows(files, k + 1, |files|);
    LengthReads(files, k);
    forall j | 0 <= j < n ensures 1 + NumInodes(img) + DataNumber(img, k, j) < Blocks(img) {
      NumberReads(files, k, j);
    }
  }

  /** The data block that byte `i` of file `k` is in belongs to that file. */
  lemma BlockOwner(files: seq<Stored>, k: nat, i: nat)
    requires Storable(files) && k < |files| && i < |files[k].data|
    ensures var n := First(files, k) + i / 4096; n < First(files, |files|) && Owner(files, 0, n) == k
    ensures i == 4096 * (i / 4096) + i % 4096
  {
    FirstGrows(files, k + 1, |files|);
    BlockOfByte(i, |files[k].data|);
    OwnerIs(files, 0, k, First(files, k) + i / 4096);
  }

  /** Byte `i` of file `k`, in the data block that holds it. */
  lemma DataReads(files: seq<Stored>, k: nat, i: nat)
    requires Storable(files) && k < |files| && i < |files[k].data|
    ensures Header(ImageOf(files))
    ensures var img, n := ImageOf(files), First(files, k) + i / 4096;
      1 + NumInodes(img) + n < Blocks(img) && DataBlock(img, n)[i % 4096] == files[k].data[i]
  {
    ImageHeader(files);
    BootReads(files);
    BlockOwner(files, k, i);
    ImageAt(files, 1 + |files| + First(files, k) + i / 4096, i % 4096);
  }

  lemma ContentsRead(files: seq<Stored>, k: nat)
    requires Storable(files) && k < |files|
    ensures Header(ImageOf(files)) && GoodInode(ImageOf(files), k)
    ensures Contents(ImageOf(files), k) == files[k].data
  {
    var img, data := ImageOf(files), files[k].data;
    InodeIsGood(files, k);
    forall i | 0 <= i < |data| ensures Contents(img, k)[i] == data[i] {
      ContentsByte(files, k, i);
    }
  }

  lemma ContentsByte(files: seq<Stored>, k: nat, i: nat)
    requires Storable(files) && k < |files| && i < |files[k].data|
    requires Header(ImageOf(files)) && GoodInode(ImageOf(files), k)
    requires Length(ImageOf(files), k) == |files[k].data|
    ensures Contents(ImageOf(files), k)[i] == files[k].data[i]
  {
    ByteInBlock(ImageOf(files), k, i);
    NumberReads(files, k, i / BLOCK);
    DataReads(files, k, i);
  }

  /** The image is well-formed, and its directory and its files are those stored in it. */
  lemma ImageHoldsFiles(files: seq<Stored>)
    requires Storable(files)
    ensures var img := ImageOf(files);
      && WellFormed(img) && DirEntries(img) == |files|
      && forall k :: 0 <= k < |files| ==> EntryName(img, k) == files[k].name && File(img, k) == files[k].data
  {
    ImageHeader(files);
    BootReads(files);
    forall k | 0 <= k < |files|
      ensures var img := ImageOf(files);
        InodeOf(img, k) == k && GoodInode(img, k) && EntryName(img, k) == files[k].name
        && Contents(img, k) == files[k].data
    {
      InodeReads(files, k);
      NameReads(files, k);
      ContentsRead(files, k);
    }
  }

  /** Opening a stored file by its name and reading it gives its data, unless an earlier name begins with that name. */
  lemma StoredFileIsRead(files: seq<Stored>, k: nat, nbytes: nat)
    requires Storable(files) && k < |files|
    requires forall j :: 0 <= j < k ==> !(files[k].name <= files[j].name)
    ensures var img, data := ImageOf(files), files[k].data;
      && WellFormed(img) && k < DirEntries(img) && Found(img, files[k].name, 0) == k
      && Chunk(File(img, k), 0, nbytes) == if nbytes < |data| then data[..nbytes] else data
  {
    var img, name := ImageOf(files), files[k].name;
    ImageHoldsFiles(files);
    forall j | 0 <= j <= k ensures NameAt(img, j, name) <==> name <= files[j].name {
      NameAtIsPrefix(img, j, name);
    }
    FoundIs(img, name, 0, k);
  }
}
