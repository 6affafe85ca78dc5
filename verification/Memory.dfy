/**
 * The word-wise memory primitives of student-distrib/lib.c, over a byte-addressed memory. An index
 * of `mem` is an address, so alignment is the index modulo 4.
 */
module Memory {
  import opened Bytes

  /** `n` bytes at `at` replaced. */
  function Splice(mem: seq<Byte>, at: nat, data: seq<Byte>): (r: seq<Byte>)
    requires at + |data| <= |mem|
    ensures |r| == |mem|
    ensures forall i {:trigger r[i]} :: 0 <= i < |mem| ==>
      r[i] == if at <= i < at + |data| then data[i - at] else mem[i]
  {
    mem[..at] + data + mem[at + |data|..]
  }

  function Fill(c: Byte, n: nat): (s: seq<Byte>)
    ensures |s| == n && forall i :: 0 <= i < n ==> s[i] == c
  {
    seq(n, _ => c)
  }

  /** Byte `k` of a register, least significant first. */
  function ByteOf(word: nat, k: nat): Byte
    decreases k
  {
    if k == 0 then word % 0x100 else ByteOf(word / 0x100, k - 1)
  }

  /** The byte `c` in all four bytes of a register. */
  function Replicate(c: Byte): (word: nat)
    ensures forall k: nat :: k < 4 ==> ByteOf(word, k) == c
  {
    var low := c as nat;
    var word2 := 0x100 * low + low;
    var word3 := 0x100 * word2 + low;
    var word := 0x100 * word3 + low;
    assert ByteOf(word, 0) == c && word / 0x100 == word3;
    assert word3 / 0x100 == word2 && word2 / 0x100 == low;
    assert ByteOf(word2, 1) == ByteOf(low, 0) == c;
    assert ByteOf(word3, 1) == ByteOf(word2, 0) == c && ByteOf(word3, 2) == ByteOf(word2, 1);
    assert ByteOf(word, 1) == ByteOf(word3, 0) && ByteOf(word, 2) == ByteOf(word3, 1);
    assert ByteOf(word, 3) == ByteOf(word3, 2);
    word
  }

  /** One `stosl`. */
  method StoreWord(mem: array<Byte>, at: nat, word: nat)
    requires at + 4 <= mem.Length
    modifies mem
    ensures forall i :: 0 <= i < mem.Length ==>
      mem[i] == if at <= i < at + 4 then ByteOf(word, i - at) else old(mem[i])
  {
    for k := 0 to 4
      invariant forall i :: 0 <= i < mem.Length ==>
        mem[i] == if at <= i < at + k then ByteOf(word, i - at) else old(mem[i])
    {
      mem[at + k] := ByteOf(word, k);
    }
  }

  /** `memset`: bytes up to a word boundary, then words, then the remaining bytes. */
  method Memset(mem: array<Byte>, s: nat, c: int, n: nat)
    requires s + n <= mem.Length
    modifies mem
    ensures mem[..] == Splice(old(mem[..]), s, Fill(c % 0x100, n))
  {
    var al: Byte := c % 0x100;
    var eax := Replicate(al);
    var edi: nat, ecx: nat := s, n;
    while ecx != 0 && edi % 4 != 0
      invariant edi + ecx == s + n && s <= edi
      invariant forall i :: 0 <= i < mem.Length ==> mem[i] == if s <= i < edi then al else old(mem[i])
      decreases ecx
    {
      mem[edi] := al;
      edi, ecx := edi + 1, ecx - 1;
    }
    var edx: nat := ecx % 4;
    ecx := ecx / 4;
    while ecx != 0
      invariant edi + 4 * ecx + edx == s + n && s <= edi
      invariant forall i :: 0 <= i < mem.Length ==> mem[i] == if s <= i < edi then al else old(mem[i])
      decreases ecx
    {
      StoreWord(mem, edi, eax);
      edi, ecx := edi + 4, ecx - 1;
    }
    while edx != 0
      invariant edi + edx == s + n && s <= edi
      invariant forall i :: 0 <= i < mem.Length ==> mem[i] == if s <= i < edi then al else old(mem[i])
      decreases edx
    {
      mem[edi] := al;
      edi, edx := edi + 1, edx - 1;
    }
  }

  /** `after` is `mem` with `n` bytes at `src` copied, all at once, to `dest`. */
  ghost predicate Moved(mem: seq<Byte>, after: seq<Byte>, dest: nat, src: nat, n: nat)
    requires dest + n <= |mem| && src + n <= |mem|
  {
    && |after| == |mem|
    && forall i {:trigger after[i]} :: 0 <= i < |mem| ==>
      after[i] == if dest <= i < dest + n then mem[src + (i - dest)] else mem[i]
  }

  lemma MovedIsSplice(mem: seq<Byte>, after: seq<Byte>, dest: nat, src: nat, n: nat)
    requires dest + n <= |mem| && src + n <= |mem| && Moved(mem, after, dest, src, n)
    ensures after == Splice(mem, dest, mem[src..src + n])
  {
  }

  /** Copying upwards stays ahead of its own stores when the destination is below the source or clear of it. */
  lemma MovedByte(mem: seq<Byte>, now: seq<Byte>, dest: nat, src: nat, n: nat)
    requires dest + n < |mem| && src + n < |mem| && (dest <= src || src + n < dest)
    requires Moved(mem, now, dest, src, n)
    ensures Moved(mem, now[dest + n := now[src + n]], dest, src, n + 1)
  {
  }

  lemma MovedWord(mem: seq<Byte>, now: seq<Byte>, dest: nat, src: nat, n: nat)
    requires dest + n + 4 <= |mem| && src + n + 4 <= |mem| && (dest <= src || src + n + 4 <= dest)
    requires Moved(mem, now, dest, src, n)
    ensures Moved(mem, Splice(now, dest + n, now[src + n..src + n + 4]), dest, src, n + 4)
  {
  }

  /** Copying downwards stays clear of what is still to be read when the source is below the destination. */
  lemma MovedBelow(mem: seq<Byte>, now: seq<Byte>, dest: nat, src: nat, n: nat)
    requires dest + 1 + n <= |mem| && src < dest
    requires Moved(mem, now, dest + 1, src + 1, n)
    ensures Moved(mem, now[dest := now[src]], dest, src, n + 1)
  {
  }

  /** A `movsb`. */
  method MoveByte(mem: array<Byte>, dest: nat, src: nat)
    requires dest < mem.Length && src < mem.Length
    modifies mem
    ensures mem[..] == old(mem[..])[dest := old(mem[..])[src]]
  {
    mem[dest] := mem[src];
  }

  lemma FourStores(mem: seq<Byte>, dest: nat, b: seq<Byte>)
    requires dest + 4 <= |mem| && |b| == 4
    ensures mem[dest := b[0]][dest + 1 := b[1]][dest + 2 := b[2]][dest + 3 := b[3]] == Splice(mem, dest, b)
  {
  }

  /** A `movsl` with the direction flag clear: the whole word is read before it is stored. */
  method MoveWord(mem: array<Byte>, dest: nat, src: nat)
    requires dest + 4 <= mem.Length && src + 4 <= mem.Length
    modifies mem
    ensures mem[..] == Splice(old(mem[..]), dest, old(mem[..])[src..src + 4])
  {
    var b0, b1, b2, b3 := mem[src], mem[src + 1], mem[src + 2], mem[src + 3];
    mem[dest] := b0;
    mem[dest + 1] := b1;
    mem[dest + 2] := b2;
    mem[dest + 3] := b3;
    FourStores(old(mem[..]), dest, [b0, b1, b2, b3]);
    assert old(mem[..])[src..src + 4] == [b0, b1, b2, b3];
  }

  /** The next byte of an upward copy of which `done` bytes are done. */
  method ByteUp(mem: array<Byte>, ghost before: seq<Byte>, dest: nat, src: nat, done: nat)
    requires |before| == mem.Length && dest + done <= mem.Length && src + done <= mem.Length
    requires Moved(before, mem[..], dest, src, done)
    requires dest + done < mem.Length && src + done < mem.Length && (dest <= src || src + done < dest)
    modifies mem
    ensures Moved(before, mem[..], dest, src, done + 1)
  {
    MovedByte(before, mem[..], dest, src, done);
    MoveByte(mem, dest + done, src + done);
  }

  /** The next word of an upward copy of which `done` bytes are done. */
  method WordUp(mem: array<Byte>, ghost before: seq<Byte>, dest: nat, src: nat, done: nat)
    requires |before| == mem.Length && dest + done <= mem.Length && src + done <= mem.Length
    requires Moved(before, mem[..], dest, src, done)
    requires dest + done + 4 <= mem.Length && src + done + 4 <= mem.Length && (dest <= src || src + done + 4 <= dest)
    modifies mem
    ensures Moved(before, mem[..], dest, src, done + 4)
  {
    MovedWord(before, mem[..], dest, src, done);
    MoveWord(mem, dest + done, src + done);
  }

  /** The next byte of a downward copy of which the last `done` bytes are done. */
  method ByteDown(mem: array<Byte>, ghost before: seq<Byte>, dest: nat, src: nat, ghost done: nat)
    requires |before| == mem.Length && dest + 1 + done <= mem.Length && src < dest
    requires Moved(before, mem[..], dest + 1, src + 1, done)
    modifies mem
    ensures Moved(before, mem[..], dest, src, done + 1)
  {
    MovedBelow(before, mem[..], dest, src, done);
    MoveByte(mem, dest, src);
  }

  /** `memcpy`, for regions that do not overlap or with the destination below the source. */
  method Memcpy(mem: array<Byte>, dest: nat, src: nat, n: nat)
    requires dest + n <= mem.Length && src + n <= mem.Length
    requires dest <= src || src + n <= dest
    modifies mem
    ensures mem[..] == Splice(old(mem[..]), dest, old(mem[..])[src..src + n])
  {
    ghost var before := mem[..];
    var done := CopyHead(mem, dest, src, n);
    CopyAligned(mem, before, dest, src, done, n);
    MovedIsSplice(before, mem[..], dest, src, n);
  }

  /** `.memcpy_top`: bytes up to a word boundary of the destination; `done` of them. */
  method CopyHead(mem: array<Byte>, dest: nat, src: nat, n: nat) returns (done: nat)
    requires dest + n <= mem.Length && src + n <= mem.Length
    requires dest <= src || src + n <= dest
    modifies mem
    ensures done <= n
    ensures Moved(old(mem[..]), mem[..], dest, src, done)
  {
    var edi: nat, ecx: nat := dest, n;
    done := 0;
    ghost var before := mem[..];
    while ecx != 0 && edi % 4 != 0
      invariant done + ecx == n && edi == dest + done
      invariant Moved(before, mem[..], dest, src, done)
      decreases ecx
    {
      ByteUp(mem, before, dest, src, done);
      done, edi, ecx := done + 1, edi + 1, ecx - 1;
    }
  }

  /** `.memcpy_aligned` and `.memcpy_bottom`: words, then the remaining bytes, after the first `head`. */
  method CopyAligned(mem: array<Byte>, ghost before: seq<Byte>, dest: nat, src: nat, head: nat, n: nat)
    requires head <= n && dest + n <= mem.Length && src + n <= mem.Length && (dest <= src || src + n <= dest)
    requires |before| == mem.Length && Moved(before, mem[..], dest, src, head)
    modifies mem
    ensures Moved(before, mem[..], dest, src, n)
  {
    var done: nat, ecx: nat, edx: nat := head, (n - head) / 4, (n - head) % 4;
    while ecx != 0
      invariant done + 4 * ecx + edx == n && Moved(before, mem[..], dest, src, done)
      decreases ecx
    {
      WordUp(mem, before, dest, src, done);
      done, ecx := done + 4, ecx - 1;
    }
    while edx != 0
      invariant done + edx == n && Moved(before, mem[..], dest, src, done)
      decreases edx
    {
      ByteUp(mem, before, dest, src, done);
      done, edx := done + 1, edx - 1;
    }
  }

  /** `memmove`: upwards, or downwards from the last byte when the source is below the destination. */
  method Memmove(mem: array<Byte>, dest: nat, src: nat, n: nat)
    requires dest + n <= mem.Length && src + n <= mem.Length
    modifies mem
    ensures mem[..] == Splice(old(mem[..]), dest, old(mem[..])[src..src + n])
  {
    if src >= dest {
      MoveUp(mem, dest, src, n);
    } else {
      MoveDown(mem, dest, src, n);
    }
    MovedIsSplice(old(mem[..]), mem[..], dest, src, n);
  }

  /** `rep movsb` with the direction flag clear. */
  method MoveUp(mem: array<Byte>, dest: nat, src: nat, n: nat)
    requires dest + n <= mem.Length && src + n <= mem.Length && dest <= src
    modifies mem
    ensures Moved(old(mem[..]), mem[..], dest, src, n)
  {
    var done: nat, ecx: nat := 0, n;
    ghost var before := mem[..];
    while ecx != 0
      invariant done + ecx == n && Moved(before, mem[..], dest, src, done)
      decreases ecx
    {
      ByteUp(mem, before, dest, src, done);
      done, ecx := done + 1, ecx - 1;
    }
  }

  /** `rep movsb` with the direction flag set, from the last byte. */
  method MoveDown(mem: array<Byte>, dest: nat, src: nat, n: nat)
    requires dest + n <= mem.Length && src + n <= mem.Length && src < dest
    modifies mem
    ensures Moved(old(mem[..]), mem[..], dest, src, n)
  {
    var esi: int, edi: int, ecx: int := src + n as int - 1, dest + n as int - 1, n;
    ghost var before := mem[..];
    while ecx != 0
      invariant 0 <= ecx <= n && edi + 1 == dest + ecx && esi + 1 == src + ecx
      invariant Moved(before, mem[..], edi + 1, esi + 1, n - ecx)
      decreases ecx
    {
      ByteDown(mem, before, edi, esi, n - ecx);
      esi, edi, ecx := esi - 1, edi - 1, ecx - 1;
    }
  }
}
