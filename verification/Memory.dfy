/** The unsigned byte. */
module Bytes {
  type byte = x: int | 0 <= x < 256
}

/**
 memcpy and memset of system/string.c. Memory is an array of bytes and an address
 is an index into it, so that overlap and alignment are as in the source.
 */
module Memory {
  import opened Bytes

  /** The byte loop: bytes are copied one at a time in increasing order, each as it
      is found. */
  function ByteCopy(m: seq<byte>, dst: nat, src: nat, length: nat): (r: seq<byte>)
    requires dst + length <= |m| && src + length <= |m|
    ensures |r| == |m|
  {
    if length == 0 then m
    else
      var r := ByteCopy(m, dst, src, length - 1);
      r[dst + length - 1 := r[src + length - 1]]
  }

  /** Where the byte at `a` should come from. */
  function Origin(a: nat, dst: nat, src: nat, length: nat): nat {
    if dst <= a < dst + length then src + (a - dst) else a
  }

  /** Each byte of the destination is the original byte of the source, and nothing
      else changes. */
  ghost predicate IsMoved(m: seq<byte>, r: seq<byte>, dst: nat, src: nat, length: nat)
    requires dst + length <= |m| && src + length <= |m|
  {
    && |r| == |m|
    && forall a :: 0 <= a < |m| ==> r[a] == m[Origin(a, dst, src, length)]
  }

  /** Copying forwards moves the original bytes when the destination does not start
      inside the source. */
  lemma {:induction false} ForwardCopyMoves(m: seq<byte>, dst: nat, src: nat, length: nat)
    requires dst + length <= |m| && src + length <= |m|
    requires dst <= src || src + length <= dst
    ensures IsMoved(m, ByteCopy(m, dst, src, length), dst, src, length)
    decreases length
  {
    if length > 0 {
      ForwardCopyMoves(m, dst, src, length - 1);
    }
  }

  /** When it does start inside, the byte at the first overlapped address has already
      been overwritten by the first byte of the source. */
  lemma {:induction false} ForwardCopyRepeats(m: seq<byte>, dst: nat, src: nat, length: nat)
    requires dst + length <= |m| && src + length <= |m|
    requires src < dst < src + length
    ensures ByteCopy(m, dst, src, length)[dst + (dst - src)] == m[src]
    decreases length
  {
    var k := dst - src;
    if length > k + 1 {
      ForwardCopyRepeats(m, dst, src, length - 1);
    } else {
      FirstByte(m, dst, src, k);
    }
  }

  /** From `dst` on every byte is that `d` places before it, and nothing else has
      changed. */
  ghost predicate IsRepeated(m: seq<byte>, r: seq<byte>, dst: nat, d: nat, length: nat) {
    && |r| == |m| && dst + length <= |m| && d <= dst
    && (forall a :: dst <= a < dst + length ==> r[a] == r[a - d])
    && (forall a :: 0 <= a < |m| && !(dst <= a < dst + length) ==> r[a] == m[a])
  }

  /** What a copy to `d` places further up leaves: the bytes before the destination
      repeat through it. */
  lemma {:induction false} OverlapRepeats(m: seq<byte>, dst: nat, src: nat, d: nat, length: nat)
    requires dst + length <= |m| && dst == src + d && 0 < d
    ensures IsRepeated(m, ByteCopy(m, dst, src, length), dst, d, length)
    decreases length
  {
    if length > 0 {
      OverlapRepeats(m, dst, src, d, length - 1);
      OneMoreRepeats(m, ByteCopy(m, dst, src, length - 1), dst, d, length);
    }
  }

  lemma OneMoreRepeats(m: seq<byte>, r: seq<byte>, dst: nat, d: nat, length: nat)
    requires 0 < length && 0 < d && dst + length <= |m| && IsRepeated(m, r, dst, d, length - 1)
    ensures IsRepeated(m, r[dst + length - 1 := r[dst + length - 1 - d]], dst, d, length)
  {
    var last := dst + length - 1;
    var r' := r[last := r[last - d]];
    forall a | dst <= a < dst + length ensures r'[a] == r'[a - d] {
      assert a < last ==> r[a] == r[a - d];
    }
  }

  lemma {:induction false} FirstByte(m: seq<byte>, dst: nat, src: nat, length: nat)
    requires dst + length <= |m| && src + length <= |m|
    requires src < dst && 1 <= length
    ensures ByteCopy(m, dst, src, length)[dst] == m[src]
    decreases length
  {
    if length > 1 {
      FirstByte(m, dst, src, length - 1);
    } else {
      assert ByteCopy(m, dst, src, 0) == m;
    }
  }

  /** So the copy moves every memory correctly if and only if the destination does not
      start inside the source. */
  lemma CopyMovesIff(dst: nat, src: nat, length: nat, size: nat)
    requires dst + length <= size && src + length <= size
    ensures (forall m :: CopyMoves(m, dst, src, length, size)) <==> !(src < dst < src + length)
  {
    if src < dst < src + length {
      CopyCanRepeat(dst, src, length, size);
    } else {
      forall m ensures CopyMoves(m, dst, src, length, size) {
        if |m| == size {
          ForwardCopyMoves(m, dst, src, length);
        }
      }
    }
  }

  ghost predicate CopyMoves(m: seq<byte>, dst: nat, src: nat, length: nat, size: nat)
    requires dst + length <= size && src + length <= size
  {
    |m| == size ==> IsMoved(m, ByteCopy(m, dst, src, length), dst, src, length)
  }

  lemma CopyCanRepeat(dst: nat, src: nat, length: nat, size: nat)
    requires dst + length <= size && src < dst < src + length
    ensures exists m :: !CopyMoves(m, dst, src, length, size)
  {
    var m: seq<byte> := seq(size, a => if a == src then 1 else 0);
    var r, a := ByteCopy(m, dst, src, length), dst + (dst - src);
    ForwardCopyRepeats(m, dst, src, length);
    assert r[a] == 1 && m[Origin(a, dst, src, length)] == 0;
    assert !CopyMoves(m, dst, src, length, size);
  }

  // ----- strides

  lemma {:induction false} CopyInTwo(m: seq<byte>, dst: nat, src: nat, a: nat, b: nat)
    requires dst + a + b <= |m| && src + a + b <= |m|
    ensures ByteCopy(m, dst, src, a + b) == ByteCopy(ByteCopy(m, dst, src, a), dst + a, src + a, b)
    decreases b
  {
    if b > 0 {
      CopyInTwo(m, dst, src, a, b - 1);
    }
  }

  /** A word of `w` bytes read whole and then written whole. */
  function WordCopy(m: seq<byte>, dst: nat, src: nat, w: nat): (r: seq<byte>)
    requires dst + w <= |m| && src + w <= |m|
    ensures |r| == |m|
  {
    m[..dst] + m[src..src + w] + m[dst + w..]
  }

  /** Copying whole words is copying bytes when the addresses are a multiple of the
      word apart, which both being aligned ensures. */
  lemma WordIsBytes(m: seq<byte>, dst: nat, src: nat, done: nat, w: nat)
    requires (w == 4 || w == 8) && dst + done + w <= |m| && src + done + w <= |m|
    requires (dst + done) % w == 0 && (src + done) % w == 0
    ensures WordCopy(ByteCopy(m, dst, src, done), dst + done, src + done, w) == ByteCopy(m, dst, src, done + w)
  {
    var m1, d, s := ByteCopy(m, dst, src, done), dst + done, src + done;
    CopyInTwo(m, dst, src, done, w);
    AlignedApart(d, s, w);
    ForwardCopyMoves(m1, d, s, w);
    MovedIsWordCopy(m1, ByteCopy(m1, d, s, w), d, s, w);
  }

  lemma MovedIsWordCopy(m: seq<byte>, r: seq<byte>, dst: nat, src: nat, w: nat)
    requires dst + w <= |m| && src + w <= |m| && IsMoved(m, r, dst, src, w)
    ensures r == WordCopy(m, dst, src, w)
  {
  }

  lemma AlignedApart(a: nat, b: nat, w: nat)
    requires (w == 4 || w == 8) && a % w == 0 && b % w == 0
    ensures a <= b || b + w <= a
  {
  }

  /** Copying the last byte again changes nothing. */
  lemma RecopyLastByte(m: seq<byte>, dst: nat, src: nat, n: nat)
    requires 1 <= n && dst + n <= |m| && src + n <= |m|
    ensures var r := ByteCopy(m, dst, src, n);
            r[dst + n - 1 := r[src + n - 1]] == r
  {
  }

  /** memcpy, with its 64-bit, 32-bit and byte strides, is the byte loop: for every
      length, alignment and overlap. */
  method MemCpy(memory: array<byte>, dst: nat, src: nat, length: nat)
    requires dst + length <= memory.Length && src + length <= memory.Length
    modifies memory
    ensures memory[..] == ByteCopy(old(memory[..]), dst, src, length)
  {
    ghost var m := memory[..];
    var bytes := 0;
    while bytes < length
      invariant 0 <= bytes <= length
      invariant memory[..] == ByteCopy(m, dst, src, bytes)
    {
      if length - bytes > 7 && (dst + bytes) % 8 == 0 && (src + bytes) % 8 == 0 {
        var i := Copy64(memory, dst, src, length, bytes, m);
        bytes := bytes + i * 8 - 1;
      }
      if length - bytes > 3 && (dst + bytes) % 4 == 0 && (src + bytes) % 4 == 0 {
        var i := Copy32(memory, dst, src, length, bytes, m);
        bytes := bytes + i * 4 - 1;
      } else {
        CopyOne(memory, dst, src, bytes, m);
      }
      bytes := bytes + 1;
    }
  }

  /** One byte, which may be the last one copied already. */
  method CopyOne(memory: array<byte>, dst: nat, src: nat, bytes: nat, ghost m: seq<byte>)
    requires |m| == memory.Length && dst + bytes < memory.Length && src + bytes < memory.Length
    requires memory[..] == ByteCopy(m, dst, src, bytes) || memory[..] == ByteCopy(m, dst, src, bytes + 1)
    modifies memory
    ensures memory[..] == ByteCopy(m, dst, src, bytes + 1)
  {
    RecopyLastByte(m, dst, src, bytes + 1);
    memory[dst + bytes] := memory[src + bytes];
  }

  /** The 64-bit loop: as many whole words as fit. */
  method Copy64(memory: array<byte>, dst: nat, src: nat, length: nat, bytes: nat, ghost m: seq<byte>) returns (i: nat)
    requires bytes + 8 <= length
    requires dst + length <= memory.Length == |m| && src + length <= memory.Length
    requires (dst + bytes) % 8 == 0 && (src + bytes) % 8 == 0
    requires memory[..] == ByteCopy(m, dst, src, bytes)
    modifies memory
    ensures 1 <= i && i * 8 <= length - bytes < i * 8 + 8
    ensures memory[..] == ByteCopy(m, dst, src, bytes + i * 8)
  {
    i := 0;
    var n := bytes;
    while i < (length - bytes) / 8
      invariant 0 <= i <= (length - bytes) / 8 && n == bytes + i * 8
      invariant (dst + n) % 8 == 0 && (src + n) % 8 == 0
      invariant memory[..] == ByteCopy(m, dst, src, n)
    {
      NextAligned(dst + n, 8);
      NextAligned(src + n, 8);
      CopyWord(memory, dst, src, n, 8, m);
      i, n := i + 1, n + 8;
    }
  }

  /** The 32-bit loop: as many whole words as fit. */
  method Copy32(memory: array<byte>, dst: nat, src: nat, length: nat, bytes: nat, ghost m: seq<byte>) returns (i: nat)
    requires bytes + 4 <= length
    requires dst + length <= memory.Length == |m| && src + length <= memory.Length
    requires (dst + bytes) % 4 == 0 && (src + bytes) % 4 == 0
    requires memory[..] == ByteCopy(m, dst, src, bytes)
    modifies memory
    ensures 1 <= i && i * 4 <= length - bytes < i * 4 + 4
    ensures memory[..] == ByteCopy(m, dst, src, bytes + i * 4)
  {
    i := 0;
    var n := bytes;
    while i < (length - bytes) / 4
      invariant 0 <= i <= (length - bytes) / 4 && n == bytes + i * 4
      invariant (dst + n) % 4 == 0 && (src + n) % 4 == 0
      invariant memory[..] == ByteCopy(m, dst, src, n)
    {
      NextAligned(dst + n, 4);
      NextAligned(src + n, 4);
      CopyWord(memory, dst, src, n, 4, m);
      i, n := i + 1, n + 4;
    }
  }

  lemma NextAligned(a: nat, w: nat)
    requires (w == 4 || w == 8) && a % w == 0
    ensures (a + w) % w == 0
  {
  }

  /** One word, read whole and written whole, after `n` bytes. */
  method CopyWord(memory: array<byte>, dst: nat, src: nat, n: nat, w: nat, ghost m: seq<byte>)
    requires dst + n + w <= memory.Length == |m| && src + n + w <= memory.Length
    requires (w == 4 || w == 8) && (dst + n) % w == 0 && (src + n) % w == 0
    requires memory[..] == ByteCopy(m, dst, src, n)
    modifies memory
    ensures memory[..] == ByteCopy(m, dst, src, n + w)
  {
    WordIsBytes(m, dst, src, n, w);
    ghost var before := memory[..];
    var word := memory[src + n..src + n + w];
    forall k | 0 <= k < w {
      memory[dst + n + k] := word[k];
    }
    assert memory[..] == WordCopy(before, dst + n, src + n, w);
  }

  /** The bytes from `dst` on set to one value. */
  function Filled(m: seq<byte>, dst: nat, value: byte, length: nat): (r: seq<byte>)
    requires dst + length <= |m|
    ensures |r| == |m|
    ensures forall a :: 0 <= a < |m| ==> r[a] == if dst <= a < dst + length then value else m[a]
  {
    m[..dst] + seq(length, _ => value) + m[dst + length..]
  }

  method MemSet(memory: array<byte>, dst: nat, value: byte, length: nat)
    requires dst + length <= memory.Length
    modifies memory
    ensures memory[..] == Filled(old(memory[..]), dst, value, length)
  {
    var i := 0;
    while i < length
      invariant 0 <= i <= length
      invariant memory[..] == Filled(old(memory[..]), dst, value, i)
    {
      memory[dst + i] := value;
      i := i + 1;
    }
  }
}
