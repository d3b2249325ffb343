/** SHA-1 of `minilabs/frecov/frecov.c`: the byte-by-byte streaming form against the message digest of
RFC 3174 (padding of section 4, functions and constants of section 5, method 1 of section 6.1).
 */
module Sha1 {
  import Bits

  const ROUNDS: nat := 80

  type Bytes = seq<bv8>

  datatype Hash = Hash(a: bv32, b: bv32, c: bv32, d: bv32, e: bv32)

  // ------------------------------------------------------------------ RFC 3174

  function InitialHash(): Hash {
    Hash(0x67452301, 0xEFCDAB89, 0x98BADCFE, 0x10325476, 0xC3D2E1F0)
  }

  /** The circular left shift, for 0 < n < 32. */
  function Rotate1(x: bv32): bv32 { (x << 1) | (x >> 31) }

  function Rotate5(x: bv32): bv32 { (x << 5) | (x >> 27) }

  function Rotate30(x: bv32): bv32 { (x << 30) | (x >> 2) }

  function Ch(b: bv32, c: bv32, d: bv32): bv32 { (b & c) | (!b & d) }

  function Parity(b: bv32, c: bv32, d: bv32): bv32 { b ^ c ^ d }

  function Maj(b: bv32, c: bv32, d: bv32): bv32 { (b & c) | (b & d) | (c & d) }

  function F(t: nat, b: bv32, c: bv32, d: bv32): bv32 {
    if t < 20 then Ch(b, c, d) else if t < 40 then Parity(b, c, d) else if t < 60 then Maj(b, c, d) else Parity(b, c, d)
  }

  function K(t: nat): bv32 {
    if t < 20 then 0x5A827999 else if t < 40 then 0x6ED9EBA1 else if t < 60 then 0x8F1BBCDC else 0xCA62C1D6
  }

  /** A big-endian word. */
  function Word(b0: bv8, b1: bv8, b2: bv8, b3: bv8): bv32 {
    (b0 as bv32 << 24) | (b1 as bv32 << 16) | (b2 as bv32 << 8) | b3 as bv32
  }

  /** The message schedule. */
  function W(block: Bytes, t: nat): bv32
    requires |block| == 64
  {
    if t < 16 then Word(block[4 * t], block[4 * t + 1], block[4 * t + 2], block[4 * t + 3])
    else Rotate1(W(block, t - 3) ^ W(block, t - 8) ^ W(block, t - 14) ^ W(block, t - 16))
  }

  function Temp(rotated: bv32, f: bv32, e: bv32, w: bv32, k: bv32): bv32 { rotated + f + e + w + k }

  function Round(h: Hash, t: nat, w: bv32): Hash {
    Hash(Temp(Rotate5(h.a), F(t, h.b, h.c, h.d), h.e, w, K(t)), h.a, Rotate30(h.b), h.c, h.d)
  }

  /** The working variables after `t` rounds. */
  function Rounds(h: Hash, block: Bytes, t: nat): Hash
    requires |block| == 64
  {
    if t == 0 then h else Round(Rounds(h, block, t - 1), t - 1, W(block, t - 1))
  }

  function Add(x: Hash, y: Hash): Hash {
    Hash(x.a + y.a, x.b + y.b, x.c + y.c, x.d + y.d, x.e + y.e)
  }

  function Compress(h: Hash, block: Bytes): Hash {
    if |block| == 64 then Add(h, Rounds(h, block, ROUNDS)) else h
  }

  /** A compression function applied to all blocks of a padded message in turn. */
  function Fold(f: (Hash, Bytes) -> Hash, h: Hash, m: Bytes): Hash
    requires |m| % 64 == 0
    decreases |m|
  {
    if m == [] then h else Fold(f, f(h, m[..64]), m[64..])
  }

  function Zeros(n: nat): Bytes { seq(n, _ => 0) }

  /** The number of zero bytes that bring a message of `n` bytes to 8 bytes short of a block. */
  function ZeroCount(n: nat): (k: nat)
    ensures k < 64 && (n + 1 + k) % 64 == 56
  {
    (119 - n % 64) % 64
  }

  /** A number without its `n` lowest bytes. */
  function DropBytes(x: nat, n: nat): nat {
    if n == 0 then x else DropBytes(x / 256, n - 1)
  }

  /** Byte `i` of a 64-bit number, most significant byte first. */
  function LengthByte(bits: nat, i: nat): bv8
    requires i < 8
  {
    ByteOf(DropBytes(bits, 7 - i))
  }

  /** The length in bits, as 64 bits. */
  function LengthBytes(bits: nat): (b: Bytes)
    ensures |b| == 8
  {
    seq(8, i requires 0 <= i < 8 => LengthByte(bits, i))
  }

  function ByteOf(x: nat): bv8 { (x % 256) as bv8 }

  function Pad(m: Bytes): (p: Bytes)
    ensures |p| % 64 == 0
  {
    m + [0x80] + Zeros(ZeroCount(|m|)) + LengthBytes(8 * |m|)
  }

  function WordBytes(x: bv32): Bytes {
    [((x >> 24) & 0xff) as bv8, ((x >> 16) & 0xff) as bv8, ((x >> 8) & 0xff) as bv8, (x & 0xff) as bv8]
  }

  function Digest(h: Hash): Bytes {
    WordBytes(h.a) + WordBytes(h.b) + WordBytes(h.c) + WordBytes(h.d) + WordBytes(h.e)
  }

  /** SHA-1 of a whole message. */
  function Sha1Of(m: Bytes): Bytes {
    Digest(Fold(Compress, InitialHash(), Pad(m)))
  }

  // ------------------------------------------------------------------ about the specification

  /** Bit `i` of a word, the least significant one first. */
  predicate Bit(x: bv32, i: bv32)
    requires i < 32
  {
    (x >> i) & 1 == 1
  }

  /** On every part `m` of the word, `Ch` is its second argument where the first has ones, and the third where it
      has zeros. */
  lemma ChChooses(b: bv32, c: bv32, d: bv32, m: bv32)
    ensures b & m == m ==> Ch(b, c, d) & m == c & m
    ensures b & m == 0 ==> Ch(b, c, d) & m == d & m
  {
    if b & m == m {
      ChOnes(b, c, d, m);
    } else if b & m == 0 {
      ChZeros(b, c, d, m);
    }
  }

  lemma ChOnes(b: bv32, c: bv32, d: bv32, m: bv32)
    requires b & m == m
    ensures Ch(b, c, d) & m == c & m
  {
  }

  lemma ChZeros(b: bv32, c: bv32, d: bv32, m: bv32)
    requires b & m == 0
    ensures Ch(b, c, d) & m == d & m
  {
  }

  /** Where two of its arguments agree, `Maj` is what they are; so it is one iff at least two are. */
  lemma MajAgrees(b: bv32, c: bv32, d: bv32, m: bv32)
    requires b & m == c & m
    ensures Maj(b, c, d) & m == b & m
  {
  }

  lemma MajSymmetric(b: bv32, c: bv32, d: bv32)
    ensures Maj(b, c, d) == Maj(c, d, b) == Maj(d, b, c)
  {
  }

  /** Where two of its arguments agree, `Parity` is the third, and where they differ, its complement. */
  lemma ParityFlips(b: bv32, c: bv32, d: bv32, m: bv32)
    ensures b & m == c & m ==> Parity(b, c, d) & m == d & m
    ensures b & m == !c & m ==> Parity(b, c, d) & m == !d & m
  {
    if b & m == c & m {
      ParitySame(b, c, d, m);
    } else if b & m == !c & m {
      ParityOther(b, c, d, m);
    }
  }

  lemma ParitySame(b: bv32, c: bv32, d: bv32, m: bv32)
    requires b & m == c & m
    ensures Parity(b, c, d) & m == d & m
  {
  }

  lemma ParityOther(b: bv32, c: bv32, d: bv32, m: bv32)
    requires b & m == !c & m
    ensures Parity(b, c, d) & m == !d & m
  {
  }

  /** Rotating by `n` moves every bit `n` places up, round the word. */
  lemma RotateBits(x: bv32, i: bv32)
    requires i < 32
    ensures Bit(Rotate1(x), (i + 1) % 32) <==> Bit(x, i)
    ensures Bit(Rotate5(x), (i + 5) % 32) <==> Bit(x, i)
    ensures Bit(Rotate30(x), (i + 30) % 32) <==> Bit(x, i)
  {
  }

  /** The constants are the integer parts of 2^30 times the square roots of 2, 3, 5 and 10. */
  lemma RoundConstants(t: nat)
    ensures var k := K(t) as nat;
            var n := if t < 20 then 2 else if t < 40 then 3 else if t < 60 then 5 else 10;
            k * k <= n * 0x1000_0000_0000_0000 < (k + 1) * (k + 1)
  {
  }

  /** A word is the number that its four bytes spell, most significant first. */
  lemma WordValue(b0: bv8, b1: bv8, b2: bv8, b3: bv8)
    ensures Word(b0, b1, b2, b3) == ((b0 as bv32 * 256 + b1 as bv32) * 256 + b2 as bv32) * 256 + b3 as bv32
  {
  }

  /** The number that digits to base 256 spell, most significant first. */
  function Spelled(digits: seq<nat>): nat {
    if digits == [] then 0 else 256 * Spelled(digits[..|digits| - 1]) + digits[|digits| - 1]
  }

  /** The last `n` digits of `x`. */
  function Digits(x: nat, n: nat): (d: seq<nat>)
    ensures |d| == n && forall i :: 0 <= i < n ==> d[i] < 256
  {
    if n == 0 then [] else Digits(x / 256, n - 1) + [x % 256]
  }

  lemma {:induction false} DigitsSpell(x: nat, n: nat)
    ensures Spelled(Digits(x, n)) == x % Power256(n)
  {
    if n > 0 {
      DigitsSpell(x / 256, n - 1);
      assert Digits(x, n)[..n - 1] == Digits(x / 256, n - 1);
      SpelledStep(x, n);
    }
  }

  lemma {:induction false} DigitAt(x: nat, n: nat, i: nat)
    requires i < n
    ensures Digits(x, n)[i] == DropBytes(x, n - 1 - i) % 256
  {
    if i < n - 1 {
      DigitAt(x / 256, n - 1, i);
    }
  }

  function Power256(n: nat): (p: nat)
    ensures p > 0
  {
    if n == 0 then 1 else 256 * Power256(n - 1)
  }

  lemma SpelledStep(x: nat, n: nat)
    requires n > 0
    ensures 256 * (x / 256 % Power256(n - 1)) + x % 256 == x % Power256(n)
  {
    var p := Power256(n - 1);
    var q, r := x / 256 / p, x / 256 % p;
    assert x / 256 == p * q + r;
    assert x == (256 * p) * q + (256 * r + x % 256);
    Bits.DivUnique(x, 256 * p, q, 256 * r + x % 256);
  }

  /** The length field holds the eight digits that spell the length in bits. */
  lemma LengthSpelled(bits: nat)
    requires bits < 0x1_0000_0000_0000_0000
    ensures Spelled(Digits(bits, 8)) == bits
    ensures forall i :: 0 <= i < 8 ==> LengthBytes(bits)[i] == Digits(bits, 8)[i] as bv8
  {
    DigitsSpell(bits, 8);
    assert Power256(8) == 0x1_0000_0000_0000_0000;
    forall i: nat | i < 8 ensures LengthBytes(bits)[i] == Digits(bits, 8)[i] as bv8 {
      DigitAt(bits, 8, i);
    }
  }

  /** The digest is the five words, one after the other. */
  lemma DigestWords(h: Hash)
    ensures var d := Digest(h);
            && |d| == 20
            && Word(d[0], d[1], d[2], d[3]) == h.a && Word(d[4], d[5], d[6], d[7]) == h.b
            && Word(d[8], d[9], d[10], d[11]) == h.c && Word(d[12], d[13], d[14], d[15]) == h.d
            && Word(d[16], d[17], d[18], d[19]) == h.e
  {
    WordOfBytes(h.a);
    WordOfBytes(h.b);
    WordOfBytes(h.c);
    WordOfBytes(h.d);
    WordOfBytes(h.e);
  }

  /** The bytes of a digest determine its words. */
  lemma WordOfBytes(x: bv32)
    ensures Word(WordBytes(x)[0], WordBytes(x)[1], WordBytes(x)[2], WordBytes(x)[3]) == x
  {
  }

  lemma {:induction false} FoldBlock(f: (Hash, Bytes) -> Hash, h: Hash, m: Bytes, block: Bytes)
    requires |m| % 64 == 0 && |block| == 64
    ensures Fold(f, h, m + block) == f(Fold(f, h, m), block)
    decreases |m|
  {
    if m == [] {
      assert m + block == block;
      assert block[..64] == block && block[64..] == [];
    } else {
      assert (m + block)[..64] == m[..64] && (m + block)[64..] == m[64..] + block;
      FoldBlock(f, f(h, m[..64]), m[64..], block);
    }
  }

  // ------------------------------------------------------------------ sha1_block

  /** The words of the block: the first loop of `sha1_block`. */
  method LoadWords(p: Bytes, w: array<bv32>)
    requires |p| == 64 && w.Length == ROUNDS
    modifies w
    ensures forall k :: 0 <= k < 16 ==> w[k] == W(p, k)
  {
    var i := 0;
    while i < 16
      invariant i <= 16 && forall k :: 0 <= k < i ==> w[k] == W(p, k)
    {
      w[i] := Word(p[i * 4], p[i * 4 + 1], p[i * 4 + 2], p[i * 4 + 3]);
      i := i + 1;
    }
  }

  /** The word that one turn of the second loop stores. */
  method MixWords(p: Bytes, i: nat, a: bv32, b: bv32, c: bv32, d: bv32) returns (x: bv32)
    requires |p| == 64 && 16 <= i
    requires a == W(p, i - 3) && b == W(p, i - 8) && c == W(p, i - 14) && d == W(p, i - 16)
    ensures x == W(p, i)
  {
    x := Rotate1(a ^ b ^ c ^ d);
  }

  /** The message schedule of `sha1_block`. */
  method Expand(p: Bytes) returns (ws: seq<bv32>)
    requires |p| == 64
    ensures |ws| == ROUNDS && forall k :: 0 <= k < ROUNDS ==> ws[k] == W(p, k)
  {
    var w := new bv32[ROUNDS];
    LoadWords(p, w);
    var i := 16;
    while i < ROUNDS
      invariant 16 <= i <= ROUNDS && forall k :: 0 <= k < i ==> w[k] == W(p, k)
    {
      w[i] := MixWords(p, i, w[i - 3], w[i - 8], w[i - 14], w[i - 16]);
      i := i + 1;
    }
    ws := w[..];
  }

  /** The function of round `i`. */
  method Mix(i: nat, b: bv32, d: bv32, e: bv32) returns (fn: bv32)
    ensures fn == F(i, b, d, e)
  {
    if i < 20 {
      fn := Ch(b, d, e);
    } else if i < 40 {
      fn := Parity(b, d, e);
    } else if i < 60 {
      fn := Maj(b, d, e);
    } else {
      fn := Parity(b, d, e);
    }
  }

  /** The sum of a round, in the order of the source. */
  method Sum(rotated: bv32, fn: bv32, f: bv32, k: bv32, w: bv32) returns (t: bv32)
    ensures t == Temp(rotated, fn, f, w, k)
  {
    t := rotated + fn + f + k + w;
  }

  /** One turn of the round loop. */
  method OneRound(h: Hash, i: nat, w: bv32) returns (r: Hash)
    ensures r == Round(h, i, w)
  {
    var fn := Mix(i, h.b, h.c, h.d);
    var t := Sum(Rotate5(h.a), fn, h.e, K(i), w);
    r := Hash(t, h.a, Rotate30(h.b), h.c, h.d);
  }

  /** `sha1_block`. */
  method Block(h: Hash, p: Bytes) returns (r: Hash)
    requires |p| == 64
    ensures r == Compress(h, p)
  {
    var w := Expand(p);
    var v, i := h, 0;
    while i < ROUNDS
      invariant i <= ROUNDS && v == Rounds(h, p, i)
    {
      v := OneRound(v, i, w[i]);
      i := i + 1;
    }
    r := Add(h, v);
  }

  // ------------------------------------------------------------------ streaming

  /** The value of a 64-bit counter. */
  function Wrap64(n: nat): nat {
    if n < 0x1_0000_0000_0000_0000 then n else Wrap64(n - 0x1_0000_0000_0000_0000)
  }

  /** `sha1_block` for the compression function `f`. */
  method CompressBlock(h: Hash, p: Bytes, ghost f: (Hash, Bytes) -> Hash) returns (r: Hash)
    requires IsCompress(f) && |p| == 64
    ensures r == f(h, p)
  {
    r := Block(h, p);
  }

  method Store(buf: array<bv8>, idx: nat, x: bv8)
    requires idx < buf.Length
    modifies buf
    ensures buf[..idx + 1] == old(buf[..idx]) + [x]
  {
    buf[idx] := x;
    assert buf[..idx + 1] == buf[..idx] + [x];
  }

  /** `f` is the compression function of section 6.1. */
  ghost predicate IsCompress(f: (Hash, Bytes) -> Hash) {
    forall h, b {:trigger Compress(h, b)} :: f(h, b) == Compress(h, b)
  }

  ghost predicate AreBlocks(blocks: seq<Bytes>) {
    forall i :: 0 <= i < |blocks| ==> |blocks[i]| == 64
  }

  /** The compression function applied to the blocks so far. */
  ghost function FoldBlocks(f: (Hash, Bytes) -> Hash, blocks: seq<Bytes>): Hash {
    if blocks == [] then InitialHash() else f(FoldBlocks(f, blocks[..|blocks| - 1]), blocks[|blocks| - 1])
  }

  lemma FoldBlocksMore(f: (Hash, Bytes) -> Hash, blocks: seq<Bytes>, b: Bytes)
    ensures FoldBlocks(f, blocks + [b]) == f(FoldBlocks(f, blocks), b)
    ensures Flatten(blocks + [b]) == Flatten(blocks) + b
  {
    assert (blocks + [b])[..|blocks|] == blocks;
  }

  lemma {:induction false} FlattenLength(blocks: seq<Bytes>)
    requires AreBlocks(blocks)
    ensures |Flatten(blocks)| == 64 * |blocks|
  {
    if blocks != [] {
      FlattenLength(blocks[..|blocks| - 1]);
    }
  }

  /** Folding block by block is folding the whole. */
  lemma {:induction false} FoldIsFoldBlocks(f: (Hash, Bytes) -> Hash, blocks: seq<Bytes>)
    requires AreBlocks(blocks)
    ensures |Flatten(blocks)| % 64 == 0 && Fold(f, InitialHash(), Flatten(blocks)) == FoldBlocks(f, blocks)
  {
    FlattenLength(blocks);
    if blocks != [] {
      var n := |blocks| - 1;
      FoldIsFoldBlocks(f, blocks[..n]);
      FoldBlock(f, InitialHash(), Flatten(blocks[..n]), blocks[n]);
    }
  }

  lemma Regroup(a: Bytes, b: Bytes, c: Bytes)
    ensures a + (b + c) == (a + b) + c && a + [] == a
  {
  }

  /** `sha1_ctx`.  `f` names the compression function; `blocks` are the blocks compressed so far and `fed` all
      bytes given to `Update`: both are history. */
  class Context {
    ghost const f: (Hash, Bytes) -> Hash
    var h: Hash
    var len: nat
    var buf: array<bv8>
    var idx: nat
    ghost var blocks: seq<Bytes>
    ghost var fed: Bytes

    /** The full blocks are folded into `h`; the rest waits in the buffer. */
    ghost predicate Valid()
      reads this, buf
    {
      && buf.Length == 64 && idx < 64 && AreBlocks(blocks)
      && fed == Flatten(blocks) + buf[..idx]
      && h == FoldBlocks(f, blocks)
      && IsCompress(f)
    }

    /** `sha1_init`. */
    constructor (ghost f: (Hash, Bytes) -> Hash)
      requires IsCompress(f)
      ensures Valid() && this.f == f && fed == [] && len == 0 && fresh(buf)
    {
      this.f := f;
      h := InitialHash();
      len := 0;
      buf := new bv8[64];
      idx := 0;
      blocks := [];
      fed := [];
    }

    /** A full buffer is compressed into `h`. */
    method Flush()
      requires buf.Length == 64 && AreBlocks(blocks) && IsCompress(f)
      requires fed == Flatten(blocks) + buf[..] && h == FoldBlocks(f, blocks)
      modifies this`h, this`idx, this`blocks
      ensures Valid() && idx == 0
    {
      FoldBlocksMore(f, blocks, buf[..]);
      h := CompressBlock(h, buf[..], f);
      idx := 0;
      blocks := blocks + [buf[..]];
      assert fed == Flatten(blocks) + buf[..0];
    }

    /** One byte of `sha1_update`. */
    method Feed(x: bv8)
      requires Valid()
      modifies this`h, this`idx, this`blocks, this`fed, buf
      ensures Valid() && fed == old(fed) + [x]
    {
      Regroup(Flatten(blocks), buf[..idx], [x]);
      Store(buf, idx, x);
      idx := idx + 1;
      fed := fed + [x];
      if idx == 64 {
        assert buf[..64] == buf[..];
        Flush();
      }
    }

    /** `sha1_update`. */
    method Update(p: Bytes)
      requires Valid()
      modifies this`h, this`idx, this`blocks, this`fed, this`len, buf
      ensures Valid() && fed == old(fed) + p && len == Wrap64(old(len) + |p|)
    {
      len := Wrap64(len + |p|);
      ghost var start := fed;
      var i := 0;
      while i < |p|
        invariant i <= |p| && Valid() && fed == start + p[..i] && len == Wrap64(old(len) + |p|)
      {
        assert p[..i + 1] == p[..i] + [p[i]];
        Feed(p[i]);
        i := i + 1;
      }
      assert p[..i] == p;
    }

    /** Consecutive updates with the parts of a message. */
    method Absorb(parts: seq<Bytes>)
      requires Valid() && fed == [] && len == 0 && |Flatten(parts)| < 0x2000_0000_0000_0000
      modifies this`h, this`idx, this`blocks, this`fed, this`len, buf
      ensures Valid() && fed == Flatten(parts) && len == |fed|
    {
      if parts != [] {
        var n := |parts| - 1;
        Absorb(parts[..n]);
        Update(parts[n]);
      }
    }

    /** The padding loop of `sha1_final`: it ends, 8 bytes short of a block. */
    method PadZeros(ghost m: Bytes)
      requires Valid() && fed == m + [0x80]
      modifies this`h, this`idx, this`blocks, this`fed, this`len, buf
      ensures Valid() && fed == m + [0x80] + Zeros(ZeroCount(|m|))
    {
      ghost var k := 0;
      FlattenLength(blocks);
      while idx != 56
        invariant Valid() && k <= ZeroCount(|m|) && fed == m + [0x80] + Zeros(k)
        invariant |fed| == 64 * |blocks| + idx
        decreases ZeroCount(|m|) - k
      {
        NotYetPadded(|m|, k, |blocks|, idx);
        assert Zeros(k + 1) == Zeros(k) + [0];
        Update([0]);
        FlattenLength(blocks);
        k := k + 1;
      }
      PaddedWhen(|m|, k, |blocks|);
    }

    /** The length field of `sha1_final`. */
    method LengthField(bits: nat) returns (lenb: Bytes)
      ensures lenb == LengthBytes(bits)
    {
      var i := 0;
      lenb := [];
      while i < 8
        invariant i <= 8 && |lenb| == i && forall k :: 0 <= k < i ==> lenb[k] == LengthByte(bits, k)
      {
        lenb := lenb + [LengthByte(bits, i)];
        i := i + 1;
      }
    }

    /** The length field completes the last block. */
    method Complete(lenb: Bytes, ghost p: Bytes)
      requires Valid() && fed + lenb == p && |p| % 64 == 0
      modifies this`h, this`idx, this`blocks, this`fed, this`len, buf
      ensures h == Fold(f, InitialHash(), p)
    {
      Update(lenb);
      FlattenLength(blocks);
      WholeBlocks(|blocks|, idx);
      FoldIsFoldBlocks(f, blocks);
      assert fed == Flatten(blocks);
    }

    /** `sha1_final`. */
    method Final() returns (out: Bytes)
      requires Valid() && len == |fed| < 0x2000_0000_0000_0000
      modifies this`h, this`idx, this`blocks, this`fed, this`len, buf
      ensures out == Digest(Fold(f, InitialHash(), Pad(old(fed))))
    {
      ghost var m := fed;
      var bits := Wrap64(len * 8);
      Update([0x80]);
      PadZeros(m);
      var lenb := LengthField(bits);
      Complete(lenb, Pad(m));
      out := Digest(h);
    }
  }

  lemma WholeBlocks(n: nat, idx: nat)
    requires idx < 64 && (64 * n + idx) % 64 == 0
    ensures idx == 0
  {
  }

  /** While the buffer is not at 56, zeros are missing. */
  lemma NotYetPadded(n: nat, k: nat, blocks: nat, idx: nat)
    requires k <= ZeroCount(n) && idx < 64 && idx != 56 && n + 1 + k == 64 * blocks + idx
    ensures k < ZeroCount(n)
  {
    assert (n + 1 + k) % 64 == idx;
  }

  lemma PaddedWhen(n: nat, k: nat, blocks: nat)
    requires k <= ZeroCount(n) && n + 1 + k == 64 * blocks + 56
    ensures k == ZeroCount(n)
  {
    assert (n + 1 + k) % 64 == 56;
  }

  function Flatten(parts: seq<Bytes>): Bytes {
    if parts == [] then [] else Flatten(parts[..|parts| - 1]) + parts[|parts| - 1]
  }

  /** Init, updates with the parts of a message, and final. */
  method Stream(ghost f: (Hash, Bytes) -> Hash, parts: seq<Bytes>) returns (out: Bytes)
    requires IsCompress(f) && |Flatten(parts)| < 0x2000_0000_0000_0000
    ensures out == Digest(Fold(f, InitialHash(), Pad(Flatten(parts))))
  {
    var c := new Context(f);
    c.Absorb(parts);
    out := c.Final();
  }

  /** However a message is split into updates, the result is its SHA-1. */
  method HashParts(parts: seq<Bytes>) returns (out: Bytes)
    requires |Flatten(parts)| < 0x2000_0000_0000_0000
    ensures out == Sha1Of(Flatten(parts))
  {
    out := Stream(Compress, parts);
  }
}
