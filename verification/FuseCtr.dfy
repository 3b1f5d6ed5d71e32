/** The seekable counter-mode stream of the FUSE layer (c_src/vault/vault_fuse.c).

    Each read or write handler derives the file's 16-byte initial counter block, adds
    offset/16 to its low eight bytes with a hand-written carry loop, skips offset % 16
    keystream bytes and then runs AES-256 in counter mode over the buffer. The block
    cipher under the vault's key is the parameter `aes`; a counter block is named by its
    big-endian value. */
module FuseCtr {
  import opened ByteLayout
  import opened Options

  type Block = s: seq<Byte> | |s| == 16 witness seq(16, i => 0)
  type KeyBlock = s: seq<bv8> | |s| == 16 witness seq(16, i => 0)
  type Cipher = nat -> KeyBlock

  const TWO_64: nat := 0x1_0000_0000_0000_0000
  const TWO_128: nat := 0x1_0000_0000_0000_0000_0000_0000_0000_0000

  // ---------------------------------------------------------------------
  // Big-endian values of byte strings
  // ---------------------------------------------------------------------

  function Value(s: seq<Byte>): nat {
    if s == [] then 0 else Value(s[..|s| - 1]) * 256 + s[|s| - 1]
  }

  lemma {:induction false} ValueBound(s: seq<Byte>)
    ensures Value(s) < Pow256(|s|)
  {
    if s != [] {
      ValueBound(s[..|s| - 1]);
    }
  }

  lemma {:induction false} ValueUpdate(s: seq<Byte>, i: nat, b: Byte)
    requires i < |s|
    ensures Value(s[i := b]) == Value(s) + (b - s[i]) * Pow256(|s| - 1 - i)
  {
    var n := |s| - 1;
    if i == n {
      assert s[i := b][..n] == s[..n];
    } else {
      assert s[i := b][..n] == s[..n][i := b];
      ValueUpdate(s[..n], i, b);
      ScaleUp(Value(s[..n]), b - s[i], Pow256(n - 1 - i), s[n]);
    }
  }

  lemma ScaleUp(v: int, d: int, p: int, last: int)
    ensures (v + d * p) * 256 + last == (v * 256 + last) + d * (256 * p)
  {
  }

  // ---------------------------------------------------------------------
  // The carry loop
  // ---------------------------------------------------------------------

  function Low(iv: Block): nat { Value(iv[8..]) }

  function High(iv: Block): nat { Value(iv[..8]) }

  lemma LowBound(iv: Block)
    ensures Low(iv) < TWO_64 && High(iv) < TWO_64
  {
    ValueBound(iv[8..]);
    ValueBound(iv[..8]);
    WordSizes();
  }

  lemma CarryStep(n: nat, a: int, p: nat, b: Byte)
    ensures a + ((b + n % 256) % 256 - b) * p + (n / 256 + (b + n % 256) / 256) * (256 * p) == a + n * p
  {
    var sum := b + n % 256;
    var x, y := sum % 256 - b, n / 256 + sum / 256;
    assert x + 256 * y == n;
    assert x * p + y * (256 * p) == (x + 256 * y) * p;
  }

  /** One turn of the loop moves what it takes from the rest into the counter. */
  lemma CarryKeepsSum(iv: Block, i: nat, rest: nat)
    requires 8 <= i < 16
    ensures var sum := iv[i] + rest % 256; var iv' := iv[i := sum % 256];
            && iv'[..8] == iv[..8]
            && Low(iv') + (rest / 256 + sum / 256) * Pow256(16 - i) == Low(iv) + rest * Pow256(15 - i)
  {
    var sum := iv[i] + rest % 256;
    assert iv[i := sum % 256][8..] == iv[8..][i - 8 := sum % 256];
    ValueUpdate(iv[8..], i - 8, sum % 256);
    CarryStep(rest, Low(iv), Pow256(15 - i), iv[i]);
  }

  /** The loop of lines 171-175: adds the block index to the counter's low eight bytes. */
  method AdvanceCounter(iv: array<Byte>, blockIndex: nat)
    requires iv.Length == 16 && blockIndex < TWO_64
    modifies iv
    ensures iv[..8] == old(iv[..8])
    ensures Low(iv[..]) == (Low(old(iv[..])) + blockIndex) % TWO_64
  {
    var i := 15;
    var rest: nat := blockIndex;
    ghost var was := iv[..];
    assert Pow256(0) == 1;
    while i >= 8 && rest > 0
      invariant 7 <= i <= 15
      invariant iv[..8] == was[..8]
      invariant Low(iv[..]) + rest * Pow256(15 - i) == Low(was) + blockIndex
    {
      ghost var before := iv[..];
      var sum := iv[i] + rest % 256;
      iv[i] := sum % 256;
      assert iv[..] == before[i := sum % 256];
      CarryKeepsSum(before, i, rest);
      rest := rest / 256 + sum / 256;
      i := i - 1;
    }
    LowBound(iv[..]);
    WordSizes();
    ModUnique(Low(iv[..]), rest, Low(was) + blockIndex);
  }

  lemma ModUnique(r: nat, q: nat, n: nat)
    requires r < TWO_64 && r + q * TWO_64 == n
    ensures n % TWO_64 == r
  {
  }

  // ---------------------------------------------------------------------
  // The keystream
  // ---------------------------------------------------------------------

  /** Every byte combined with the key byte of its place; `data` starts at place `offset`. */
  function Mask(key: nat -> bv8, offset: nat, data: seq<bv8>): seq<bv8> {
    seq(|data|, i requires 0 <= i < |data| => data[i] ^ key(offset + i))
  }

  /** The key stream that starts at counter value `start`. */
  function Stream(aes: Cipher, start: nat): nat -> bv8 {
    (j: nat) => aes((start + j / 16) % TWO_128)[j % 16]
  }

  /** The cipher context of lines 177-199: OpenSSL's counter mode, whose counter runs over
      all 128 bits (standard incrementing function, Appendix B.1 of NIST SP 800-38A). */
  class CtrContext {
    const aes: Cipher
    const start: nat
    var pos: nat

    constructor (aes: Cipher, iv: array<Byte>)
      requires iv.Length == 16
      ensures this.aes == aes && start == Value(iv[..]) && pos == 0
    {
      this.aes, start, pos := aes, Value(iv[..]), 0;
    }

    method Update(input: seq<bv8>) returns (output: seq<bv8>)
      modifies this
      ensures pos == old(pos) + |input|
      ensures output == Mask(Stream(aes, start), old(pos), input)
    {
      output := [];
      var key := Stream(aes, start);
      for i := 0 to |input|
        invariant |output| == i && pos == old(pos) + i
        invariant forall k :: 0 <= k < i ==> output[k] == input[k] ^ key(old(pos) + k)
      {
        output := output + [input[i] ^ key(pos)];
        pos := pos + 1;
      }
    }
  }

  /** The counter value that encrypts file byte `j` when a call starts at `offset`. */
  function CounterAt(iv: Block, offset: nat, j: nat): nat
    requires offset <= j
  {
    (High(iv) * TWO_64 + (Low(iv) + offset / 16) % TWO_64 + (j / 16 - offset / 16)) % TWO_128
  }

  /** The key byte a call that starts at `offset` uses for file byte `j`. */
  function CallKey(aes: Cipher, iv: Block, offset: nat): nat -> bv8 {
    (j: nat) => if offset <= j then aes(CounterAt(iv, offset, j))[j % 16] else 0
  }

  /** The key byte of a call that starts at `j` itself: it depends on the position only. */
  function PositionKey(aes: Cipher, iv: Block): nat -> bv8 {
    (j: nat) => aes(CounterAt(iv, j, j))[j % 16]
  }

  /** fuse_crypt_stream, lines 143-208, for a key that was derived and an iv that was hashed. */
  method CryptStream(aes: Cipher, iv: Block, offset: nat, input: seq<bv8>) returns (output: seq<bv8>)
    requires offset / 16 < TWO_64
    ensures output == Mask(CallKey(aes, iv, offset), offset, input)
  {
    if input == [] {
      return [];
    }
    var counter := new Byte[16](i requires 0 <= i < 16 => iv[i]);
    assert counter[..] == iv;
    AdvanceCounter(counter, offset / 16);
    var ctx := new CtrContext(aes, counter);
    var align := offset % 16;
    if align > 0 {
      var dummy := ctx.Update(seq(align, i => 0));
    }
    output := ctx.Update(input);
    assert ctx.start == High(iv) * TWO_64 + (Low(iv) + offset / 16) % TWO_64 by {
      ValueSplit(counter[..]);
      assert counter[..][..8] == counter[..8] == iv[..8];
    }
    StreamIsCallKey(aes, iv, offset, ctx.start, input);
  }

  lemma StreamIsCallKey(aes: Cipher, iv: Block, offset: nat, start: nat, data: seq<bv8>)
    requires start == High(iv) * TWO_64 + (Low(iv) + offset / 16) % TWO_64
    ensures Mask(Stream(aes, start), offset % 16, data) == Mask(CallKey(aes, iv, offset), offset, data)
  {
    forall i | 0 <= i < |data|
      ensures Mask(Stream(aes, start), offset % 16, data)[i] == Mask(CallKey(aes, iv, offset), offset, data)[i]
    {
      AlignedByte(aes, iv, offset, start, i);
    }
  }

  lemma AlignedByte(aes: Cipher, iv: Block, offset: nat, start: nat, i: nat)
    requires start == High(iv) * TWO_64 + (Low(iv) + offset / 16) % TWO_64
    ensures Stream(aes, start)(offset % 16 + i) == CallKey(aes, iv, offset)(offset + i)
  {
    AlignedIndex(offset, i);
    var s, j := offset % 16 + i, offset + i;
    assert start + s / 16 == High(iv) * TWO_64 + (Low(iv) + offset / 16) % TWO_64 + (j / 16 - offset / 16);
    assert (start + s / 16) % TWO_128 == CounterAt(iv, offset, j);
  }

  lemma AlignedIndex(offset: nat, i: nat)
    ensures (offset % 16 + i) / 16 == (offset + i) / 16 - offset / 16
    ensures (offset % 16 + i) % 16 == (offset + i) % 16
  {
    assert offset == 16 * (offset / 16) + offset % 16;
  }

  lemma ValueSplit(iv: Block)
    ensures Value(iv) == High(iv) * TWO_64 + Low(iv)
  {
    ValueConcat(iv[..8], iv[8..]);
    assert iv[..8] + iv[8..] == iv;
    WordSizes();
  }

  lemma {:induction false} ValueConcat(a: seq<Byte>, b: seq<Byte>)
    ensures Value(a + b) == Value(a) * Pow256(|b|) + Value(b)
  {
    if b == [] {
      assert a + b == a;
    } else {
      var n := |b| - 1;
      assert (a + b)[..|a + b| - 1] == a + b[..n];
      ValueConcat(a, b[..n]);
      assert Value(a) * Pow256(n) * 256 == Value(a) * Pow256(|b|);
    }
  }

  // ---------------------------------------------------------------------
  // When the key byte depends on the position only
  // ---------------------------------------------------------------------

  /** The number of bytes a file may have before the low counter half wraps. */
  function Limit(iv: Block): nat {
    LowBound(iv);
    (TWO_64 - Low(iv)) * 16
  }

  /** Exactly when a call that starts at `offset` uses, for byte `j`, the block a call at
      `j` would use: the 64-bit addition and the 128-bit stepping agree iff no block
      between the two wraps the low half. */
  lemma CounterDependsOnPositionOnly(iv: Block, offset: nat, j: nat)
    requires offset <= j && j / 16 < TWO_64
    ensures CounterAt(iv, offset, j) == CounterAt(iv, j, j)
       <==> (Low(iv) + offset / 16) % TWO_64 + (j / 16 - offset / 16) < TWO_64
  {
    LowBound(iv);
    var x, d := (Low(iv) + offset / 16) % TWO_64, j / 16 - offset / 16;
    assert (Low(iv) + j / 16) % TWO_64 == (x + d) % TWO_64 by {
      assert Low(iv) + offset / 16 == (Low(iv) + offset / 16) / TWO_64 * TWO_64 + x;
    }
    assert High(iv) * TWO_64 <= TWO_128 - TWO_64;
  }

  /** Below the limit a call's key is the position key, so it can be cut anywhere. */
  lemma CallKeyIsPositionKey(aes: Cipher, iv: Block, offset: nat, data: seq<bv8>)
    requires offset + |data| <= Limit(iv)
    ensures Mask(CallKey(aes, iv, offset), offset, data) == Mask(PositionKey(aes, iv), offset, data)
  {
    forall i | 0 <= i < |data|
      ensures Mask(CallKey(aes, iv, offset), offset, data)[i] == Mask(PositionKey(aes, iv), offset, data)[i]
    {
      ByteBelowLimit(aes, iv, offset, offset + i);
    }
  }

  lemma ByteBelowLimit(aes: Cipher, iv: Block, offset: nat, j: nat)
    requires offset <= j < Limit(iv)
    ensures CallKey(aes, iv, offset)(j) == PositionKey(aes, iv)(j)
  {
    LowBound(iv);
    assert Low(iv) + j / 16 < TWO_64;
    CounterDependsOnPositionOnly(iv, offset, j);
  }

  // ---------------------------------------------------------------------
  // The cipher file
  // ---------------------------------------------------------------------

  /** pwrite: a gap between the old end and `offset` is filled by `fill`; the kernel's is zero. */
  function Pwrite(file: seq<bv8>, offset: nat, data: seq<bv8>, fill: nat -> bv8): seq<bv8> {
    if data == [] then file
    else
      var n := offset + |data|;
      seq(if n < |file| then |file| else n, j requires 0 <= j => ByteAfter(file, offset, data, fill, j))
  }

  function ByteAfter(file: seq<bv8>, offset: nat, data: seq<bv8>, fill: nat -> bv8, j: nat): bv8 {
    if offset <= j < offset + |data| then data[j - offset] else if j < |file| then file[j] else fill(j)
  }

  function Zero(): nat -> bv8 { (j: nat) => 0 }

  /** pread: short at the end of the file. */
  function Pread(file: seq<bv8>, offset: nat, size: nat): seq<bv8> {
    if offset >= |file| then []
    else if offset + size <= |file| then file[offset..offset + size]
    else file[offset..]
  }

  /** The bytes a caller is meant to see: every byte deciphered by its position's key byte. */
  function Plain(aes: Cipher, iv: Block, disk: seq<bv8>): seq<bv8> {
    Mask(PositionKey(aes, iv), 0, disk)
  }

  /** What a handler makes of its buffer. `cipherOk` is false when deriving the key or
      setting up OpenSSL failed: the handlers then go on with the bytes they have. */
  function Handled(aes: Cipher, iv: Block, offset: nat, buf: seq<bv8>, cipherOk: bool): seq<bv8> {
    if cipherOk then Mask(CallKey(aes, iv, offset), offset, buf) else buf
  }

  /** The part of some data that pread or pwrite moves, if it does not fail: it may be short. */
  function Moved(data: seq<bv8>, moved: Option<nat>): seq<bv8> {
    if moved == None then [] else if moved.value <= |data| then data[..moved.value] else data
  }

  /** The key byte for place `at` of a call that starts at `offset`: the counter's low half is
      advanced by whole blocks, modulo its width, and from there the cipher counts on. */
  predicate MaskedAt(aes: Cipher, iv: Block, offset: nat, at: nat, plain: bv8, stored: bv8)
    requires offset <= at
  {
    var start := Value(iv[..8]) * TWO_64 + (Value(iv[8..]) + offset / 16) % TWO_64;
    stored == plain ^ aes((start + (at / 16 - offset / 16)) % TWO_128)[at % 16]
  }

  lemma HandledBytes(aes: Cipher, iv: Block, offset: nat, buf: seq<bv8>, i: nat)
    requires i < |buf|
    ensures MaskedAt(aes, iv, offset, offset + i, buf[i], Handled(aes, iv, offset, buf, true)[i])
  {
    var at := offset + i;
    var start := Value(iv[..8]) * TWO_64 + (Value(iv[8..]) + offset / 16) % TWO_64;
    assert CounterAt(iv, offset, at) == (start + (at / 16 - offset / 16)) % TWO_128;
    assert CallKey(aes, iv, offset)(at) == aes(CounterAt(iv, offset, at))[at % 16];
    assert Handled(aes, iv, offset, buf, true)[i] == buf[i] ^ CallKey(aes, iv, offset)(at);
  }

  /** What a write leaves on the disk, byte by byte. */
  lemma PwriteBytes(file: seq<bv8>, offset: nat, data: seq<bv8>)
    ensures var after := Pwrite(file, offset, data, Zero());
            && |after| == (if data == [] || offset + |data| <= |file| then |file| else offset + |data|)
            && (forall i :: 0 <= i < |data| ==> offset + i < |after| && after[offset + i] == data[i])
            && forall j :: 0 <= j < |after| && !(offset <= j < offset + |data|) ==>
                 after[j] == if j < |file| then file[j] else 0
  {
  }

  lemma PreadBytes(file: seq<bv8>, offset: nat, size: nat)
    ensures var got := Pread(file, offset, size);
            && |got| == (if offset >= |file| then 0 else if offset + size <= |file| then size else |file| - offset)
            && forall i :: 0 <= i < |got| ==> offset + i < |file| && got[i] == file[offset + i]
  {
  }

  /** One file of a protected vault, as vfuse_write and vfuse_read treat it. */
  class CipherFile {
    const aes: Cipher
    const iv: Block
    var disk: seq<bv8>

    constructor (aes: Cipher, iv: Block)
      ensures this.aes == aes && this.iv == iv && disk == []
    {
      this.aes, this.iv, disk := aes, iv, [];
    }

    /** vfuse_write; `moved` is what opening the file and pwrite come to: how many bytes, or an
        error. The reply is that number or the error. */
    method Write(offset: nat, buf: seq<bv8>, cipherOk: bool, moved: Option<nat>) returns (reply: Option<nat>)
      requires offset / 16 < TWO_64
      modifies this
      ensures reply == if moved == None then None else Some(|Moved(buf, moved)|)
      ensures disk == Pwrite(old(disk), offset, Handled(aes, iv, offset, Moved(buf, moved), cipherOk), Zero())
      ensures moved == None <==> reply == None
      ensures reply == None ==> disk == old(disk)
      ensures reply.Some? ==>
                var n := reply.value;
                && n == (if moved.value <= |buf| then moved.value else |buf|)
                && |disk| == (if n == 0 || offset + n <= |old(disk)| then |old(disk)| else offset + n)
                && (forall i :: 0 <= i < n ==>
                      if cipherOk then MaskedAt(aes, iv, offset, offset + i, buf[i], disk[offset + i])
                      else disk[offset + i] == buf[i])
                && forall j :: 0 <= j < |disk| && !(offset <= j < offset + n) ==>
                     disk[j] == if j < |old(disk)| then old(disk)[j] else 0
    {
      var data := buf;
      if |buf| > 0 && cipherOk {
        data := CryptStream(aes, iv, offset, buf);
      }
      if moved == None {
        return None;
      }
      HandledPart(aes, iv, offset, buf, cipherOk, moved);
      PwriteBytes(disk, offset, Moved(data, moved));
      disk := Pwrite(disk, offset, Moved(data, moved), Zero());
      reply := Some(|Moved(data, moved)|);
      if cipherOk {
        forall i: nat | i < reply.value
          ensures MaskedAt(aes, iv, offset, offset + i, buf[i], disk[offset + i])
        {
          HandledBytes(aes, iv, offset, buf, i);
        }
      }
    }

    /** vfuse_read, likewise: the bytes that pread delivered, unmasked. */
    method Read(offset: nat, size: nat, cipherOk: bool, moved: Option<nat>) returns (reply: Option<seq<bv8>>)
      requires offset / 16 < TWO_64
      ensures reply == if moved == None then None
                       else Some(Moved(Handled(aes, iv, offset, Pread(disk, offset, size), cipherOk), moved))
      ensures moved == None <==> reply == None
      ensures reply.Some? ==>
                var there := if offset >= |disk| then 0 else if offset + size <= |disk| then size else |disk| - offset;
                && |reply.value| == (if moved.value <= there then moved.value else there)
                && forall i :: 0 <= i < |reply.value| ==>
                     if cipherOk then MaskedAt(aes, iv, offset, offset + i, disk[offset + i], reply.value[i])
                     else reply.value[i] == disk[offset + i]
    {
      if moved == None {
        return None;
      }
      var buf := Moved(Pread(disk, offset, size), moved);
      HandledPart(aes, iv, offset, Pread(disk, offset, size), cipherOk, moved);
      PreadBytes(disk, offset, size);
      ghost var got := buf;
      if |buf| > 0 && cipherOk {
        buf := CryptStream(aes, iv, offset, buf);
        forall i: nat | i < |got|
          ensures MaskedAt(aes, iv, offset, offset + i, got[i], buf[i])
        {
          HandledBytes(aes, iv, offset, got, i);
        }
      }
      reply := Some(buf);
    }
  }

  /** A part of a handled buffer is the handled part. */
  lemma HandledPart(aes: Cipher, iv: Block, offset: nat, buf: seq<bv8>, cipherOk: bool, moved: Option<nat>)
    ensures Moved(Handled(aes, iv, offset, buf, cipherOk), moved) == Handled(aes, iv, offset, Moved(buf, moved), cipherOk)
  {
  }

  lemma XorTwice(a: bv8, k: bv8)
    ensures (a ^ k) ^ k == a
  {
  }

  lemma XorCancel(a: bv8, k: bv8, k': bv8)
    ensures a ^ k == a ^ k' <==> k == k'
  {
  }

  /** A masked write is a plain write. Only a gap shows: it reads back as key bytes. */
  lemma MaskedWrite(key: nat -> bv8, disk: seq<bv8>, offset: nat, buf: seq<bv8>)
    ensures Mask(key, 0, Pwrite(disk, offset, Mask(key, offset, buf), Zero()))
         == Pwrite(Mask(key, 0, disk), offset, buf, key)
  {
    var after := Pwrite(disk, offset, Mask(key, offset, buf), Zero());
    forall j | 0 <= j < |after|
      ensures Mask(key, 0, after)[j] == Pwrite(Mask(key, 0, disk), offset, buf, key)[j]
    {
      MaskedByte(key, disk, offset, buf, j);
    }
  }

  lemma MaskedByte(key: nat -> bv8, disk: seq<bv8>, offset: nat, buf: seq<bv8>, j: nat)
    ensures ByteAfter(disk, offset, Mask(key, offset, buf), Zero(), j) ^ key(j)
         == ByteAfter(Mask(key, 0, disk), offset, buf, key, j)
  {
    if offset <= j < offset + |buf| {
      XorTwice(buf[j - offset], key(j));
    }
  }

  lemma MaskedRead(key: nat -> bv8, disk: seq<bv8>, offset: nat, size: nat)
    ensures Mask(key, offset, Pread(disk, offset, size)) == Pread(Mask(key, 0, disk), offset, size)
  {
  }

  lemma WriteRefines(aes: Cipher, iv: Block, disk: seq<bv8>, offset: nat, buf: seq<bv8>)
    requires offset + |buf| <= Limit(iv)
    ensures Plain(aes, iv, Pwrite(disk, offset, Handled(aes, iv, offset, buf, true), Zero()))
         == Pwrite(Plain(aes, iv, disk), offset, buf, PositionKey(aes, iv))
  {
    CallKeyIsPositionKey(aes, iv, offset, buf);
    MaskedWrite(PositionKey(aes, iv), disk, offset, buf);
  }

  lemma ReadRefines(aes: Cipher, iv: Block, disk: seq<bv8>, offset: nat, size: nat)
    requires |disk| <= Limit(iv)
    ensures Handled(aes, iv, offset, Pread(disk, offset, size), true) == Pread(Plain(aes, iv, disk), offset, size)
  {
    var got := Pread(disk, offset, size);
    if got != [] {
      CallKeyIsPositionKey(aes, iv, offset, got);
    }
    MaskedRead(PositionKey(aes, iv), disk, offset, size);
  }

  /** However a buffer is cut into calls, the same bytes reach the disk. */
  lemma ChunkingIrrelevant(aes: Cipher, iv: Block, offset: nat, a: seq<bv8>, b: seq<bv8>)
    requires offset + |a| + |b| <= Limit(iv)
    ensures Handled(aes, iv, offset, a + b, true)
         == Handled(aes, iv, offset, a, true) + Handled(aes, iv, offset + |a|, b, true)
  {
    assert Handled(aes, iv, offset, a + b, true) == Mask(PositionKey(aes, iv), offset, a + b) by {
      CallKeyIsPositionKey(aes, iv, offset, a + b);
    }
    assert Handled(aes, iv, offset, a, true) == Mask(PositionKey(aes, iv), offset, a) by {
      CallKeyIsPositionKey(aes, iv, offset, a);
    }
    assert Handled(aes, iv, offset + |a|, b, true) == Mask(PositionKey(aes, iv), offset + |a|, b) by {
      CallKeyIsPositionKey(aes, iv, offset + |a|, b);
    }
    MaskConcat(PositionKey(aes, iv), offset, a, b);
  }

  lemma MaskConcat(key: nat -> bv8, offset: nat, a: seq<bv8>, b: seq<bv8>)
    ensures Mask(key, offset, a + b) == Mask(key, offset, a) + Mask(key, offset + |a|, b)
  {
  }

  // ---------------------------------------------------------------------
  // Whole runs
  // ---------------------------------------------------------------------

  datatype Op =
    | Write(offset: nat, buf: seq<bv8>, moved: Option<nat>)
    | Read(offset: nat, size: nat, moved: Option<nat>)

  /** A reply to a read: the part that came, or an error. */
  function Reply(data: seq<bv8>, moved: Option<nat>): Option<seq<bv8>> {
    if moved == None then None else Some(Moved(data, moved))
  }

  /** The disk after a run and the replies to its reads. */
  function CipherRun(aes: Cipher, iv: Block, disk: seq<bv8>, ops: seq<Op>): (seq<bv8>, seq<Option<seq<bv8>>>)
    decreases |ops|
  {
    if ops == [] then (disk, [])
    else match ops[0]
      case Write(offset, buf, moved) =>
        CipherRun(aes, iv, Pwrite(disk, offset, Handled(aes, iv, offset, Moved(buf, moved), true), Zero()), ops[1..])
      case Read(offset, size, moved) =>
        var (end, outs) := CipherRun(aes, iv, disk, ops[1..]);
        (end, [Reply(Handled(aes, iv, offset, Pread(disk, offset, size), true), moved)] + outs)
  }

  /** The same run on an ordinary file. */
  function PlainRun(file: seq<bv8>, ops: seq<Op>): (seq<bv8>, seq<Option<seq<bv8>>>)
    decreases |ops|
  {
    if ops == [] then (file, [])
    else match ops[0]
      case Write(offset, buf, moved) => PlainRun(Pwrite(file, offset, Moved(buf, moved), Zero()), ops[1..])
      case Read(offset, size, moved) =>
        var (end, outs) := PlainRun(file, ops[1..]);
        (end, [Reply(Pread(file, offset, size), moved)] + outs)
  }

  /** What every write moves starts inside or right at the end of a file of `size` bytes, and
      ends below `limit`. */
  predicate HoleFree(size: nat, limit: nat, ops: seq<Op>)
    decreases |ops|
  {
    ops == [] ||
    match ops[0]
    case Write(offset, buf, moved) =>
      var sent := Moved(buf, moved);
      var n := offset + |sent|;
      && (sent == [] || (offset <= size && n <= limit))
      && HoleFree(if sent != [] && size < n then n else size, limit, ops[1..])
    case Read(_, _, _) => HoleFree(size, limit, ops[1..])
  }

  /** Over every hole-free run below the counter's limit the encrypted file cannot be told
      from a plain byte array, whatever the offsets and sizes of the calls, and whichever of
      them fail or move only a part. */
  lemma {:induction false} RunRefines(aes: Cipher, iv: Block, disk: seq<bv8>, ops: seq<Op>)
    requires |disk| <= Limit(iv)
    requires HoleFree(|disk|, Limit(iv), ops)
    ensures Plain(aes, iv, CipherRun(aes, iv, disk, ops).0) == PlainRun(Plain(aes, iv, disk), ops).0
    ensures CipherRun(aes, iv, disk, ops).1 == PlainRun(Plain(aes, iv, disk), ops).1
    decreases |ops|
  {
    if ops != [] {
      match ops[0]
      case Write(offset, buf, moved) =>
        var sent := Moved(buf, moved);
        var next := Pwrite(disk, offset, Handled(aes, iv, offset, sent, true), Zero());
        if sent != [] {
          WriteRefines(aes, iv, disk, offset, sent);
          NoGapNoFill(Plain(aes, iv, disk), offset, sent, PositionKey(aes, iv));
        }
        RunRefines(aes, iv, next, ops[1..]);
      case Read(offset, size, moved) =>
        ReadRefines(aes, iv, disk, offset, size);
        RunRefines(aes, iv, disk, ops[1..]);
    }
  }

  lemma NoGapNoFill(file: seq<bv8>, offset: nat, buf: seq<bv8>, fill: nat -> bv8)
    requires offset <= |file|
    ensures Pwrite(file, offset, buf, fill) == Pwrite(file, offset, buf, Zero())
  {
  }

  // ---------------------------------------------------------------------
  // Where the file stops behaving like a plain one
  // ---------------------------------------------------------------------

  lemma MasksAgree(key: nat -> bv8, key': nat -> bv8, data: seq<bv8>)
    ensures Mask(key, 0, data) == Mask(key', 0, data) <==> forall j: nat :: j < |data| ==> key(j) == key'(j)
  {
    if Mask(key, 0, data) == Mask(key', 0, data) {
      forall j: nat | j < |data|
        ensures key(j) == key'(j)
      {
        assert Mask(key, 0, data)[j] == Mask(key', 0, data)[j];
        XorCancel(data[j], key(j), key'(j));
      }
    }
  }

  /** Reading with the key stream of another path gives the plain bytes back exactly where
      the two streams agree. So a rename, which changes the hashed path and leaves the disk
      bytes alone, garbles the file unless they agree on all of it. */
  lemma ReadAfterRename(aes: Cipher, iv: Block, iv': Block, disk: seq<bv8>)
    ensures Plain(aes, iv', disk) == Plain(aes, iv, disk)
       <==> forall j: nat :: j < |disk| ==> PositionKey(aes, iv')(j) == PositionKey(aes, iv)(j)
  {
    MasksAgree(PositionKey(aes, iv'), PositionKey(aes, iv), disk);
  }

  /** A write whose cipher set-up failed stores the caller's bytes in the clear; they read
      back as written exactly where the key stream is zero. */
  lemma FailedCipherWrite(aes: Cipher, iv: Block, disk: seq<bv8>, offset: nat, buf: seq<bv8>)
    requires buf != [] && offset <= |disk|
    ensures Plain(aes, iv, Pwrite(disk, offset, Handled(aes, iv, offset, buf, false), Zero()))
         == Pwrite(Plain(aes, iv, disk), offset, buf, Zero())
       <==> forall j: nat :: offset <= j < offset + |buf| ==> PositionKey(aes, iv)(j) == 0
  {
    UnmaskedWrite(PositionKey(aes, iv), disk, offset, buf);
  }

  lemma UnmaskedWrite(key: nat -> bv8, disk: seq<bv8>, offset: nat, buf: seq<bv8>)
    requires buf != [] && offset <= |disk|
    ensures Mask(key, 0, Pwrite(disk, offset, buf, Zero())) == Pwrite(Mask(key, 0, disk), offset, buf, Zero())
       <==> forall j: nat :: offset <= j < offset + |buf| ==> key(j) == 0
  {
    var l := Mask(key, 0, Pwrite(disk, offset, buf, Zero()));
    var r := Pwrite(Mask(key, 0, disk), offset, buf, Zero());
    forall j: nat | offset <= j < offset + |buf|
      ensures l[j] == r[j] <==> key(j) == 0
    {
      XorCancel(buf[j - offset], key(j), 0);
    }
  }

  function WholeRun(buf: seq<bv8>): seq<Op> { [Write(0, buf, Some(|buf|)), Read(16, 16, Some(16))] }

  /** The limit is real: with a counter half of all ones, 32 bytes written in one call do
      not decrypt to themselves when the second block is read on its own. */
  lemma WrapBreaksRefinement() returns (aes: Cipher, iv: Block, buf: seq<bv8>)
    ensures 32 == |buf| > Limit(iv)
    ensures CipherRun(aes, iv, [], WholeRun(buf)).1
         != PlainRun([], WholeRun(buf)).1
  {
    aes := (n: nat) => seq(16, i => if n == TWO_64 then 1 else 0);
    iv := seq(16, i => if i < 8 then 0 else 255);
    buf := seq(32, i => 0);
    LastCounter(iv);
    var disk := Pwrite([], 0, Handled(aes, iv, 0, buf, true), Zero());
    var got := Handled(aes, iv, 16, Pread(disk, 16, 16), true);
    assert got[0] == 1 by {
      assert disk[16] == 1 && Pread(disk, 16, 16)[0] == 1;
    }
    var meant := Pread(Pwrite([], 0, buf, Zero()), 16, 16);
    assert meant[0] == 0;
    RepliesDiffer(got, meant, 16);
    WriteThenRead(aes, iv, buf);
  }

  lemma RepliesDiffer(a: seq<bv8>, b: seq<bv8>, n: nat)
    requires a != [] && b != [] && n > 0 && a[0] != b[0]
    ensures [Reply(a, Some(n))] != [Reply(b, Some(n))]
  {
    assert Moved(a, Some(n))[0] != Moved(b, Some(n))[0];
  }

  lemma WriteThenRead(aes: Cipher, iv: Block, buf: seq<bv8>)
    ensures CipherRun(aes, iv, [], WholeRun(buf)).1
         == [Reply(Handled(aes, iv, 16, Pread(Pwrite([], 0, Handled(aes, iv, 0, buf, true), Zero()), 16, 16), true), Some(16))]
    ensures PlainRun([], WholeRun(buf)).1 == [Reply(Pread(Pwrite([], 0, buf, Zero()), 16, 16), Some(16))]
  {
    var ops := WholeRun(buf);
    assert ops[1..] == [Read(16, 16, Some(16))] && ops[1..][1..] == [] && Moved(buf, Some(|buf|)) == buf;
    var disk := Pwrite([], 0, Handled(aes, iv, 0, buf, true), Zero());
    assert CipherRun(aes, iv, disk, []) == (disk, []);
    var file := Pwrite([], 0, buf, Zero());
    assert PlainRun(file, []) == (file, []);
  }

  lemma LastCounter(iv: Block)
    requires forall i :: 0 <= i < 8 ==> iv[i] == 0
    requires forall i :: 8 <= i < 16 ==> iv[i] == 255
    ensures CounterAt(iv, 0, 16) == TWO_64 && CounterAt(iv, 16, 16) == 0 && Limit(iv) == 16
  {
    AllOnes(iv[8..]);
    AllZeros(iv[..8]);
    WordSizes();
  }

  lemma {:induction false} AllOnes(s: seq<Byte>)
    requires forall i :: 0 <= i < |s| ==> s[i] == 255
    ensures Value(s) == Pow256(|s|) - 1
  {
    if s != [] {
      AllOnes(s[..|s| - 1]);
    }
  }

  lemma {:induction false} AllZeros(s: seq<Byte>)
    requires forall i :: 0 <= i < |s| ==> s[i] == 0
    ensures Value(s) == 0
  {
    if s != [] {
      AllZeros(s[..|s| - 1]);
    }
  }
}
