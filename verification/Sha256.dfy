/** SHA-256 as the login proof computes it: the definition of FIPS 180-4 and the streaming
    class MsgSha256, for messages fed in any number of pieces. */
module Sha256 {
  import opened Endian

  type octet = bv8
  type word = bv32

  // ---------------------------------------------------------------- FIPS 180-4

  function Rotr(x: word, n: bv6): word
    requires 0 < n < 32
  {
    (x >> n) | (x << (32 - n))
  }

  function Add(x: word, y: word): word { x + y }
  function Ch(x: word, y: word, z: word): word { (x & y) ^ (!x & z) }
  function Maj(x: word, y: word, z: word): word { (x & y) ^ (x & z) ^ (y & z) }
  function Ep0(x: word): word { Rotr(x, 2) ^ Rotr(x, 13) ^ Rotr(x, 22) }
  function Ep1(x: word): word { Rotr(x, 6) ^ Rotr(x, 11) ^ Rotr(x, 25) }
  function Sig0(x: word): word { Rotr(x, 7) ^ Rotr(x, 18) ^ (x >> 3) }
  function Sig1(x: word): word { Rotr(x, 17) ^ Rotr(x, 19) ^ (x >> 10) }

  /** Section 4.2.2. */
  const K0: seq<word> := [
    0x428a2f98, 0x71374491, 0xb5c0fbcf, 0xe9b5dba5, 0x3956c25b, 0x59f111f1, 0x923f82a4, 0xab1c5ed5,
    0xd807aa98, 0x12835b01, 0x243185be, 0x550c7dc3, 0x72be5d74, 0x80deb1fe, 0x9bdc06a7, 0xc19bf174]
  const K1: seq<word> := [
    0xe49b69c1, 0xefbe4786, 0x0fc19dc6, 0x240ca1cc, 0x2de92c6f, 0x4a7484aa, 0x5cb0a9dc, 0x76f988da,
    0x983e5152, 0xa831c66d, 0xb00327c8, 0xbf597fc7, 0xc6e00bf3, 0xd5a79147, 0x06ca6351, 0x14292967]
  const K2: seq<word> := [
    0x27b70a85, 0x2e1b2138, 0x4d2c6dfc, 0x53380d13, 0x650a7354, 0x766a0abb, 0x81c2c92e, 0x92722c85,
    0xa2bfe8a1, 0xa81a664b, 0xc24b8b70, 0xc76c51a3, 0xd192e819, 0xd6990624, 0xf40e3585, 0x106aa070]
  const K3: seq<word> := [
    0x19a4c116, 0x1e376c08, 0x2748774c, 0x34b0bcb5, 0x391c0cb3, 0x4ed8aa4a, 0x5b9cca4f, 0x682e6ff3,
    0x748f82ee, 0x78a5636f, 0x84c87814, 0x8cc70208, 0x90befffa, 0xa4506ceb, 0xbef9a3f7, 0xc67178f2]
  const K := K0 + K1 + K2 + K3

  datatype Hash = Hash(a: word, b: word, c: word, d: word, e: word, f: word, g: word, h: word)

  /** Section 5.3.3. */
  function H0(): Hash {
    Hash(0x6a09e667, 0xbb67ae85, 0x3c6ef372, 0xa54ff53a, 0x510e527f, 0x9b05688c, 0x1f83d9ab, 0x5be0cd19)
  }

  /** Section 5.2.1: 32-bit word t of a 64-byte block, big-endian. */
  function BlockWord(block: seq<octet>, t: nat): word
    requires |block| == 64 && t < 16
  {
    ((block[4 * t] as word) << 24) | ((block[4 * t + 1] as word) << 16) |
    ((block[4 * t + 2] as word) << 8) | (block[4 * t + 3] as word)
  }

  /** Section 6.2.2, step 1: the message schedule. */
  function Schedule(block: seq<octet>, t: nat): word
    requires |block| == 64 && t < 64
  {
    if t < 16 then BlockWord(block, t)
    else Add(Add(Add(Sig1(Schedule(block, t - 2)), Schedule(block, t - 7)), Sig0(Schedule(block, t - 15))),
             Schedule(block, t - 16))
  }

  /** Section 6.2.2, step 3: one round. */
  function Round(s: Hash, k: word, w: word): Hash {
    var t1 := Add(Add(Add(Add(s.h, Ep1(s.e)), Ch(s.e, s.f, s.g)), k), w);
    var t2 := Add(Ep0(s.a), Maj(s.a, s.b, s.c));
    Hash(Add(t1, t2), s.a, s.b, s.c, Add(s.d, t1), s.e, s.f, s.g)
  }

  function Rounds(s: Hash, block: seq<octet>, n: nat): Hash
    requires |block| == 64 && n <= 64
  {
    if n == 0 then s else Round(Rounds(s, block, n - 1), K[n - 1], Schedule(block, n - 1))
  }

  /** Section 6.2.2, step 4. */
  function Plus(s: Hash, t: Hash): Hash {
    Hash(Add(s.a, t.a), Add(s.b, t.b), Add(s.c, t.c), Add(s.d, t.d),
         Add(s.e, t.e), Add(s.f, t.f), Add(s.g, t.g), Add(s.h, t.h))
  }

  function Compress(s: Hash, block: seq<octet>): Hash
    requires |block| == 64
  {
    Plus(s, Rounds(s, block, 64))
  }

  /** Section 6.2: all blocks in order. */
  function Absorb(data: seq<octet>): Hash
    requires |data| % 64 == 0
  {
    if |data| == 0 then H0() else Compress(Absorb(data[..|data| - 64]), data[|data| - 64..])
  }

  function Zeros(n: nat): (z: seq<octet>)
    ensures |z| == n && forall i :: 0 <= i < n ==> z[i] == 0
  {
    seq(n, _ => 0 as octet)
  }

  const TWO64 := 0x1_0000_0000_0000_0000

  function LengthByte(bits: nat, shift: nat): octet { (bits / Pow256(shift) % 256) as octet }

  /** The 64-bit big-endian length. */
  function LengthField(bits: nat): (f: seq<octet>)
    ensures |f| == 8
  {
    seq(8, i requires 0 <= i < 8 => LengthByte(bits, 7 - i))
  }

  lemma {:induction false} PadLength(n: nat)
    ensures (n + 1 + (55 - n) % 64 + 8) % 64 == 0
  {
    var q, r := (55 - n) / 64, (55 - n) % 64;
    assert n + 1 + r + 8 == 64 * (1 - q);
  }

  /** Section 5.1.1: a 1 bit, the fewest zeros that leave room for the length, the length. */
  function Pad(message: seq<octet>): (p: seq<octet>)
    ensures |p| % 64 == 0
  {
    PadLength(|message|);
    message + [0x80] + Zeros((55 - |message|) % 64) + LengthField(8 * |message| % TWO64)
  }

  function WordByte(w: word, i: nat): octet
    requires i < 4
  {
    ((w >> (24 - 8 * i)) & 0xff) as octet
  }

  function WordBytes(w: word): (bytes: seq<octet>)
    ensures |bytes| == 4
  {
    [WordByte(w, 0), WordByte(w, 1), WordByte(w, 2), WordByte(w, 3)]
  }

  /** H(i) of section 6.2.2. */
  function Word(s: Hash, i: nat): word
    requires i < 8
  {
    match i
    case 0 => s.a
    case 1 => s.b
    case 2 => s.c
    case 3 => s.d
    case 4 => s.e
    case 5 => s.f
    case 6 => s.g
    case _ => s.h
  }

  function HashBytes(s: Hash): (bytes: seq<octet>)
    ensures |bytes| == 32
  {
    seq(32, i requires 0 <= i < 32 => WordByte(Word(s, i / 4), i % 4))
  }

  lemma {:induction false} HashBytesGrow(s: Hash, i: nat)
    requires i < 8
    ensures HashBytes(s)[..4 * (i + 1)] == HashBytes(s)[..4 * i] + WordBytes(Word(s, i))
  {
    hide WordByte, Word;
    assert (4 * i) / 4 == (4 * i + 1) / 4 == (4 * i + 2) / 4 == (4 * i + 3) / 4 == i;
  }

  function Digest(message: seq<octet>): seq<octet> { HashBytes(Absorb(Pad(message))) }

  // ---------------------------------------------------------------- padding, block by block

  /** What finalize leaves in the buffer when the length still fits. */
  function LastBlock(tail: seq<octet>, bits: nat): (b: seq<octet>)
    requires |tail| <= 55
    ensures |b| == 64
  {
    tail + [0x80] + Zeros(55 - |tail|) + LengthField(bits)
  }

  /** The two blocks when it does not. */
  function SpillBlock(tail: seq<octet>): (b: seq<octet>)
    requires 56 <= |tail| < 64
    ensures |b| == 64
  {
    tail + [0x80] + Zeros(63 - |tail|)
  }

  function LengthBlock(bits: nat): (b: seq<octet>)
    ensures |b| == 64
  {
    Zeros(56) + LengthField(bits)
  }

  lemma {:induction false} AbsorbBlock(data: seq<octet>, block: seq<octet>)
    requires |data| % 64 == 0 && |block| == 64
    ensures |data + block| % 64 == 0 && Absorb(data + block) == Compress(Absorb(data), block)
  {
    hide Compress;
    assert (data + block)[..|data|] == data && (data + block)[|data|..] == block;
  }

  lemma {:induction false} PadShort(head: seq<octet>, tail: seq<octet>)
    requires |head| % 64 == 0 && |tail| <= 55
    ensures Absorb(Pad(head + tail)) == Compress(Absorb(head), LastBlock(tail, 8 * |head + tail| % TWO64))
  {
    hide Compress, LengthField, Absorb, LastBlock;
    var m := head + tail;
    assert Pad(m) == head + LastBlock(tail, 8 * |m| % TWO64) by { PadShortBytes(head, tail); }
    AbsorbBlock(head, LastBlock(tail, 8 * |m| % TWO64));
  }

  lemma {:induction false} PadShortBytes(head: seq<octet>, tail: seq<octet>)
    requires |head| % 64 == 0 && |tail| <= 55
    ensures Pad(head + tail) == head + LastBlock(tail, 8 * |head + tail| % TWO64)
  {
    hide LengthField;
    assert (55 - |head + tail|) % 64 == 55 - |tail|;
  }

  lemma {:induction false} PadLong(head: seq<octet>, tail: seq<octet>)
    requires |head| % 64 == 0 && 56 <= |tail| < 64
    ensures Absorb(Pad(head + tail)) ==
            Compress(Compress(Absorb(head), SpillBlock(tail)), LengthBlock(8 * |head + tail| % TWO64))
  {
    hide Compress, LengthField, Absorb;
    var m := head + tail;
    var first, second := SpillBlock(tail), LengthBlock(8 * |m| % TWO64);
    assert (55 - |m|) % 64 == 119 - |tail|;
    assert Zeros(119 - |tail|) == Zeros(63 - |tail|) + Zeros(56);
    assert Pad(m) == (head + first) + second;
    AbsorbBlock(head, first);
    AbsorbBlock(head + first, second);
  }

  lemma {:induction false} AbsorbNothing()
    ensures Absorb([]) == H0()
  {}

  // ---------------------------------------------------------------- the class

  class MsgSha256 {
    const data: array<octet>
    const h: array<word>
    var len: nat
    var totLen: nat
    ghost var consumed: seq<octet>  // every byte fed since the last reset

    function State(): Hash
      requires h.Length == 8
      reads h
    {
      Hash(h[0], h[1], h[2], h[3], h[4], h[5], h[6], h[7])
    }

    ghost predicate Shaped()
    {
      data.Length == 64 && h.Length == 8
    }

    ghost predicate Valid()
      reads this, data, h
    {
      Shaped() && len < 64 && len <= |consumed| && (|consumed| - len) % 64 == 0 &&
      data[..len] == consumed[|consumed| - len..] &&
      State() == Absorb(consumed[..|consumed| - len]) &&
      totLen == 8 * (|consumed| - len) % TWO64
    }

    constructor ()
      ensures Valid() && consumed == [] && fresh(data) && fresh(h)
    {
      data := new octet[64];
      h := new word[8];
      new;
      Reset();
    }

    method Reset()
      requires Shaped()
      modifies this, h
      ensures Valid() && consumed == []
    {
      hide Absorb, H0, State;
      AbsorbNothing();
      len, totLen, consumed := 0, 0, [];
      assert consumed[..0] == [] && data[..0] == [];
      PutState(H0());
      assert State() == Absorb(consumed[..|consumed| - len]);
      assert totLen == 8 * (|consumed| - len) % TWO64;
    }

    method PutState(s: Hash)
      requires Shaped()
      modifies h
      ensures State() == s
    {
      hide H0;
      h[0], h[1], h[2], h[3] := s.a, s.b, s.c, s.d;
      h[4], h[5], h[6], h[7] := s.e, s.f, s.g, s.h;
    }

    method Update(bytes: seq<octet>)
      requires Valid()
      modifies this, data, h
      ensures Valid() && consumed == old(consumed) + bytes
    {
      hide Absorb, Compress, TWO64;
      for i := 0 to |bytes|
        invariant Valid() && consumed == old(consumed) + bytes[..i]
      {
        Take(bytes[i]);
        assert bytes[..i + 1] == bytes[..i] + [bytes[i]];
      }
    }

    /** One turn of the loop of update. */
    method Take(b: octet)
      requires Valid()
      modifies this, data, h
      ensures Valid() && consumed == old(consumed) + [b]
    {
      hide Absorb, Compress;
      ghost var head, tail := consumed[..|consumed| - len], consumed[|consumed| - len..];
      data[len] := b;
      len := len + 1;
      consumed := consumed + [b];
      assert data[..len] == tail + [b];
      assert consumed == head + (tail + [b]);
      if len == 64 {
        assert data[..] == tail + [b];
        FlushBlock(head, tail + [b]);
      }
    }

    /** A full buffer is transformed and counted. */
    method FlushBlock(ghost head: seq<octet>, ghost block: seq<octet>)
      requires Shaped() && len == 64 && data[..] == block && |head| % 64 == 0 && consumed == head + block
      requires State() == Absorb(head) && totLen == 8 * |head| % TWO64
      modifies this`len, this`totLen, h
      ensures Valid()
    {
      hide Absorb, Compress;
      Transform();
      AbsorbBlock(head, block);
      totLen := (totLen + 512) % TWO64;
      len := 0;
      assert consumed[..|consumed|] == consumed && data[..0] == [];
    }

    method Finalize(hash: array<octet>)
      requires Valid() && hash.Length == 32 && hash != data
      modifies this, data, h, hash
      ensures hash[..] == Digest(old(consumed))
    {
      hide Absorb, Compress, Pad, LengthField, WordByte;
      hide HashBytes;
      ghost var message := consumed;
      ghost var head, tail := consumed[..|consumed| - len], consumed[|consumed| - len..];
      assert head + tail == message;
      var totalBits := (totLen + len * 8) % TWO64;
      PadAndTransform(head, tail, totalBits);
      PutHash(hash);
    }

    /** The digest bytes, most significant first. */
    method PutHash(hash: array<octet>)
      requires Shaped() && hash.Length == 32
      modifies hash
      ensures hash[..] == HashBytes(State())
    {
      hide WordByte, HashBytes;
      ghost var s := State();
      for i := 0 to 8
        invariant State() == s && hash[..4 * i] == HashBytes(s)[..4 * i]
      {
        ghost var done := hash[..4 * i];
        HashBytesGrow(s, i);
        assert h[i] == Word(s, i);
        hash[i * 4], hash[i * 4 + 1] := WordByte(h[i], 0), WordByte(h[i], 1);
        hash[i * 4 + 2], hash[i * 4 + 3] := WordByte(h[i], 2), WordByte(h[i], 3);
        assert hash[..4 * (i + 1)] == done + WordBytes(h[i]);
      }
    }

    /** The padding part of finalize: it may take one or two blocks. */
    method PadAndTransform(ghost head: seq<octet>, ghost tail: seq<octet>, totalBits: nat)
      requires Shaped() && len == |tail| < 64 && data[..len] == tail
      requires |head| % 64 == 0 && State() == Absorb(head) && totalBits == 8 * |head + tail| % TWO64
      modifies this, data, h
      ensures State() == Absorb(Pad(head + tail))
    {
      hide Absorb, Compress, Pad, LengthField;
      data[len] := 0x80;
      len := len + 1;
      if len > 56 {
        SpillTransform(tail);
        PadLong(head, tail);
        assert data[..len] == [];
        assert data[..len] + Zeros(56 - len) + LengthField(totalBits) == LengthBlock(totalBits);
      } else {
        PadShort(head, tail);
        assert data[..len] == tail + [0x80];
        assert data[..len] + Zeros(56 - len) + LengthField(totalBits) == LastBlock(tail, totalBits);
      }
      LastTransform(totalBits);
    }

    /** No room for the length: the block is filled up and transformed. */
    method SpillTransform(ghost tail: seq<octet>)
      requires Shaped() && 56 <= |tail| < 64 && len == |tail| + 1 && data[..len] == tail + [0x80]
      modifies this`len, data, h
      ensures len == 0 && State() == Compress(old(State()), SpillBlock(tail))
    {
      hide Compress;
      FillZeros(64);
      assert data[..] == SpillBlock(tail);
      Transform();
      len := 0;
    }

    /** Zeros up to byte 56, the length, and the last transform. */
    method LastTransform(totalBits: nat)
      requires Shaped() && len <= 56
      modifies this`len, data, h
      ensures State() == Compress(old(State()), old(data[..len]) + Zeros(56 - old(len)) + LengthField(totalBits))
    {
      hide Compress, LengthField;
      ghost var kept := data[..len];
      FillZeros(56);
      assert data[..56] == kept + Zeros(56 - |kept|);
      PutLength(totalBits);
      assert data[..] == data[..56] + data[56..];
      Transform();
    }

    method FillZeros(limit: nat)
      requires Shaped() && len <= limit <= 64
      modifies this`len, data
      ensures len == limit && data[..limit] == old(data[..len]) + Zeros(limit - old(len))
    {
      while len < limit
        invariant old(len) <= len <= limit
        invariant forall i :: 0 <= i < old(len) ==> data[i] == old(data[i])
        invariant forall i :: old(len) <= i < len ==> data[i] == 0
      {
        data[len] := 0;
        len := len + 1;
      }
    }

    /** The 64-bit big-endian length into the last eight bytes. */
    method PutLength(totalBits: nat)
      requires Shaped() && len == 56
      modifies this`len, data
      ensures data[..56] == old(data[..56]) && data[56..] == LengthField(totalBits)
    {
      hide LengthByte;
      var i := 7;
      while i >= 0
        invariant -1 <= i <= 7 && len == 63 - i
        invariant forall k :: 0 <= k < 56 ==> data[k] == old(data[k])
        invariant forall k :: 56 <= k < len ==> data[k] == LengthByte(totalBits, 63 - k)
      {
        data[len] := LengthByte(totalBits, i);
        len := len + 1;
        i := i - 1;
      }
    }

    method Transform()
      requires Shaped()
      modifies h
      ensures State() == Compress(old(State()), data[..])
    {
      hide Round, Schedule, Add;
      var w := MessageSchedule();
      ghost var block := data[..];
      var s := State();
      for i := 0 to 64
        invariant s == Rounds(old(State()), block, i)
        invariant State() == old(State()) && forall t :: 0 <= t < 64 ==> w[t] == Schedule(block, t)
      {
        s := RoundStep(s, K[i], w[i]);
        assert Rounds(old(State()), block, i + 1) == Round(Rounds(old(State()), block, i), K[i], w[i]);
      }
      h[0], h[1], h[2], h[3] := Add(h[0], s.a), Add(h[1], s.b), Add(h[2], s.c), Add(h[3], s.d);
      h[4], h[5], h[6], h[7] := Add(h[4], s.e), Add(h[5], s.f), Add(h[6], s.g), Add(h[7], s.h);
    }

    /** The body of the round loop, on the eight working variables. */
    static method RoundStep(s: Hash, k: word, w: word) returns (r: Hash)
      ensures r == Round(s, k, w)
    {
      hide Add, Ep0, Ep1, Ch, Maj;
      var a, b, c, d, e, f, g, h := s.a, s.b, s.c, s.d, s.e, s.f, s.g, s.h;
      var t1 := Add(Add(Add(Add(h, Ep1(e)), Ch(e, f, g)), k), w);
      var t2 := Add(Ep0(a), Maj(a, b, c));
      h := g; g := f; f := e; e := Add(d, t1);
      d := c; c := b; b := a; a := Add(t1, t2);
      r := Hash(a, b, c, d, e, f, g, h);
    }

    method MessageSchedule() returns (w: array<word>)
      requires Shaped()
      ensures fresh(w) && w.Length == 64
      ensures forall t :: 0 <= t < 64 ==> w[t] == Schedule(data[..], t)
    {
      hide Add, Sig0, Sig1, BlockWord;
      w := new word[64];
      ghost var block := data[..];
      for i := 0 to 16
        invariant forall t :: 0 <= t < i ==> w[t] == Schedule(block, t)
      {
        w[i] := WordAt(i);
      }
      for i := 16 to 64
        invariant forall t :: 0 <= t < i ==> w[t] == Schedule(block, t)
      {
        w[i] := Add(Add(Add(Sig1(w[i - 2]), w[i - 7]), Sig0(w[i - 15])), w[i - 16]);
      }
    }

    function WordAt(i: nat): (r: word)
      requires Shaped() && i < 16
      reads data
      ensures r == BlockWord(data[..], i)
    {
      ((data[i * 4] as word) << 24) | ((data[i * 4 + 1] as word) << 16) |
      ((data[i * 4 + 2] as word) << 8) | (data[i * 4 + 3] as word)
    }
  }

  function Concat(pieces: seq<seq<octet>>): seq<octet> {
    if pieces == [] then [] else Concat(pieces[..|pieces| - 1]) + pieces[|pieces| - 1]
  }

  /** However a message is cut into update calls, the digest is that of FIPS 180-4. */
  method DigestOfPieces(pieces: seq<seq<octet>>) returns (digest: seq<octet>)
    ensures digest == Digest(Concat(pieces))
  {
    var s := new MsgSha256();
    for i := 0 to |pieces|
      invariant s.Valid() && s.consumed == Concat(pieces[..i])
      invariant fresh(s) && fresh(s.data) && fresh(s.h)
    {
      s.Update(pieces[i]);
      assert pieces[..i + 1][..i] == pieces[..i];
    }
    assert pieces[..|pieces|] == pieces;
    var hash := new octet[32];
    s.Finalize(hash);
    digest := hash[..];
  }
}
