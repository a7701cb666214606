/** Writing the parts of a sequence into the output buffer, with the overshooting stores
    of the encoder.  `limit` bounds every store. */
module Lz4Emit {
  import opened Bytes
  import opened Lz4Format
  import opened Lz4Copy

  /** An extension is 255s followed by the remainder. */
  lemma {:induction false} ExtensionShape(w: Buffer, k: nat)
    requires |w| == k / 255 + 1 && w[k / 255] == k % 255
    requires forall i :: 0 <= i < k / 255 ==> w[i] == 255
    ensures w == ExtBytes(k)
    decreases k
  {
    if k >= 255 {
      ExtensionShape(w[1..], k - 255);
      assert w == [255] + w[1..];
    }
  }

  lemma {:induction false} ExtensionWritten(before: Buffer, after: Buffer, op0: nat, op: nat, k: nat)
    requires op0 <= |before| && op0 <= op <= |after| && op == op0 + k / 255 + 1 && before[..op0] == after[..op0]
    requires after[op - 1] == k % 255 && forall i :: op0 <= i < op - 1 ==> after[i] == 255
    ensures after[..op] == before[..op0] + ExtBytes(k)
  {
    ExtensionShape(after[op0..op], k);
    assert after[..op] == after[..op0] + after[op0..op];
  }

  /** The literal-length extension: one byte at a time. */
  method WriteExtension(dst: array<byte>, op0: nat, k: nat, limit: nat) returns (op: nat)
    requires op0 + |ExtBytes(k)| <= limit <= dst.Length
    modifies dst
    ensures op == op0 + |ExtBytes(k)| && dst[..op] == old(dst[..op0]) + ExtBytes(k)
    ensures forall i :: limit <= i < dst.Length ==> dst[i] == old(dst[i])
  {
    ghost var before := dst[..];
    var len: nat := k;
    op := op0;
    while len >= 255
      invariant op0 <= op <= op0 + k / 255 && k == len + 255 * (op - op0)
      invariant forall i :: op0 <= i < op ==> dst[i] == 255
      invariant forall i :: 0 <= i < op0 || limit <= i < dst.Length ==> dst[i] == before[i]
    {
      dst[op] := 255;
      op, len := op + 1, len - 255;
    }
    dst[op] := len;
    op := op + 1;
    ExtensionWritten(before, dst[..], op0, op, k);
  }

  /** Token, literal-length extension and literals; the match nibble is still 0. */
  method EmitLiterals(dst: array<byte>, token: nat, mem: Buffer, anchor: nat, ip: nat, limit: nat) returns (op: nat)
    requires anchor <= ip && ip + 8 <= |mem| && limit <= dst.Length
    requires token + 1 + |Ext(ip - anchor)| + 8 <= limit && token + 1 + |Ext(ip - anchor)| + (ip - anchor) + 7 <= limit
    modifies dst
    ensures op == token + 1 + |Ext(ip - anchor)| + (ip - anchor)
    ensures dst[..op] == old(dst[..token]) + LiteralPart(Nibble(ip - anchor) * 16, mem[anchor..ip])
    ensures forall i :: limit <= i < dst.Length ==> dst[i] == old(dst[i])
  {
    ghost var before := dst[..token];
    op := EmitRun(dst, token, ip - anchor, limit);
    ghost var head := dst[..op];
    WildCopy8(dst, op, mem, anchor, op + (ip - anchor), limit);
    assert dst[..op] == head;
    assert dst[..op + (ip - anchor)] == dst[..op] + dst[op..op + (ip - anchor)];
    op := op + (ip - anchor);
    Concat3(before, [Nibble(ip - anchor) * 16] + Ext(ip - anchor), mem[anchor..ip]);
  }

  lemma {:induction false} Concat3(a: Buffer, b: Buffer, c: Buffer)
    ensures a + b + c == a + (b + c)
  {}

  /** A token with its literal-length extension. */
  method EmitRun(dst: array<byte>, token: nat, n: nat, limit: nat) returns (op: nat)
    requires token + 1 + |Ext(n)| <= limit <= dst.Length
    modifies dst
    ensures op == token + 1 + |Ext(n)|
    ensures dst[..op] == old(dst[..token]) + ([Nibble(n) * 16] + Ext(n))
    ensures forall i :: limit <= i < dst.Length ==> dst[i] == old(dst[i])
  {
    ghost var before := dst[..token];
    op := token + 1;
    if n >= RUN_MASK {
      dst[token] := RUN_MASK * 16;
      assert dst[..op] == before + [240];
      op := WriteExtension(dst, op, n - RUN_MASK, limit);
      Concat3(before, [240], ExtBytes(n - 15));
    } else {
      dst[token] := n * 16;
      assert dst[..op] == before + [n * 16];
    }
  }

  /** The last literals of a block, copied exactly. */
  method EmitLast(dst: array<byte>, token: nat, mem: Buffer, anchor: nat, n: nat, limit: nat) returns (op: nat)
    requires anchor + n <= |mem| && token + |WriteLast(mem[anchor..anchor + n])| <= limit <= dst.Length
    modifies dst
    ensures op == token + |WriteLast(mem[anchor..anchor + n])|
    ensures dst[..op] == old(dst[..token]) + WriteLast(mem[anchor..anchor + n])
    ensures forall i :: limit <= i < dst.Length ==> dst[i] == old(dst[i])
  {
    ghost var before, lits := dst[..token], mem[anchor..anchor + n];
    op := EmitRun(dst, token, n, limit);
    ghost var head := dst[..op];
    Memcpy(dst, op, mem, anchor, n);
    op := op + n;
    assert dst[..op] == head + lits;
    Concat3(before, [Nibble(n) * 16] + Ext(n), lits);
  }

  // ---------------------------------------------------------------- matches

  /** The match-length extension: four bytes of 255 at a time, then the position is set back. */
  method WriteFill(dst: array<byte>, op0: nat, k: nat, limit: nat) returns (op: nat)
    requires op0 + |ExtBytes(k)| + 3 <= limit <= dst.Length
    modifies dst
    ensures op == op0 + |ExtBytes(k)| && dst[..op] == old(dst[..op0]) + ExtBytes(k)
    ensures forall i :: limit <= i < dst.Length ==> dst[i] == old(dst[i])
  {
    ghost var before := dst[..];
    var len: nat := k;
    op := op0;
    Write255s(dst, op);
    while len >= 4 * 255
      invariant op0 <= op <= op0 + k / 255 && k == len + 255 * (op - op0)
      invariant forall i :: op0 <= i < op + 4 ==> dst[i] == 255
      invariant forall i :: 0 <= i < op0 || limit <= i < dst.Length ==> dst[i] == before[i]
    {
      op, len := op + 4, len - 4 * 255;
      Write255s(dst, op);
    }
    op := op + len / 255;
    dst[op] := len % 255;
    op := op + 1;
    ExtensionWritten(before, dst[..], op0, op, k);
  }

  method Write255s(dst: array<byte>, op: nat)
    requires op + 4 <= dst.Length
    modifies dst
    ensures forall i :: op <= i < op + 4 ==> dst[i] == 255
    ensures forall i :: 0 <= i < op || op + 4 <= i < dst.Length ==> dst[i] == old(dst[i])
  {
    dst[op], dst[op + 1], dst[op + 2], dst[op + 3] := 255, 255, 255, 255;
  }

  method EmitOffset(dst: array<byte>, op0: nat, offset: nat, limit: nat) returns (op: nat)
    requires offset <= DISTANCE_MAX && op0 + 2 <= limit <= dst.Length
    modifies dst
    ensures op == op0 + 2 && dst[..op] == old(dst[..op0]) + [offset % 256, offset / 256]
    ensures forall i :: limit <= i < dst.Length ==> dst[i] == old(dst[i])
  {
    dst[op0], dst[op0 + 1] := offset % 256, offset / 256;
    op := op0 + 2;
  }

  /** Everything of a sequence up to its match-length extension, with a given token. */
  function Head(s: Sequence, token: byte): (r: Buffer)
    requires ValidSequence(s)
    ensures |r| == 1 + |Ext(|s.literals|)| + |s.literals| + 2 && r[0] == token
  {
    LiteralPart(token, s.literals) + [s.offset % 256, s.offset / 256]
  }

  lemma {:induction false} PatchToken(before: Buffer, s: Sequence, t0: byte, t1: byte)
    requires ValidSequence(s)
    ensures (before + Head(s, t0))[|before| := t1] == before + Head(s, t1)
  {
    var a, b := (before + Head(s, t0))[|before| := t1], before + Head(s, t1);
    forall i | 0 <= i < |a| ensures a[i] == b[i] {}
  }

  lemma {:induction false} SequenceWhole(before: Buffer, s: Sequence)
    requires ValidSequence(s)
    ensures before + Head(s, Token(s)) + Ext(s.length - MINMATCH) == before + WriteSequence(s)
  {
    hide Token, Ext;
    var part, off, ext := LiteralPart(Token(s), s.literals), [s.offset % 256, s.offset / 256], Ext(s.length - MINMATCH);
    assert part + off + ext == part + (off + ext);
    Concat3(before, part + off, ext);
  }

  /** The match nibble into the token, then the extension. */
  method EmitMatchLength(dst: array<byte>, token: nat, op0: nat, matchCode: nat, limit: nat,
                         ghost before: Buffer, ghost s: Sequence)
    returns (op: nat)
    requires ValidSequence(s) && s.length == matchCode + MINMATCH && token == |before|
    requires op0 <= limit <= dst.Length && (matchCode >= ML_MASK ==> op0 + |Ext(matchCode)| + 3 <= limit)
    requires dst[..op0] == before + Head(s, Nibble(|s.literals|) * 16)
    modifies dst
    ensures op == op0 + |Ext(matchCode)| && dst[..op] == before + WriteSequence(s)
    ensures forall i :: limit <= i < dst.Length ==> dst[i] == old(dst[i])
  {
    hide WriteSequence;
    PatchToken(before, s, Nibble(|s.literals|) * 16, Token(s));
    SequenceWhole(before, s);
    HeadToken(dst, before, s, op0);
    dst[token] := dst[token] + Nibble(matchCode);
    op := op0;
    assert dst[..op] == before + Head(s, Token(s));
    if matchCode >= ML_MASK {
      op := WriteFill(dst, op, matchCode - ML_MASK, limit);
    }
  }

  lemma {:induction false} HeadToken(dst: array<byte>, before: Buffer, s: Sequence, op0: nat)
    requires ValidSequence(s) && op0 <= dst.Length && dst[..op0] == before + Head(s, Nibble(|s.literals|) * 16)
    ensures |before| < op0 && dst[|before|] == Nibble(|s.literals|) * 16
    ensures Nibble(|s.literals|) * 16 + Nibble(s.length - MINMATCH) == Token(s)
  {
    assert dst[|before|] == dst[..op0][|before|];
  }
}
