/** The copy primitives of the codec.  All of them may write past the requested end (never
    past `limit`); what they promise is the bytes below the end and that nothing before
    the start changed. */
module Lz4Copy {
  import opened Bytes
  import opened Lz4Format

  /** What a match of the given offset looks like once written to a[lo..hi]. */
  ghost predicate IsMatch(a: Buffer, lo: nat, hi: nat, offset: nat)
    requires hi <= |a| && offset <= lo
  {
    if offset == 0 then forall k {:trigger a[k]} :: lo <= k < hi ==> a[k] == 0
    else Repeats(a, lo, hi, offset)
  }

  /** ... which is the byte-at-a-time copy of the format. */
  lemma {:induction false} MatchIsCopy(before: Buffer, after: Buffer, lo: nat, hi: nat, offset: nat)
    requires lo <= hi <= |after| && lo <= |before| && offset <= lo
    requires before[..lo] == after[..lo] && IsMatch(after, lo, hi, offset)
    ensures after[..hi] == CopyMatch(before[..lo], offset, hi - lo)
  {
    forall k | lo <= k < hi ensures CopiedAt(after[..hi], k, offset) {
      assert offset != 0 ==> RepeatsAt(after, k, offset);
    }
    CopyMatchUnique(before[..lo], offset, hi - lo, after[..hi]);
  }

  /** Stepping back m times by `offset`. */
  lemma {:induction false} StepBack(a: Buffer, lo: nat, hi: nat, offset: nat, i: nat, m: nat)
    requires 0 < offset <= lo && hi <= |a| && Repeats(a, lo, hi, offset)
    requires i < hi && lo <= i - m * offset + offset
    ensures 0 <= i - m * offset && a[i] == a[i - m * offset]
    decreases m
  {
    if m > 0 {
      assert RepeatsAt(a, i, offset);
      assert m * offset == (m - 1) * offset + offset;
      assert (m - 1) * offset >= 0;
      StepBack(a, lo, hi, offset, i - offset, m - 1);
    }
  }

  /** A run that repeats at a multiple of its period repeats at the period. */
  lemma {:induction false} PeriodOfMultiple(a: Buffer, lo: nat, mid: nat, hi: nat, offset: nat, m: nat, delta: nat)
    requires 0 < offset <= lo <= mid && m > 0 && offset <= delta == m * offset && delta <= mid &&
      lo <= mid - delta + offset
    requires mid <= hi <= |a| && Repeats(a, lo, mid, offset) && Repeats(a, mid, hi, delta)
    ensures Repeats(a, lo, hi, offset)
    decreases hi - mid
  {
    if mid < hi {
      assert RepeatsAt(a, mid, delta);
      var back := (m - 1) * offset;
      assert back == delta - offset;
      StepBack(a, lo, mid, offset, mid - offset, m - 1);
      assert RepeatsAt(a, mid, offset);
      PeriodOfMultiple(a, lo, mid + 1, hi, offset, m, delta);
    }
  }

  // ---------------------------------------------------------------- fixed-size copies

  method Memcpy(dst: array<byte>, d: nat, src: Buffer, s: nat, n: nat)
    requires d + n <= dst.Length && s + n <= |src|
    modifies dst
    ensures forall k :: 0 <= k < d || d + n <= k < dst.Length ==> dst[k] == old(dst[k])
    ensures forall k :: d <= k < d + n ==> dst[k] == src[k - d + s]
  {
    forall k | d <= k < d + n { dst[k] := src[k - d + s]; }
  }

  /** memcpy inside the output: source and destination do not overlap. */
  method MemcpyWithin(dst: array<byte>, d: nat, s: nat, n: nat)
    requires s + n <= d && d + n <= dst.Length
    modifies dst
    ensures forall k :: 0 <= k < d || d + n <= k < dst.Length ==> dst[k] == old(dst[k])
    ensures forall k :: d <= k < d + n ==> dst[k] == dst[k - (d - s)]
  {
    forall k | d <= k < d + n { dst[k] := dst[k - (d - s)]; }
  }

  // ---------------------------------------------------------------- wild copies

  /** do { copy 8 } while (d < e), from the input block. */
  method WildCopy8(dst: array<byte>, d0: nat, src: Buffer, s0: nat, e: nat, limit: nat)
    requires d0 <= e && e + 7 <= limit <= dst.Length && d0 + 8 <= limit
    requires s0 + 8 <= |src| && s0 + (e - d0) + 7 <= |src|
    modifies dst
    ensures forall k :: 0 <= k < d0 || limit <= k < dst.Length ==> dst[k] == old(dst[k])
    ensures dst[d0..e] == src[s0..s0 + (e - d0)]
  {
    var d, s, more := d0, s0, true;
    while more
      invariant d - s == d0 - s0 && d0 <= d && (more ==> d < e || d == d0) && (!more ==> e <= d) && s <= |src|
      invariant forall k :: 0 <= k < d0 || limit <= k < dst.Length ==> dst[k] == old(dst[k])
      invariant forall k :: d0 <= k < d && k < dst.Length ==> dst[k] == src[k - d0 + s0]
      invariant d <= limit
      decreases more, e + 8 - d
    {
      Memcpy(dst, d, src, s, 8);
      d, s := d + 8, s + 8;
      more := d < e;
    }
  }

  /** The 32-byte variant. */
  method WildCopy32(dst: array<byte>, d0: nat, src: Buffer, s0: nat, e: nat, limit: nat)
    requires d0 <= e && e + 32 <= limit <= dst.Length && s0 + (e - d0) + 32 <= |src|
    modifies dst
    ensures forall k :: 0 <= k < d0 || limit <= k < dst.Length ==> dst[k] == old(dst[k])
    ensures dst[d0..e] == src[s0..s0 + (e - d0)]
  {
    var d, s, more := d0, s0, true;
    while more
      invariant d - s == d0 - s0 && d0 <= d && (more ==> d < e || d == d0) && (!more ==> e <= d) && s <= |src|
      invariant forall k :: 0 <= k < d0 || limit <= k < dst.Length ==> dst[k] == old(dst[k])
      invariant forall k :: d0 <= k < d && k < dst.Length ==> dst[k] == src[k - d0 + s0]
      invariant d <= limit
      decreases more, e + 32 - d
    {
      Memcpy(dst, d, src, s, 16);
      Memcpy(dst, d + 16, src, s + 16, 16);
      d, s := d + 32, s + 32;
      more := d < e;
    }
  }

  /** The 8-byte wild copy inside the output, `delta` >= 8 bytes back. */
  method WildCopy8Within(dst: array<byte>, d0: nat, s0: nat, e: nat, limit: nat)
    requires s0 + 8 <= d0 && e + 7 <= limit <= dst.Length && d0 + 8 <= limit
    modifies dst
    ensures forall k :: 0 <= k < d0 || limit <= k < dst.Length ==> dst[k] == old(dst[k])
    ensures Repeats(dst[..], d0, if d0 + 8 <= e then e else d0 + 8, d0 - s0)
  {
    var d, s, more := d0, s0, true;
    while more
      invariant d - s == d0 - s0 && d0 <= d && (more ==> d < e || d == d0) && (!more ==> e <= d && d0 + 8 <= d)
      invariant forall k :: 0 <= k < d0 || limit <= k < dst.Length ==> dst[k] == old(dst[k])
      invariant forall k :: d0 <= k < d && k < dst.Length ==> dst[k] == dst[k - (d0 - s0)]
      invariant d <= limit
      decreases more, e + 8 - d
    {
      MemcpyWithin(dst, d, s, 8);
      d, s := d + 8, s + 8;
      more := d < e;
    }
  }

  /** The 32-byte wild copy inside the output: two 16-byte copies, so offsets >= 16 work. */
  method WildCopy32Within(dst: array<byte>, d0: nat, s0: nat, e: nat, limit: nat)
    requires s0 + 16 <= d0 <= e && e + 32 <= limit <= dst.Length
    modifies dst
    ensures forall k :: 0 <= k < d0 || limit <= k < dst.Length ==> dst[k] == old(dst[k])
    ensures Repeats(dst[..], d0, e, d0 - s0)
  {
    var d, s, more := d0, s0, true;
    while more
      invariant d - s == d0 - s0 && d0 <= d && (more ==> d < e || d == d0) && (!more ==> e <= d)
      invariant forall k :: 0 <= k < d0 || limit <= k < dst.Length ==> dst[k] == old(dst[k])
      invariant forall k :: d0 <= k < d && k < dst.Length ==> dst[k] == dst[k - (d0 - s0)]
      invariant d <= limit
      decreases more, e + 32 - d
    {
      MemcpyWithin(dst, d, s, 16);
      MemcpyWithin(dst, d + 16, s + 16, 16);
      d, s := d + 32, s + 32;
      more := d < e;
    }
  }

  // ---------------------------------------------------------------- match copies

  const INC32: seq<nat> := [0, 1, 2, 1, 0, 4, 4, 4]
  const DEC64: seq<int> := [0, 0, 0, -1, -4, 1, 2, 3]

  /** The first 4 bytes of a short-offset match, one at a time. */
  method CopyFirst4(dst: array<byte>, op: nat, offset: nat)
    requires offset <= op && offset < 8 && op + 4 <= dst.Length
    modifies dst
    ensures forall k :: 0 <= k < op || op + 4 <= k < dst.Length ==> dst[k] == old(dst[k])
    ensures IsMatch(dst[..], op, op + 4, offset)
  {
    var from := op - offset;
    dst[op], dst[op + 1], dst[op + 2], dst[op + 3] := 0, 0, 0, 0;
    dst[op] := dst[from];
    dst[op + 1] := dst[from + 1];
    dst[op + 2] := dst[from + 2];
    dst[op + 3] := dst[from + 3];
    assert offset > 0 ==> RepeatsAt(dst[..], op, offset) && RepeatsAt(dst[..], op + 1, offset) &&
                          RepeatsAt(dst[..], op + 2, offset) && RepeatsAt(dst[..], op + 3, offset);
  }

  /** Where the second half of the first 8 bytes may be copied from. */
  lemma {:induction false} SecondHalf(a: Buffer, op: nat, offset: nat, k: nat)
    requires 0 < offset < 8 && offset <= op && op + 8 <= |a| && op + 4 <= k < op + 8
    requires IsMatch(a, op, op + 4, offset)
    requires forall j :: op + 4 <= j < op + 8 ==> a[j] == a[j - (4 + offset - INC32[offset])]
    ensures RepeatsAt(a, k, offset)
  {
    if offset <= 4 {
      assert RepeatsAt(a, op, offset) && RepeatsAt(a, op + 1, offset);
      assert RepeatsAt(a, op + 2, offset) && RepeatsAt(a, op + 3, offset);
    }
  }

  /** The first 8 bytes of a match, and the source position from which an 8-byte wild copy
      may continue: a multiple of the offset and at least 8 back. */
  method CopyFirst8(dst: array<byte>, op: nat, offset: nat) returns (from: nat, ghost m: nat)
    requires offset <= op && op + 8 <= dst.Length
    modifies dst
    ensures forall k :: 0 <= k < op || op + 8 <= k < dst.Length ==> dst[k] == old(dst[k])
    ensures IsMatch(dst[..], op, op + 8, offset)
    ensures op - offset <= from <= op && (offset == 0 ==> from == op)
    ensures offset > 0 ==> m > 0 && offset <= op + 8 - from == m * offset
  {
    if offset < 8 {
      CopyFirst4(dst, op, offset);
      from := op - offset + INC32[offset];
      label half:
      MemcpyWithin(dst, op + 4, from, 4);
      from := from - DEC64[offset];
      m := if offset == 0 then 1 else [0, 8, 4, 3, 2, 2, 2, 2][offset];
      MatchKept(old@half(dst[..]), dst[..], op, op + 4, offset);
      if offset > 0 {
        forall k | op + 4 <= k < op + 8 ensures RepeatsAt(dst[..], k, offset) {
          SecondHalf(dst[..], op, offset, k);
        }
      } else {
        forall k | op + 4 <= k < op + 8 ensures dst[..][k] == 0 { assert dst[..][k - 4] == 0; }
      }
    } else {
      MemcpyWithin(dst, op, op - offset, 8);
      from, m := op - offset + 8, 1;
    }
  }

  /** Copying beyond `hi` does not disturb the match below it. */
  lemma {:induction false} MatchKept(a: Buffer, b: Buffer, op: nat, hi: nat, offset: nat)
    requires offset <= op && hi <= |a| == |b| && (forall k :: 0 <= k < hi ==> a[k] == b[k])
    requires IsMatch(a, op, hi, offset)
    ensures IsMatch(b, op, hi, offset)
  {
    forall k | op <= k < hi ensures offset > 0 ==> RepeatsAt(b, k, offset) {
      assert offset > 0 ==> RepeatsAt(a, k, offset);
    }
  }

  /** A match continued by a wild copy from a multiple of its offset is still the match. */
  lemma {:induction false} MatchContinues(a: Buffer, op: nat, mid: nat, hi: nat, offset: nat, m: nat, from: nat)
    requires offset <= op && op + 8 == mid <= hi <= |a| && from + 8 <= mid && op - offset <= from
    requires offset > 0 ==> m > 0 && offset <= mid - from == m * offset
    requires offset == 0 ==> from == op
    requires IsMatch(a, op, mid, offset) && Repeats(a, mid, hi, mid - from)
    ensures IsMatch(a, op, hi, offset)
  {
    if offset == 0 { ZeroRun(a, op, mid, hi); }
    else { PeriodOfMultiple(a, op, mid, hi, offset, m, mid - from); }
  }

  lemma {:induction false} ZeroRun(a: Buffer, op: nat, mid: nat, hi: nat)
    requires op + 8 <= mid <= hi <= |a|
    requires IsMatch(a, op, mid, 0) && Repeats(a, mid, hi, 8)
    ensures IsMatch(a, op, hi, 0)
    decreases hi - mid
  {
    if mid < hi {
      assert RepeatsAt(a, mid, 8) && a[mid - 8] == 0;
      ZeroRun(a, op, mid + 1, hi);
    }
  }

  /** LZ4_memcpy_using_offset_base: the first 8 bytes, then 8 at a time. */
  method MemcpyUsingOffsetBase(dst: array<byte>, op: nat, e: nat, offset: nat, limit: nat)
    requires offset <= op <= e && op + 16 <= limit && e + 7 <= limit <= dst.Length
    modifies dst
    ensures forall k :: 0 <= k < op || limit <= k < dst.Length ==> dst[k] == old(dst[k])
    ensures IsMatch(dst[..], op, e, offset)
  {
    var from, m := CopyFirst8(dst, op, offset);
    label first:
    WildCopy8Within(dst, op + 8, from, e, limit);
    var hi := if op + 16 <= e then e else op + 16;
    MatchKept(old@first(dst[..]), dst[..], op, op + 8, offset);
    MatchContinues(dst[..], op, op + 8, hi, offset, m, from);
    MatchShorter(dst[..], op, e, hi, offset);
  }

  lemma {:induction false} MatchShorter(a: Buffer, op: nat, e: nat, hi: nat, offset: nat)
    requires offset <= op && e <= hi <= |a| && IsMatch(a, op, hi, offset)
    ensures IsMatch(a, op, e, offset)
  {}

  /** Offsets 1, 2 and 4: an 8-byte pattern stored over and over. */
  method CopyPattern(dst: array<byte>, op: nat, e: nat, v: Buffer, limit: nat)
    requires |v| == 8 && op + 8 <= limit && e + 7 <= limit <= dst.Length
    modifies dst
    ensures forall k :: 0 <= k < op || limit <= k < dst.Length ==> dst[k] == old(dst[k])
    ensures forall k :: op <= k < op + 8 || op <= k < e ==> dst[k] == v[(k - op) % 8]
  {
    Memcpy(dst, op, v, 0, 8);
    var d := op + 8;
    while d < e
      invariant op + 8 <= d <= limit && (d - op) % 8 == 0
      invariant forall k :: 0 <= k < op || limit <= k < dst.Length ==> dst[k] == old(dst[k])
      invariant forall k :: op <= k < d ==> dst[k] == v[(k - op) % 8]
      decreases e + 8 - d
    {
      Memcpy(dst, d, v, 0, 8);
      d := d + 8;
    }
  }

  /** The 8-byte pattern of a 1-, 2- or 4-byte period. */
  function Pattern(p: Buffer): (v: Buffer)
    requires |p| == 1 || |p| == 2 || |p| == 4
    ensures |v| == 8
    ensures forall k :: 0 <= k < 8 ==> v[k] == p[k % |p|]
  {
    if |p| == 1 then [p[0], p[0], p[0], p[0], p[0], p[0], p[0], p[0]]
    else if |p| == 2 then [p[0], p[1], p[0], p[1], p[0], p[1], p[0], p[1]]
    else p + p
  }

  /** LZ4_memcpy_using_offset. */
  method MemcpyUsingOffset(dst: array<byte>, op: nat, e: nat, offset: nat, limit: nat)
    requires offset <= op <= e && op + 16 <= limit && e + 7 <= limit <= dst.Length
    modifies dst
    ensures forall k :: 0 <= k < op || limit <= k < dst.Length ==> dst[k] == old(dst[k])
    ensures IsMatch(dst[..], op, e, offset)
  {
    if offset == 1 || offset == 2 || offset == 4 {
      var p := dst[op - offset..op];
      CopyPattern(dst, op, e, Pattern(p), limit);
      hide Pattern;
      assert dst[..][op - offset..op] == p;
      PatternIsMatch(dst[..], op, e, offset, Pattern(p));
    } else {
      MemcpyUsingOffsetBase(dst, op, e, offset, limit);
    }
  }

  lemma {:induction false} PatternIsMatch(a: Buffer, op: nat, e: nat, offset: nat, v: Buffer)
    requires (offset == 1 || offset == 2 || offset == 4) && offset <= op <= e <= |a| && |v| == 8
    requires v == Pattern(a[op - offset..op])
    requires forall k :: op <= k < e ==> a[k] == v[(k - op) % 8]
    ensures IsMatch(a, op, e, offset)
  {
    hide Pattern;
    var p := a[op - offset..op];
    forall k | op <= k < e ensures RepeatsAt(a, k, offset) {
      PatternStep(p, v, k - op, offset);
      assert a[k] == v[(k - op) % 8];
      if k - op >= offset {
        assert a[k - offset] == v[(k - offset - op) % 8];
        assert k - offset - op == k - op - offset;
      } else {
        assert a[k - offset] == p[k - op];
      }
    }
  }

  lemma {:induction false} PatternStep(p: Buffer, v: Buffer, j: nat, offset: nat)
    requires (offset == 1 || offset == 2 || offset == 4) && |p| == offset && |v| == 8 && v == Pattern(p)
    ensures if j < offset then v[j % 8] == p[j] else v[j % 8] == v[(j - offset) % 8]
  {
    if j >= offset { PatternPeriod(j, j - offset, offset); }
  }

  lemma {:induction false} PatternPeriod(j: nat, i: nat, offset: nat)
    requires (offset == 1 || offset == 2 || offset == 4) && j == i + offset
    ensures (j % 8) % offset == (i % 8) % offset
  {
    var r := i % 8;
    assert i == 8 * (i / 8) + r;
    if r + offset < 8 {
      assert j % 8 == r + offset by { ModIs(j, i / 8, r + offset); }
    } else {
      assert j % 8 == r + offset - 8 by { ModIs(j, i / 8 + 1, r + offset - 8); }
    }
  }

  lemma {:induction false} ModIs(j: nat, q: nat, r: nat)
    requires j == 8 * q + r && r < 8
    ensures j % 8 == r
  {}

  /** The rest of a match that ends within 12 bytes of the output end: whole words up to
      the last safe store, then single bytes. */
  method CopyTail(dst: array<byte>, d0: nat, from0: nat, cpy: nat, oend: nat)
    requires from0 + 8 <= d0 <= oend && 8 <= oend && cpy <= oend <= dst.Length
    modifies dst
    ensures forall k :: 0 <= k < d0 || oend <= k < dst.Length ==> dst[k] == old(dst[k])
    ensures d0 <= cpy ==> Repeats(dst[..], d0, cpy, d0 - from0)
  {
    var d, from, oCopyLimit := d0, from0, oend - 7;
    if d < oCopyLimit {
      WildCopy8Within(dst, d, from, oCopyLimit, oend);
      WordsRepeat(dst[..], d0, oCopyLimit, if d0 + 8 <= oCopyLimit then oCopyLimit else d0 + 8, d0 - from0);
      from, d := from + (oCopyLimit - d), oCopyLimit;
    }
    var delta := d - from;
    while d < cpy
      invariant d0 <= d <= oend && d - from == delta == d0 - from0
      invariant forall k :: 0 <= k < d0 || oend <= k < dst.Length ==> dst[k] == old(dst[k])
      invariant Repeats(dst[..], d0, d, delta)
    {
      StoreRepeats(dst[..], d0, d, delta);
      dst[d] := dst[from];
      d, from := d + 1, from + 1;
    }
    WordsRepeat(dst[..], d0, if d0 <= cpy then cpy else d0, d, delta);
  }

  lemma {:induction false} WordsRepeat(a: Buffer, lo: nat, e: nat, hi: nat, delta: nat)
    requires delta <= lo && e <= hi <= |a| && Repeats(a, lo, hi, delta)
    ensures Repeats(a, lo, e, delta)
  {}

  lemma {:induction false} StoreRepeats(a: Buffer, lo: nat, d: nat, delta: nat)
    requires 0 < delta <= lo <= d < |a| && Repeats(a, lo, d, delta)
    ensures Repeats(a[d := a[d - delta]], lo, d + 1, delta)
  {
    var b := a[d := a[d - delta]];
    forall k | lo <= k < d + 1 ensures RepeatsAt(b, k, delta) {
      if k < d { assert RepeatsAt(a, k, delta); }
    }
  }

  /** The match copy of the safe loop.  False when the match reaches into the last five
      bytes of the output, which must be literals. */
  method SafeMatchCopy(dst: array<byte>, op: nat, offset: nat, length: nat, oend: nat) returns (ok: bool)
    requires offset <= op && op + MFLIMIT <= oend <= dst.Length && MINMATCH <= length
    modifies dst
    ensures forall k :: 0 <= k < op || oend <= k < dst.Length ==> dst[k] == old(dst[k])
    ensures ok == (op + length + LASTLITERALS <= oend)
    ensures ok ==> IsMatch(dst[..], op, op + length, offset)
  {
    var cpy := op + length;
    var from, m := CopyFirst8(dst, op, offset);
    if cpy > oend - LASTLITERALS { return false; }
    ghost var first := dst[..];
    CopyAfterFirst8(dst, op, from, length, oend);
    MatchKept(first, dst[..], op, op + 8, offset);
    if op + 8 <= cpy {
      MatchContinues(dst[..], op, op + 8, cpy, offset, m, from);
    } else {
      MatchShorter(dst[..], op, cpy, op + 8, offset);
    }
    ok := true;
  }

  method CopyAfterFirst8(dst: array<byte>, op: nat, from: nat, length: nat, oend: nat)
    requires from <= op && op + MFLIMIT <= oend <= dst.Length && MINMATCH <= length
    requires op + length + LASTLITERALS <= oend
    modifies dst
    ensures forall k :: 0 <= k < op + 8 || oend <= k < dst.Length ==> dst[k] == old(dst[k])
    ensures op + 8 <= op + length ==> Repeats(dst[..], op + 8, op + length, op + 8 - from)
  {
    var cpy := op + length;
    if cpy > oend - MFLIMIT {
      CopyTail(dst, op + 8, from, cpy, oend);
    } else {
      MemcpyWithin(dst, op + 8, from, 8);
      WordRepeats(dst, op + 8, from, if op + 16 <= cpy then op + 16 else cpy);
      if length > 16 { CopyRest(dst, op + 8, from, cpy, oend); }
    }
  }

  lemma {:induction false} WordRepeats(dst: array<byte>, d: nat, from: nat, e: int)
    requires from + 8 <= d && d + 8 <= dst.Length && e <= d + 8
    requires forall k :: d <= k < d + 8 ==> dst[k] == dst[k - (d - from)]
    ensures d <= e ==> Repeats(dst[..], d, e, d - from)
  {}

  /** One word is in place; the rest by wild copy. */
  method CopyRest(dst: array<byte>, d: nat, from: nat, cpy: nat, oend: nat)
    requires from + 8 <= d && d + 8 <= cpy && cpy + 8 <= oend <= dst.Length
    requires Repeats(dst[..], d, d + 8, d - from)
    modifies dst
    ensures forall k :: 0 <= k < d + 8 || oend <= k < dst.Length ==> dst[k] == old(dst[k])
    ensures Repeats(dst[..], d, cpy, d - from)
  {
    ghost var word := dst[..];
    WildCopy8Within(dst, d + 8, from + 8, cpy, oend);
    ghost var now, delta := dst[..], d - from;
    forall k | d <= k < cpy ensures RepeatsAt(now, k, delta) {
      if k >= d + 8 { assert RepeatsAt(now, k, d + 8 - (from + 8)); }
      else { assert RepeatsAt(word, k, d - from); }
    }
  }
}
