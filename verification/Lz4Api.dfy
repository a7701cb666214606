/** The public entry points for single blocks: compression, compression into a fixed target,
    and the round trip. */
module Lz4Api {
  import opened Bytes
  import opened Lz4Format
  import opened Lz4Search
  import opened Lz4Encoder
  import opened Lz4Decoder

  const ACCELERATION_MAX := 65537

  function ClampAcceleration(acceleration: int): (a: nat)
    ensures 1 <= a <= ACCELERATION_MAX
  {
    if acceleration < 1 then 1 else if acceleration > ACCELERATION_MAX then ACCELERATION_MAX else acceleration
  }

  /** A block that decodes to `whole` on its own. */
  ghost predicate Encodes(block: Buffer, whole: Buffer) {
    Decode(block, 0, []) == Some(whole) && Conforms(block, 0, 0, |whole|)
  }

  /** A fresh job over a whole buffer: no history, zeroed table. */
  function FreshJob(src: Buffer): Job {
    Job(src, 0, |src|, 0, 0, false, if |src| < LIMIT_64K then ByU16 else ByU32)
  }

  lemma {:induction false} FreshTable(j: Job, table: seq<nat>)
    requires j.source == 0 && |table| == TableSize(j.tableType) && forall h :: 0 <= h < |table| ==> table[h] == 0
    ensures j.TableOk(table, 1)
  {}

  lemma {:induction false} FreshBlock(src: Buffer, block: Buffer, consumed: nat)
    requires FreshJob(src).Valid() && consumed <= |src| && BlockFor(FreshJob(src), block, consumed)
    ensures Encodes(block, src[..consumed])
  {
    hide Decode, Conforms;
    assert History(FreshJob(src)) == [] && src[0..consumed] == src[..consumed];
  }

  /** LZ4_compress_generic on an empty source: a single zero token. */
  lemma {:induction false} EmptyBlock()
    ensures Encodes([0], [])
  {
    var block: Buffer := [0];
    var nothing: Buffer := [];
    assert Parse(block, 0) == Last(1) && nothing + block[1..] == nothing;
  }

  // ---------------------------------------------------------------- sources that repeat

  /** The source repeats at distance d from its d-th byte on, and its first d positions can be
      told apart: no four bytes before that are those it starts with, and no two share a slot.
      For d = 1 this says only that all bytes are equal. */
  ghost predicate Repeating(src: Buffer, d: nat, acceleration: int) {
    0 < d <= 64 && (d > 1 ==> acceleration <= 1) && d + MFLIMIT <= |src| <= MAX_INPUT_SIZE &&
    (forall k :: d <= k < |src| ==> src[k] == src[k - d]) &&
    forall i :: 0 < i < d ==> NewStart(src, i)
  }

  ghost predicate NewStart(src: Buffer, i: nat)
    requires i + 8 <= |src|
  {
    src[i..i + 4] != src[..4] && forall k :: 0 <= k < i ==> OtherSlotAt(src, k, i)
  }

  ghost predicate OtherSlotAt(src: Buffer, k: nat, i: nat)
    requires k + 8 <= |src| && i + 8 <= |src|
  {
    HashPosition(src, k, FreshJob(src).tableType) != HashPosition(src, i, FreshJob(src).tableType)
  }

  /** The size of its block: token, d literals, one match, token, five literals. */
  function RepeatingSize(d: nat, n: nat): nat { 9 + d + (d + 240) / 255 + (n - d + 231) / 255 }

  lemma {:induction false} EqualBytesRepeat(src: Buffer, acceleration: int)
    requires MFLIMIT < |src| <= MAX_INPUT_SIZE && forall k :: 0 < k < |src| ==> src[k] == src[0]
    ensures Repeating(src, 1, acceleration) && RepeatingSize(1, |src|) == 10 + (|src| + 230) / 255
  {}

  lemma {:induction false} OneDistance(src: Buffer, d: nat, e: nat, acceleration: int)
    requires Repeating(src, d, acceleration) && Repeating(src, e, acceleration)
    ensures d == e
  {
    StartsAgain(src, d, acceleration);
    StartsAgain(src, e, acceleration);
    hide NewStart;
  }

  lemma {:induction false} StartsAgain(src: Buffer, d: nat, acceleration: int)
    requires Repeating(src, d, acceleration)
    ensures !NewStart(src, d)
  {
    hide OtherSlotAt;
    assert src[d..d + 4] == src[..4];
  }

  lemma {:induction false} RepeatingLong(src: Buffer, d: nat, acceleration: int)
    ensures Repeating(src, d, acceleration) ==> 0 < d && d + MFLIMIT <= |src| <= MAX_INPUT_SIZE
  {}

  lemma {:induction false} RepeatingIsAhead(src: Buffer, table: seq<nat>, d: nat, acceleration: int, mode: Directive,
                                            maxOutputSize: nat)
    requires Repeating(src, d, acceleration) && |table| == TableSize(FreshJob(src).tableType)
    requires forall h :: 0 <= h < |table| ==> table[h] == 0
    requires match mode
             case NotLimited => true
             case LimitedOutput => RepeatingSize(d, |src|) <= maxOutputSize
             case FillOutput => RepeatingSize(d, |src|) + 3 <= maxOutputSize
    ensures FreshJob(src).Valid()
    ensures RunAhead(FreshJob(src), table, d, ClampAcceleration(acceleration), mode, maxOutputSize)
  {
    hide HashPosition;
    var j := FreshJob(src);
    forall k | 0 < k < d ensures NoEarlierMatch(j, table, k) {
      assert NewStart(src, k);
      NotUsable(src, k);
      var h := j.Hash(j.source + k);
      forall i | 0 <= i < k ensures OtherSlot(j, i, h) { assert OtherSlotAt(src, i, k); }
    }
    forall k | d <= k < |src| ensures RepeatsAt(j.mem, k, d) { assert src[k] == src[k - d]; }
  }

  lemma {:induction false} NotUsable(src: Buffer, k: nat)
    requires FreshJob(src).Valid() && 0 < k && k + 8 <= |src| && src[k..k + 4] != src[..4]
    ensures !UsableAt(FreshJob(src), 0, k)
  {
    if Repeats(src, k, k + 4, k) {
      forall i | 0 <= i < 4 ensures src[k..k + 4][i] == src[..4][i] { assert RepeatsAt(src, k + i, k); }
    }
  }

  lemma {:induction false} RepeatingBlock(src: Buffer, d: nat, size: nat)
    requires FreshJob(src).Valid() && 0 < d && d + MFLIMIT <= |src| && RunBlock(FreshJob(src), d, size)
    ensures size == RepeatingSize(d, |src|)
  {}

  /** LZ4_compress_generic on a fresh stream. */
  method CompressFresh(src: Buffer, dst: array<byte>, mode: Directive, maxOutputSize: nat, acceleration: int,
                       ghost d: nat)
    returns (result: nat, consumed: nat)
    requires maxOutputSize <= dst.Length
    requires mode == NotLimited && |src| <= MAX_INPUT_SIZE ==> CompressBound(|src|) <= dst.Length
    modifies dst
    ensures result <= OutputLimit(mode, |src|, maxOutputSize) && consumed <= |src|
    ensures forall i :: OutputLimit(mode, |src|, maxOutputSize) <= i < dst.Length ==> dst[i] == old(dst[i])
    ensures result > 0 ==> Encodes(dst[..result], src[..consumed]) && (mode != FillOutput ==> consumed == |src|)
    ensures |src| <= MAX_INPUT_SIZE && (mode == NotLimited || (mode == FillOutput && maxOutputSize >= 1)) ==> result > 0
    ensures result > 0 && consumed < |src| ==> Fills(dst[..result], maxOutputSize)
    ensures |src| > MAX_INPUT_SIZE ==> result == 0
    ensures result > 0 && src == [] ==> dst[..result] == [0]
    ensures Repeating(src, d, acceleration) &&
            (mode == LimitedOutput ==> RepeatingSize(d, |src|) <= maxOutputSize) &&
            (mode == FillOutput ==> RepeatingSize(d, |src|) + 3 <= maxOutputSize) ==>
              result == RepeatingSize(d, |src|) && consumed == |src|
  {
    hide Encodes, Repeating, RunAhead, RunBlock, HashPosition;
    RepeatingLong(src, d, acceleration);
    if |src| > MAX_INPUT_SIZE { return 0, 0; }
    if |src| == 0 {
      if mode != NotLimited && maxOutputSize <= 0 { return 0, 0; }
      dst[0] := 0;
      EmptyBlock();
      assert dst[..1] == [0];
      return 1, 0;
    }
    var j := FreshJob(src);
    var table := new nat[TableSize(j.tableType)](_ => 0);
    FreshTable(j, table[..]);
    ghost var repeats := Repeating(src, d, acceleration) && match mode
      case NotLimited => true
      case LimitedOutput => RepeatingSize(d, |src|) <= maxOutputSize
      case FillOutput => RepeatingSize(d, |src|) + 3 <= maxOutputSize;
    if repeats { RepeatingIsAhead(src, table[..], d, acceleration, mode, maxOutputSize); }
    result, consumed := CompressValidated(j, table, dst, mode, maxOutputSize, ClampAcceleration(acceleration), d);
    if repeats { RepeatingBlock(src, d, result); }
    if result > 0 { FreshBlock(src, dst[..result], consumed); }
  }

  ghost function TheDistance(src: Buffer, acceleration: int): (d: nat)
    ensures (exists e :: Repeating(src, e, acceleration)) ==> Repeating(src, d, acceleration)
  {
    if exists e :: Repeating(src, e, acceleration) then (var e: nat :| Repeating(src, e, acceleration); e) else 0
  }

  /** LZ4_compress_fast. */
  method CompressFast(src: Buffer, dst: array<byte>, maxOutputSize: nat, acceleration: int) returns (result: nat)
    requires maxOutputSize <= dst.Length
    modifies dst
    ensures result <= maxOutputSize && (|src| <= MAX_INPUT_SIZE ==> result <= |src| + |src| / 255 + 16)
    ensures forall i :: maxOutputSize <= i < dst.Length ==> dst[i] == old(dst[i])
    ensures result > 0 ==> |src| <= MAX_INPUT_SIZE && Encodes(dst[..result], src)
    ensures |src| <= MAX_INPUT_SIZE && maxOutputSize >= |src| + |src| / 255 + 16 ==> result > 0
    ensures result > 0 && src == [] ==> dst[..result] == [0]
    ensures forall d :: Repeating(src, d, acceleration) && RepeatingSize(d, |src|) <= maxOutputSize ==>
              result == RepeatingSize(d, |src|)
  {
    hide Encodes, Repeating;
    ghost var d := TheDistance(src, acceleration);
    var consumed;
    var mode := if maxOutputSize >= CompressBound(|src|) then NotLimited else LimitedOutput;
    result, consumed := CompressFresh(src, dst, mode, maxOutputSize, acceleration, d);
    assert src[..|src|] == src;
    forall e | Repeating(src, e, acceleration) ensures e == d { OneDistance(src, d, e, acceleration); }
  }

  /** LZ4_compress_destSize: as much of the source as fits into the target.  When some of the
      source does not fit the target is filled, up to one byte where the last token stands 16
      modulo 256 bytes before the end; below 16 bytes there is no such place. */
  method CompressDestSize(src: Buffer, dst: array<byte>, targetDstSize: nat) returns (result: nat, consumed: nat)
    requires targetDstSize <= dst.Length
    modifies dst
    ensures result <= targetDstSize && consumed <= |src|
    ensures forall i :: targetDstSize <= i < dst.Length ==> dst[i] == old(dst[i])
    ensures result > 0 ==> Encodes(dst[..result], src[..consumed])
    ensures result > 0 && consumed < |src| ==> Fills(dst[..result], targetDstSize) && targetDstSize - 1 <= result
    ensures result > 0 && consumed < |src| && targetDstSize < 16 ==> result == targetDstSize
    ensures |src| <= MAX_INPUT_SIZE && targetDstSize >= 1 ==> result > 0
    ensures result > 0 && targetDstSize >= CompressBound(|src|) ==> consumed == |src|
    ensures forall d :: Repeating(src, d, 1) && RepeatingSize(d, |src|) + 3 <= targetDstSize ==>
              result == RepeatingSize(d, |src|) && consumed == |src|
  {
    hide Encodes, Repeating;
    if targetDstSize >= CompressBound(|src|) {
      result := CompressFast(src, dst, targetDstSize, 1);
      consumed := |src|;
      assert src[..|src|] == src;
    } else {
      ghost var d := TheDistance(src, 1);
      result, consumed := CompressFresh(src, dst, FillOutput, targetDstSize, 1, d);
      forall e | Repeating(src, e, 1) ensures e == d { OneDistance(src, d, e, 1); }
    }
  }

  predicate Distinct(s: Buffer) { forall i, k :: 0 <= i < k < |s| ==> s[i] != s[k] }

  /** Bytes that never repeat leave an encoder nothing but literals. */
  lemma {:induction false} DistinctIsLiteral(block: Buffer, whole: Buffer)
    requires Encodes(block, whole) && Distinct(whole)
    ensures Parse(block, 0).Last? && block[Parse(block, 0).at..] == whole
  {
    hide Parse, Encodes, Distinct;
    OnlyLiterals(block, whole);
    if Parse(block, 0).More? { MatchMeansRepeat(block, whole); }
  }

  lemma {:induction false} MatchMeansRepeat(block: Buffer, whole: Buffer)
    requires Encodes(block, whole) && Parse(block, 0).More?
    ensures !Distinct(whole)
  {
    hide Parse, CopyMatch, Encodes, Distinct, Decode, Conforms;
    var More(at, n, offset, m, next) := Parse(block, 0);
    AfterFirstMatch(block, whole, at, n, offset, m, next);
    FirstMatchRepeats(block, whole, next, block[at..at + n], offset, m);
  }

  lemma {:induction false} OnlyLiterals(block: Buffer, whole: Buffer)
    requires Encodes(block, whole)
    ensures !Parse(block, 0).Malformed?
    ensures Parse(block, 0).Last? ==> block[Parse(block, 0).at..] == whole
  {
    hide Parse, CopyMatch;
    if Parse(block, 0).Last? { assert [] + block[Parse(block, 0).at..] == block[Parse(block, 0).at..]; }
  }

  lemma {:induction false} FirstMatchRepeats(block: Buffer, whole: Buffer, next: nat, lits: Buffer, offset: nat, m: nat)
    requires offset <= |lits| && m >= MINMATCH && Conforms(block, next, |lits| + m, |whole|)
    requires Decode(block, next, CopyMatch(lits, offset, m)) == Some(whole)
    ensures !Distinct(whole)
  {
    hide CopyMatch, Decode, Conforms, Distinct;
    ConformsDecodes(block, next, CopyMatch(lits, offset, m), |whole|);
    MatchRepeatsByte(lits, offset, m);
    DistinctPrefix(CopyMatch(lits, offset, m), whole);
  }

  lemma {:induction false} DistinctPrefix(s: Buffer, t: Buffer)
    requires s <= t && !Distinct(s)
    ensures !Distinct(t)
  {
    var i, k :| 0 <= i < k < |s| && s[i] == s[k];
    assert t[i] == s[i] && t[k] == s[k];
  }

  lemma {:induction false} AfterFirstMatch(block: Buffer, whole: Buffer, at: nat, n: nat, offset: nat, m: nat,
      next: nat)
    requires Encodes(block, whole) && Parse(block, 0) == More(at, n, offset, m, next)
    ensures offset <= n && Decode(block, next, CopyMatch(block[at..at + n], offset, m)) == Some(whole)
    ensures Conforms(block, next, n + m, |whole|)
  {
    hide Parse, CopyMatch;
    assert [] + block[at..at + n] == block[at..at + n];
  }

  lemma {:induction false} MatchRepeatsByte(out: Buffer, offset: nat, m: nat)
    requires offset <= |out| && m >= MINMATCH
    ensures !Distinct(CopyMatch(out, offset, m))
  {
    var r := CopyMatch(out, offset, m);
    if offset > 0 {
      CopyMatchRepeats(out, offset, m, |out|);
    } else {
      var more := out + [0] + [0];
      assert r == CopyMatch(out + [0], 0, m - 1);
      assert r == CopyMatch(more, 0, m - 2);
      CopyMatchPrefix(more, 0, m - 2);
      assert r[|out|] == more[|out|] && r[|out| + 1] == more[|out| + 1];
    }
  }

  /** No block at all of 16 bytes stands for such an input: 14 literals take 15 bytes, 15
      literals take 17. */
  lemma {:induction false} NoBlockOf16(block: Buffer, whole: Buffer)
    requires Encodes(block, whole) && Distinct(whole)
    ensures |block| != 16
    ensures |block| == 15 ==> |whole| == 14
    ensures |block| <= 16 ==> |whole| <= 14
  {
    DistinctIsLiteral(block, whole);
    assert LiteralRun(block, 0).Field?;
  }

  /** The target is not always filled: here one of its 16 bytes stays unused although most
      of the source is left over. */
  method FillFallsShort(dst: array<byte>) returns (src: Buffer, result: nat, consumed: nat)
    requires dst.Length >= 16
    modifies dst
    ensures |src| == 100 && result == 15 && consumed == 14
  {
    src := seq(100, i requires 0 <= i < 100 => i);
    result, consumed := CompressDestSize(src, dst, 16);
    NoBlockOf16(dst[..result], src[..consumed]);
  }

  /** What the single-block compressor produced, the decoder gives back: any capacity of at
      least the source length, any output buffer. */
  method RoundTrip(src: Buffer, dst: array<byte>, maxOutputSize: nat, acceleration: int, out: array<byte>,
      capacity: nat)
    returns (result: nat, n: int)
    requires dst != out && maxOutputSize <= dst.Length && |src| <= capacity <= out.Length && capacity < TWO31
    modifies dst, out
    ensures result > 0 ==> n == |src| && out[..n] == src
    ensures |src| <= MAX_INPUT_SIZE && maxOutputSize >= CompressBound(|src|) ==> result > 0
  {
    result := CompressFast(src, dst, maxOutputSize, acceleration);
    if result == 0 { return 0, -1; }
    BoundIsInt(src);
    n := DecompressSafe(dst[..result], out, capacity);
  }

  lemma {:induction false} BoundIsInt(src: Buffer)
    requires |src| <= MAX_INPUT_SIZE
    ensures CompressBound(|src|) < TWO31
  {}
}
