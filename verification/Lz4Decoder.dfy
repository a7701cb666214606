/** LZ4_decompress_generic for whole blocks with a known input size, as instantiated by
    LZ4_decompress_safe, _withSmallPrefix and _withPrefix64k.  The C gotos into the middle
    of the safe loop become values of `Label`. */
module Lz4Decoder {
  import opened Bytes
  import opened Lz4Format
  import opened Lz4Copy

  const FASTLOOP_SAFE_DISTANCE := 64
  const TWO32 := 0x1_0000_0000
  const TWO31 := 0x8000_0000

  /** Where decoding stands between two steps. */
  datatype Label =
    | AtToken
    | AtLiterals(token: byte, length: nat)   // safe_literal_copy
    | AtOffset(token: byte)                  // literals copied
    | AtMatch(offset: nat, length: nat)      // safe_match_copy
    | Done
    | Failed

  /** What the reference decoder still has to say from here. */
  function Remaining(src: Buffer, at: Label, ip: nat, out: Buffer): Option<Buffer>
  {
    match at
    case AtToken => Decode(src, ip, out)
    case AtLiterals(token, n) =>
      if ip + n > |src| then None
      else if ip + n == |src| then Some(out + src[ip..])
      else RemainingAtOffset(src, token, ip + n, out + src[ip..ip + n])
    case AtOffset(token) => RemainingAtOffset(src, token, ip, out)
    case AtMatch(offset, m) => RemainingAtMatch(src, offset, m, ip, out)
    case Done => Some(out)
    case Failed => None
  }

  function RemainingAtOffset(src: Buffer, token: byte, q: nat, out: Buffer): Option<Buffer>
  {
    if q + 2 > |src| then None
    else
      match MatchRun(src, token, q + 2)
      case Truncated => None
      case Field(m, next) => RemainingAtMatch(src, Offset(src, q), m, next, out)
  }

  function RemainingAtMatch(src: Buffer, offset: nat, m: nat, next: nat, out: Buffer): Option<Buffer>
  {
    if offset > |out| then None else Decode(src, next, CopyMatch(out, offset, m))
  }

  /** The end-of-block conditions from here on. */
  predicate ConformsFrom(src: Buffer, at: Label, ip: nat, pos: nat, total: nat)
  {
    match at
    case AtToken => Conforms(src, ip, pos, total)
    case AtLiterals(token, n) =>
      ip + n <= |src| &&
      if ip + n == |src| then pos + n == total else ConformsAtOffset(src, token, ip + n, pos + n, total)
    case AtOffset(token) => ConformsAtOffset(src, token, ip, pos, total)
    case AtMatch(offset, m) => ConformsAtMatch(src, offset, m, ip, pos, total)
    case Done => pos == total
    case Failed => false
  }

  predicate ConformsAtOffset(src: Buffer, token: byte, q: nat, pos: nat, total: nat)
  {
    q + 2 <= |src| &&
    match MatchRun(src, token, q + 2)
    case Truncated => false
    case Field(m, next) => ConformsAtMatch(src, Offset(src, q), m, next, pos, total)
  }

  predicate ConformsAtMatch(src: Buffer, offset: nat, m: nat, next: nat, pos: nat, total: nat)
  {
    offset <= pos && pos + MFLIMIT <= total && pos + m + LASTLITERALS <= total && Conforms(src, next, pos + m, total)
  }

  /** The bytes of a length extension, added up; it need not end inside the block. */
  function ExtSum(src: Buffer, i: nat): nat
    decreases |src| - i
  {
    if i >= |src| then 0 else if src[i] == 255 then 255 + ExtSum(src, i + 1) else src[i]
  }

  /** The length field at a token, or behind an offset, does not reach 32 bits. */
  predicate LiteralSumFits(src: Buffer, i: nat)
    requires i < |src|
  {
    src[i] / 16 == RUN_MASK ==> ExtSum(src, i + 1) < TWO32
  }

  predicate MatchSumFits(src: Buffer, token: byte, i: nat) { token % 16 == ML_MASK ==> ExtSum(src, i) < TWO32 }

  /** No length field from the token at `i` on reaches 32 bits. */
  predicate LengthsFit(src: Buffer, i: nat)
    decreases |src| - i
  {
    i < |src| ==>
      LiteralSumFits(src, i) &&
      match LiteralRun(src, i)
      case Truncated => true
      case Field(n, at) =>
        at + n + 2 <= |src| ==>
          MatchSumFits(src, src[i], at + n + 2) &&
          match MatchRun(src, src[i], at + n + 2)
          case Truncated => true
          case Field(_, next) => LengthsFit(src, next)
  }

  predicate FitsAtOffset(src: Buffer, token: byte, q: nat) {
    q + 2 <= |src| ==>
      MatchSumFits(src, token, q + 2) &&
      match MatchRun(src, token, q + 2)
      case Truncated => true
      case Field(_, next) => LengthsFit(src, next)
  }

  /** The same from here on. */
  predicate FitsFrom(src: Buffer, at: Label, ip: nat) {
    match at
    case AtToken => LengthsFit(src, ip)
    case AtLiterals(token, n) => FitsAtOffset(src, token, ip + n)
    case AtOffset(token) => FitsAtOffset(src, token, ip)
    case AtMatch(_, _) => LengthsFit(src, ip)
    case _ => true
  }

  // ---------------------------------------------------------------- length fields

  datatype LengthError = Ok | InitialError | LoopError

  function Wrap32(n: nat): (r: nat)
    ensures n < TWO32 ==> r == n
  {
    n % TWO32
  }

  lemma {:induction false} WrapAdd(n: nat, s: nat)
    ensures Wrap32(Wrap32(n) + s) == Wrap32(n + s)
  {}

  /** The extension at `i` is finished before `limit`. */
  predicate EndsBy(src: Buffer, i: nat, limit: int) {
    match ExtLength(src, i, 0) case Truncated => false case Field(_, next) => next <= limit
  }

  /** read_variable_length.  The sum is a U32; `exact` is the sum without the wrap-around.
      A loop error leaves the field possibly unfinished. */
  method ReadVariableLength(src: Buffer, ip0: nat, lencheck: int, initialCheck: bool)
    returns (length: nat, ip: nat, error: LengthError, ghost exact: nat)
    requires lencheck <= |src| && (initialCheck || ip0 < |src|)
    ensures error == InitialError <==> initialCheck && ip0 >= lencheck
    ensures error == InitialError ==> ip == ip0
    ensures error != InitialError ==> ip0 < ip <= |src| && length == Wrap32(exact) && exact <= 255 * (ip - ip0)
    ensures error == Ok ==> ip < lencheck && ExtLength(src, ip0, 0) == Field(exact, ip)
    ensures error != InitialError ==> exact <= ExtSum(src, ip0)
    ensures EndsBy(src, ip0, lencheck) ==> error != InitialError && ExtLength(src, ip0, 0) == Field(exact, ip)
    ensures error == LoopError ==> ip >= lencheck
    ensures error == LoopError && ExtLength(src, ip0, 0) != Field(exact, ip) ==> 255 <= exact
    ensures error == LoopError && ExtLength(src, ip0, 0) != Field(exact, ip) ==>
      ExtLength(src, ip0, 0) == ExtLength(src, ip, exact)
  {
    hide Wrap32;
    ip, length, error, exact := ip0, 0, Ok, 0;
    if initialCheck && ip >= lencheck {
      return 0, ip, InitialError, 0;
    }
    while true
      invariant ip0 <= ip < |src| && (ip > ip0 ==> ip < lencheck)
      invariant length == Wrap32(exact) && exact <= 255 * (ip - ip0) && error == Ok
      invariant ExtLength(src, ip0, 0) == ExtLength(src, ip, exact) && ExtSum(src, ip0) == exact + ExtSum(src, ip)
      decreases |src| - ip
    {
      var s := src[ip];
      ip := ip + 1;
      WrapAdd(exact, s);
      length, exact := Wrap32(length + s), exact + s;
      if ip >= lencheck { return length, ip, LoopError, exact; }
      if s != 255 { break; }
    }
  }

  /** Starting a field at a larger base adds the base. */
  lemma {:induction false} ExtLengthShift(src: Buffer, i: nat, acc: nat, base: nat)
    ensures ExtLength(src, i, acc + base)
         == match ExtLength(src, i, acc) case Truncated => Truncated case Field(n, next) => Field(n + base, next)
    decreases |src| - i
  {
    if i < |src| && src[i] == 255 { ExtLengthShift(src, i + 1, acc + 255, base); }
  }

  /** A literal run of `length` bytes at `ip` is what the format says, or both overrun. */
  predicate LiteralsRead(src: Buffer, ip0: nat, length: nat, ip: nat)
    requires ip0 < |src|
  {
    LiteralRun(src, ip0) == Field(length, ip) ||
    (ip + length > |src| &&
     match LiteralRun(src, ip0) case Truncated => true case Field(n, at) => at + n > |src|)
  }

  /** The literal run at `ip0` lies inside the block. */
  predicate LiteralsInside(src: Buffer, ip0: nat)
    requires ip0 < |src|
  {
    match LiteralRun(src, ip0) case Truncated => false case Field(n, at) => at + n <= |src|
  }

  lemma {:induction false} LiteralFieldRead(src: Buffer, ip0: nat, ip: nat, exact: nat, done: bool)
    requires ip0 < |src| && src[ip0] / 16 == RUN_MASK && ip0 + 1 < ip <= |src|
    requires done ==> ExtLength(src, ip0 + 1, 0) == Field(exact, ip)
    requires !done ==> |src| - RUN_MASK <= ip && 255 <= exact && ExtLength(src, ip0 + 1, 0) == ExtLength(src, ip, exact)
    ensures LiteralsRead(src, ip0, RUN_MASK + exact, ip)
    ensures LiteralsInside(src, ip0) ==> LiteralRun(src, ip0) == Field(RUN_MASK + exact, ip)
  {
    ExtLengthShift(src, ip0 + 1, 0, RUN_MASK);
  }

  /** The token and the literal length; false on a field that starts too near the end. */
  method LiteralLength(src: Buffer, ip0: nat) returns (length: nat, ip: nat, ok: bool)
    requires ip0 < |src| < TWO31
    ensures ip0 < ip <= |src|
    ensures ok ==> (src[ip0] / 16 == RUN_MASK <==> length >= RUN_MASK)
    ensures ok && length < RUN_MASK ==> ip == ip0 + 1 && length == src[ip0] / 16
    ensures ok && LiteralSumFits(src, ip0) ==> LiteralsRead(src, ip0, length, ip)
    ensures LiteralsInside(src, ip0) ==> ok && LiteralRun(src, ip0) == Field(length, ip)
    ensures src[ip0] / 16 == RUN_MASK && EndsBy(src, ip0 + 1, |src| - RUN_MASK) ==>
      ok && (length, ip) == WrappedRun(src, ip0)
  {
    length, ip, ok := src[ip0] / 16, ip0 + 1, true;
    if length == RUN_MASK {
      var sum, next, error, exact := ReadVariableLength(src, ip, |src| - RUN_MASK, true);
      if error == InitialError {
        TooNearEnd(src, ip0);
        return 0, ip, false;
      }
      // a loop error is ignored here
      LiteralFieldRead(src, ip0, next, exact, ExtLength(src, ip, 0) == Field(exact, next));
      length, ip := length + sum, next;
    }
  }

  /** A finished literal run as the decoder reads it: the sum of the extension wraps around. */
  function WrappedRun(src: Buffer, ip0: nat): (nat, nat)
    requires EndsBy(src, ip0 + 1, |src|)
  {
    var Field(sum, next) := ExtLength(src, ip0 + 1, 0);
    (RUN_MASK + Wrap32(sum), next)
  }

  lemma {:induction false} TooNearEnd(src: Buffer, ip0: nat)
    requires ip0 < |src| && src[ip0] / 16 == RUN_MASK && ip0 + 1 >= |src| - RUN_MASK
    ensures !LiteralsInside(src, ip0)
  {}

  /** From a token to its literals. */
  lemma {:induction false} TokenStep(src: Buffer, ip0: nat, length: nat, ip: nat, out: Buffer, pos: nat, total: nat)
    requires ip0 < |src| && ip <= |src|
    ensures LiteralsRead(src, ip0, length, ip) ==>
      Remaining(src, AtToken, ip0, out) == Remaining(src, AtLiterals(src[ip0], length), ip, out) &&
      (LengthsFit(src, ip0) ==> FitsFrom(src, AtLiterals(src[ip0], length), ip))
    ensures Conforms(src, ip0, pos, total) ==> LiteralsInside(src, ip0)
    ensures Conforms(src, ip0, pos, total) && LiteralRun(src, ip0) == Field(length, ip) ==>
      ConformsFrom(src, AtLiterals(src[ip0], length), ip, pos, total)
  {
    hide LiteralRun, MatchRun, ExtLength, CopyMatch;
  }

  /** One decoding step: unless it fails, the reference decoder has the same left to say if
      no length field wraps around, and a block that conforms to `total` bytes never fails
      and goes on conforming. */
  ghost predicate Step(src: Buffer, total: nat, at0: Label, ip0: nat, out0: Buffer, at: Label, ip: nat, out: Buffer) {
    var conforms := ConformsFrom(src, at0, ip0, |out0|, total);
    (conforms ==> ConformsFrom(src, at, ip, |out|, total)) &&
    (at != Failed && FitsFrom(src, at0, ip0) ==> FitsFrom(src, at, ip)) &&
    (at != Failed && (FitsFrom(src, at0, ip0) || conforms) ==>
      Remaining(src, at0, ip0, out0) == Remaining(src, at, ip, out))
  }

  lemma {:induction false} StepTrans(src: Buffer, total: nat, at0: Label, ip0: nat, out0: Buffer, at1: Label, ip1: nat,
      out1: Buffer, at2: Label, ip2: nat, out2: Buffer)
    requires Step(src, total, at0, ip0, out0, at1, ip1, out1) && Step(src, total, at1, ip1, out1, at2, ip2, out2)
    requires at1 != Failed
    ensures Step(src, total, at0, ip0, out0, at2, ip2, out2)
  {
    hide Remaining, ConformsFrom, FitsFrom;
  }

  // ---------------------------------------------------------------- steps of the reference decoder

  lemma {:induction false} LiteralsStep(src: Buffer, total: nat, token: byte, n: nat, ip: nat, out: Buffer, at: Label,
      ip': nat, out': Buffer)
    requires ip + n <= |src| && out' == out + src[ip..ip + n] && ip' == ip + n
    requires at == if ip + n == |src| then Done else AtOffset(token)
    ensures Step(src, total, AtLiterals(token, n), ip, out, at, ip', out')
  {
    hide RemainingAtOffset, ConformsAtOffset;
    assert ip + n == |src| ==> src[ip..] == src[ip..ip + n];
  }

  lemma {:induction false} OffsetStep(src: Buffer, total: nat, token: byte, q: nat, out: Buffer, m: nat, next: nat)
    requires q + 2 <= |src|
    requires MatchSumFits(src, token, q + 2) || ConformsAtOffset(src, token, q, |out|, total) ==>
      MatchRun(src, token, q + 2) == Field(m, next)
    ensures Step(src, total, AtOffset(token), q, out, AtMatch(Offset(src, q), m), next, out)
  {
    hide RemainingAtMatch, ConformsAtMatch, MatchRun, MatchSumFits, LengthsFit;
  }

  /** What the conditions say about a match that is about to be read. */
  lemma {:induction false} OffsetConforms(src: Buffer, total: nat, token: byte, q: nat, pos: nat)
    requires ConformsAtOffset(src, token, q, pos, total)
    ensures q + 2 <= |src| && Offset(src, q) <= pos && pos + MFLIMIT <= total
    ensures MatchRun(src, token, q + 2).Field?
    ensures MatchRun(src, token, q + 2).length + pos + LASTLITERALS <= total
    ensures MatchRun(src, token, q + 2).next + 1 + LASTLITERALS <= |src|
  {
    var f := MatchRun(src, token, q + 2);
    ConformsTail(src, f.next, pos + f.length, total);
  }

  lemma {:induction false} LiteralsConform(src: Buffer, total: nat, token: byte, n: nat, ip: nat, pos: nat)
    requires ConformsFrom(src, AtLiterals(token, n), ip, pos, total)
    ensures ip + n == |src| ==> pos + n == total
    ensures ip + n != |src| ==> ip + n + 2 + 1 + LASTLITERALS <= |src| && pos + n + MFLIMIT <= total
  {
    if ip + n != |src| { OffsetConforms(src, total, token, ip + n, pos + n); }
  }

  lemma {:induction false} MatchStep(src: Buffer, total: nat, offset: nat, m: nat, next: nat, out: Buffer, out': Buffer)
    requires offset <= |out| && out' == CopyMatch(out, offset, m)
    ensures Step(src, total, AtMatch(offset, m), next, out, AtToken, next, out')
  {
    hide Decode, Conforms, CopyMatch;
  }

  /** A token read by LiteralLength. */
  lemma {:induction false} TokenRead(src: Buffer, total: nat, ip0: nat, length: nat, ip: nat, out: Buffer)
    requires ip0 < |src| && ip <= |src|
    requires LiteralSumFits(src, ip0) ==> LiteralsRead(src, ip0, length, ip)
    requires LiteralsInside(src, ip0) ==> LiteralRun(src, ip0) == Field(length, ip)
    ensures Step(src, total, AtToken, ip0, out, AtLiterals(src[ip0], length), ip, out)
  {
    TokenStep(src, ip0, length, ip, out, |out|, total);
    SumFitsFirst(src, ip0);
    hide Remaining, LengthsFit, LiteralSumFits, LiteralRun, Conforms;
  }

  lemma {:induction false} SumFitsFirst(src: Buffer, ip0: nat)
    requires ip0 < |src|
    ensures LengthsFit(src, ip0) ==> LiteralSumFits(src, ip0)
  {}

  /** The offset's match length; false when the field runs into the last literals. */
  method MatchLength(src: Buffer, token: byte, ip0: nat) returns (length: nat, ip: nat, ok: bool)
    requires ip0 < |src| < TWO31
    ensures ip0 <= ip <= |src|
    ensures ok ==> ip < |src| && length >= MINMATCH
    ensures ok && token % 16 != ML_MASK ==> ip == ip0 && length == token % 16 + MINMATCH
    ensures ok && MatchSumFits(src, token, ip0) ==> MatchRun(src, token, ip0) == Field(length, ip)
    ensures var f := MatchRun(src, token, ip0);
            f.Field? && f.next + 1 + LASTLITERALS <= |src| && f.length < TWO31 ==> ok && f == Field(length, ip)
  {
    length, ip, ok := token % 16, ip0, true;
    if length == ML_MASK {
      var sum, next, error, exact := ReadVariableLength(src, ip, |src| - LASTLITERALS + 1, false);
      ExtLengthShift(src, ip0, 0, ML_MASK + MINMATCH);
      if error != Ok { return 0, next, false; }
      length, ip := length + sum, next;
    }
    length := length + MINMATCH;
  }

  // ---------------------------------------------------------------- fast loop

  /** Prefix mode keeps at least 64 KB - 1 of history; otherwise the history starts at 0. */
  predicate PrefixMode(prefix64k: bool, lowPrefix: int, op: nat) {
    if prefix64k then -1 <= lowPrefix <= op - 65536 else lowPrefix == 0
  }

  /** What holds at each label. */
  predicate SafeState(src: Buffer, at: Label, ip: nat, op: nat, oend: nat) {
    op <= oend && ip <= |src| &&
    match at
    case AtToken => ip < |src|
    case AtLiterals(_, _) => true
    case AtOffset(_) => ip + 3 <= |src| && op + MFLIMIT <= oend
    case AtMatch(offset, m) => ip < |src| && op + MFLIMIT <= oend && m >= MINMATCH && offset <= DISTANCE_MAX
    case Done => true
    case Failed => true
  }

  /** Literals of the fast loop: 16 bytes at once when there are at most 14, else 32 at a
      time; near either end the safe loop takes over. */
  method FastLiterals(src: Buffer, dst: array<byte>, token: byte, length: nat, ip0: nat, op0: nat, oend: nat,
                      ghost total: nat)
    returns (at: Label, ip: nat, op: nat)
    requires ip0 <= |src| && op0 + FASTLOOP_SAFE_DISTANCE <= oend <= dst.Length
    requires token / 16 == RUN_MASK <==> length >= RUN_MASK
    modifies dst
    ensures forall k :: 0 <= k < op0 || oend <= k < dst.Length ==> dst[k] == old(dst[k])
    ensures at == AtLiterals(token, length) || at == AtOffset(token)
    ensures at.AtLiterals? ==> ip == ip0 && op == op0
    ensures at.AtOffset? ==> ip0 <= ip && ip + 3 <= |src| && op0 <= op && op + 32 <= oend
    ensures Step(src, total, AtLiterals(token, length), ip0, old(dst[..op0]), at, ip, dst[..op])
  {
    var cpy := op0 + length;
    if token / 16 == RUN_MASK {
      if cpy > oend - 32 || ip0 + length > |src| - 32 { return AtLiterals(token, length), ip0, op0; }
      WildCopy32(dst, op0, src, ip0, cpy, oend);
    } else {
      if ip0 > |src| - 17 { return AtLiterals(token, length), ip0, op0; }
      Memcpy(dst, op0, src, ip0, 16);
    }
    ip, op, at := ip0 + length, cpy, AtOffset(token);
    assert dst[..op] == old(dst[..op0]) + src[ip0..ip];
    LiteralsStep(src, total, token, length, ip0, old(dst[..op0]), at, ip, dst[..op]);
  }

  /** The offset points before the visible history. */
  predicate BeforePrefix(op: nat, offset: nat, lowPrefix: int) { op - offset < lowPrefix }

  lemma {:induction false} OffsetVisible(src: Buffer, prefix64k: bool, lowPrefix: int, op: nat, offset: nat)
    requires PrefixMode(prefix64k, lowPrefix, op) && offset <= DISTANCE_MAX
    ensures BeforePrefix(op, offset, lowPrefix) <==> offset > op
    ensures prefix64k ==> offset <= op
  {}

  /** 18 bytes for a match of at most 18 that does not overlap within 8. */
  method Copy18(dst: array<byte>, op: nat, offset: nat, length: nat)
    requires 8 <= offset <= op && op + 18 <= dst.Length && length <= 18
    modifies dst
    ensures forall k :: 0 <= k < op || op + 18 <= k < dst.Length ==> dst[k] == old(dst[k])
    ensures IsMatch(dst[..], op, op + length, offset)
  {
    MemcpyWithin(dst, op, op - offset, 8);
    MemcpyWithin(dst, op + 8, op + 8 - offset, 8);
    MemcpyWithin(dst, op + 16, op + 16 - offset, 2);
  }

  /** The match copy of the fast loop. */
  method FastMatchCopy(dst: array<byte>, short: bool, offset: nat, length: nat, op: nat, oend: nat)
    requires offset <= op && op + length + FASTLOOP_SAFE_DISTANCE < oend <= dst.Length
    requires MINMATCH <= length && (short ==> length <= 18)
    modifies dst
    ensures forall k :: 0 <= k < op || oend <= k < dst.Length ==> dst[k] == old(dst[k])
    ensures IsMatch(dst[..], op, op + length, offset)
  {
    var cpy := op + length;
    if short && offset >= 8 {
      Copy18(dst, op, offset, length);
    } else if offset < 16 {
      MemcpyUsingOffset(dst, op, cpy, offset, oend);
    } else {
      WildCopy32Within(dst, op, op - offset, cpy, oend);
    }
  }

  /** A finished match is a step. */
  lemma {:induction false} MatchCopied(src: Buffer, total: nat, offset: nat, m: nat, next: nat, before: Buffer,
      after: Buffer, op: nat)
    requires offset <= op <= |before| && op + m <= |after| && before[..op] == after[..op]
    requires IsMatch(after, op, op + m, offset)
    ensures Step(src, total, AtMatch(offset, m), next, before[..op], AtToken, next, after[..op + m])
  {
    MatchIsCopy(before, after, op, op + m, offset);
    MatchStep(src, total, offset, m, next, before[..op], after[..op + m]);
  }

  lemma {:induction false} MatchRefused(src: Buffer, total: nat, offset: nat, m: nat, ip: nat, out: Buffer,
      out': Buffer)
    requires offset > |out|
    ensures Step(src, total, AtMatch(offset, m), ip, out, Failed, ip, out')
  {}

  /** Offset and match length, read by either loop. */
  method MatchHeader(src: Buffer, token: byte, ip0: nat, op: nat, ghost out: Buffer, ghost total: nat)
    returns (offset: nat, length: nat, ip: nat, ok: bool)
    requires ip0 + 3 <= |src| < TWO31 && |out| == op && total < op + TWO31
    ensures offset == Offset(src, ip0) <= DISTANCE_MAX
    ensures ip0 + 2 <= ip <= |src|
    ensures ok ==> ip < |src| && length >= MINMATCH && (token % 16 != ML_MASK ==> length <= 18)
    ensures Step(src, total, AtOffset(token), ip0, out, if ok then AtMatch(offset, length) else Failed, ip, out)
  {
    offset := Offset(src, ip0);
    length, ip, ok := MatchLength(src, token, ip0 + 2);
    if ConformsAtOffset(src, token, ip0, |out|, total) { OffsetConforms(src, total, token, ip0, |out|); }
    if ok { OffsetStep(src, total, token, ip0, out, length, ip); }
  }

  /** The second half of a fast-loop sequence. */
  method FastMatch(src: Buffer, dst: array<byte>, token: byte, ip0: nat, op0: nat, oend: nat,
                   prefix64k: bool, lowPrefix: int, ghost total: nat)
    returns (at: Label, ip: nat, op: nat)
    requires ip0 + 3 <= |src| < TWO31 && op0 + 32 <= oend <= dst.Length
    requires PrefixMode(prefix64k, lowPrefix, op0) && total <= oend < op0 + TWO31
    modifies dst
    ensures forall k :: 0 <= k < op0 || oend <= k < dst.Length ==> dst[k] == old(dst[k])
    ensures at.AtToken? || at.AtMatch? || at.Failed?
    ensures op0 <= op && ip0 < ip <= |src| && op + 32 <= oend
    ensures at.AtToken? ==> ip < |src| && op + FASTLOOP_SAFE_DISTANCE < oend
    ensures SafeState(src, at, ip, op, oend)
    ensures Step(src, total, AtOffset(token), ip0, old(dst[..op0]), at, ip, dst[..op])
  {
    hide Step;
    ghost var before := dst[..];
    var offset, length, next, ok := MatchHeader(src, token, ip0, op0, before[..op0], total);
    OffsetVisible(src, prefix64k, lowPrefix, op0, offset);
    if !ok { return Failed, next, op0; }
    if op0 + length >= oend - FASTLOOP_SAFE_DISTANCE { return AtMatch(offset, length), next, op0; }
    var short := token % 16 != ML_MASK;
    if !(short && offset >= 8 && prefix64k) && BeforePrefix(op0, offset, lowPrefix) {
      MatchRefused(src, total, offset, length, next, before[..op0], dst[..op0]);
      StepTrans(src, total, AtOffset(token), ip0, before[..op0], AtMatch(offset, length), next, before[..op0],
                Failed, next, dst[..op0]);
      return Failed, next, op0;
    }
    FastMatchCopy(dst, short, offset, length, op0, oend);
    at, ip, op := AtToken, next, op0 + length;
    MatchCopied(src, total, offset, length, next, before, dst[..], op0);
    StepTrans(src, total, AtOffset(token), ip0, before[..op0], AtMatch(offset, length), next, before[..op0],
              AtToken, next, dst[..op]);
  }

  /** One sequence of the fast loop: on to the next token, over to the safe loop in mid
      sequence, or an error. */
  method FastSequence(src: Buffer, dst: array<byte>, ip0: nat, op0: nat, oend: nat,
                      prefix64k: bool, lowPrefix: int, ghost total: nat)
    returns (at: Label, ip: nat, op: nat)
    requires ip0 < |src| < TWO31 && op0 + FASTLOOP_SAFE_DISTANCE <= oend <= dst.Length
    requires PrefixMode(prefix64k, lowPrefix, op0) && total <= oend < op0 + TWO31
    modifies dst
    ensures forall k :: 0 <= k < op0 || oend <= k < dst.Length ==> dst[k] == old(dst[k])
    ensures !at.AtOffset? && !at.Done? && op0 <= op <= oend && ip0 < ip <= |src|
    ensures at.AtToken? ==> ip < |src| && op + FASTLOOP_SAFE_DISTANCE < oend
    ensures SafeState(src, at, ip, op, oend)
    ensures Step(src, total, AtToken, ip0, old(dst[..op0]), at, ip, dst[..op])
  {
    ghost var before := dst[..];
    var length, next, ok := LiteralLength(src, ip0);
    var token := src[ip0];
    if !ok { TokenRefused(src, total, ip0, next, before[..op0]); return Failed, next, op0; }
    TokenRead(src, total, ip0, length, next, before[..op0]);
    at, ip, op := FastLiterals(src, dst, token, length, next, op0, oend, total);
    StepTrans(src, total, AtToken, ip0, before[..op0], AtLiterals(token, length), next, before[..op0], at, ip,
      dst[..op]);
    if at.AtOffset? {
      ghost var ip1, op1, mid := ip, op, dst[..op];
      at, ip, op := FastMatch(src, dst, token, ip, op, oend, prefix64k, lowPrefix, total);
      StepTrans(src, total, AtToken, ip0, before[..op0], AtOffset(token), ip1, mid, at, ip, dst[..op]);
    }
  }

  lemma {:induction false} TokenRefused(src: Buffer, total: nat, ip0: nat, ip: nat, out: Buffer)
    requires ip0 < |src| && !LiteralsInside(src, ip0)
    ensures Step(src, total, AtToken, ip0, out, Failed, ip, out)
  {
    hide LiteralRun;
  }

  method FastLoop(src: Buffer, dst: array<byte>, op0: nat, oend: nat,
                  prefix64k: bool, lowPrefix: int, ghost total: nat)
    returns (at: Label, ip: nat, op: nat)
    requires 0 < |src| < TWO31 && op0 + FASTLOOP_SAFE_DISTANCE <= oend <= dst.Length
    requires PrefixMode(prefix64k, lowPrefix, op0) && total <= oend < op0 + TWO31
    modifies dst
    ensures forall k :: 0 <= k < op0 || oend <= k < dst.Length ==> dst[k] == old(dst[k])
    ensures (at.AtLiterals? || at.AtMatch? || at.Failed?) && op0 <= op <= oend && ip <= |src|
    ensures SafeState(src, at, ip, op, oend)
    ensures Step(src, total, AtToken, 0, old(dst[..op0]), at, ip, dst[..op])
  {
    ghost var out0 := dst[..op0];
    at, ip, op := AtToken, 0, op0;
    StepRefl(src, total, AtToken, 0, out0);
    while at == AtToken
      invariant forall k :: 0 <= k < op0 || oend <= k < dst.Length ==> dst[k] == old(dst[k])
      invariant !at.AtOffset? && !at.Done? && op0 <= op <= oend && ip <= |src|
      invariant at.AtToken? ==> ip < |src| && op + FASTLOOP_SAFE_DISTANCE <= oend
      invariant SafeState(src, at, ip, op, oend)
      invariant Step(src, total, AtToken, 0, out0, at, ip, dst[..op])
      decreases |src| - ip
    {
      hide Step;
      ghost var ip1, mid := ip, dst[..op];
      at, ip, op := FastSequence(src, dst, ip, op, oend, prefix64k, lowPrefix, total);
      StepTrans(src, total, AtToken, 0, out0, AtToken, ip1, mid, at, ip, dst[..op]);
    }
  }

  // ---------------------------------------------------------------- safe loop

  /** Literals of the safe loop: the last ones exactly, others 8 at a time. */
  method SafeLiterals(src: Buffer, dst: array<byte>, token: byte, length: nat, ip0: nat, op0: nat, oend: nat,
                      ghost total: nat)
    returns (at: Label, ip: nat, op: nat)
    requires ip0 <= |src| && op0 <= oend <= dst.Length && total <= oend
    modifies dst
    ensures forall k :: 0 <= k < op0 || oend <= k < dst.Length ==> dst[k] == old(dst[k])
    ensures at == AtOffset(token) || at == Done || at == Failed
    ensures op0 <= op && ip0 <= ip && SafeState(src, at, ip, op, oend)
    ensures at == Done <==> ip0 + length == |src| && op0 + length <= oend
    ensures at == Done ==> op == op0 + length
    ensures Step(src, total, AtLiterals(token, length), ip0, old(dst[..op0]), at, ip, dst[..op])
  {
    ghost var before := dst[..];
    var cpy := op0 + length;
    if cpy > oend - MFLIMIT || ip0 + length > |src| - (2 + 1 + LASTLITERALS) {
      if ip0 + length != |src| || cpy > oend {
        LiteralsRefused(src, total, token, length, ip0, before[..op0], oend);
        return Failed, ip0, op0;
      }
      Memcpy(dst, op0, src, ip0, length);
      at := Done;
    } else {
      WildCopy8(dst, op0, src, ip0, cpy, oend);
      at := AtOffset(token);
    }
    ip, op := ip0 + length, cpy;
    assert dst[..op] == before[..op0] + src[ip0..ip];
    LiteralsStep(src, total, token, length, ip0, before[..op0], at, ip, dst[..op]);
  }

  lemma {:induction false} LiteralsRefused(src: Buffer, total: nat, token: byte, n: nat, ip: nat, out: Buffer,
      oend: nat)
    requires ip <= |src| && total <= oend
    requires |out| + n > oend - MFLIMIT || ip + n > |src| - (2 + 1 + LASTLITERALS)
    requires ip + n != |src| || |out| + n > oend
    ensures Step(src, total, AtLiterals(token, n), ip, out, Failed, ip, out)
  {
    if ConformsFrom(src, AtLiterals(token, n), ip, |out|, total) {
      LiteralsConform(src, total, token, n, ip, |out|);
    }
  }

  /** The match copy of the safe loop. */
  method SafeMatch(src: Buffer, dst: array<byte>, offset: nat, length: nat, ip: nat, op0: nat, oend: nat,
                   prefix64k: bool, lowPrefix: int, ghost total: nat)
    returns (at: Label, op: nat)
    requires SafeState(src, AtMatch(offset, length), ip, op0, oend) && oend <= dst.Length && total <= oend
    requires PrefixMode(prefix64k, lowPrefix, op0)
    modifies dst
    ensures forall k :: 0 <= k < op0 || oend <= k < dst.Length ==> dst[k] == old(dst[k])
    ensures (at == AtToken || at == Failed) && op0 <= op && SafeState(src, at, ip, op, oend)
    ensures Step(src, total, AtMatch(offset, length), ip, old(dst[..op0]), at, ip, dst[..op])
  {
    ghost var before := dst[..];
    OffsetVisible(src, prefix64k, lowPrefix, op0, offset);
    if BeforePrefix(op0, offset, lowPrefix) {
      MatchRefused(src, total, offset, length, ip, before[..op0], dst[..op0]);
      return Failed, op0;
    }
    var ok := SafeMatchCopy(dst, op0, offset, length, oend);
    if !ok {
      MatchTooLong(src, total, offset, length, ip, before[..op0], dst[..op0], oend);
      return Failed, op0;
    }
    at, op := AtToken, op0 + length;
    MatchCopied(src, total, offset, length, ip, before, dst[..], op0);
  }

  lemma {:induction false} MatchTooLong(src: Buffer, total: nat, offset: nat, m: nat, ip: nat, out: Buffer,
      out': Buffer, oend: nat)
    requires |out| + m + LASTLITERALS > oend && total <= oend
    ensures Step(src, total, AtMatch(offset, m), ip, out, Failed, ip, out')
  {}

  /** The two-stage shortcut: at most 14 literals copied as 16 bytes, then, if the match is
      short and far enough back, 18 bytes for the match. */
  method Shortcut(src: Buffer, dst: array<byte>, ip0: nat, op0: nat, oend: nat,
                  prefix64k: bool, lowPrefix: int, ghost total: nat)
    returns (at: Label, ip: nat, op: nat)
    requires ip0 + 1 < |src| - 16 && |src| < TWO31 && op0 + 32 <= oend <= dst.Length && oend < op0 + TWO31
    requires src[ip0] / 16 != RUN_MASK && PrefixMode(prefix64k, lowPrefix, op0) && total <= oend
    modifies dst
    ensures forall k :: 0 <= k < op0 || oend <= k < dst.Length ==> dst[k] == old(dst[k])
    ensures at.AtToken? || at.AtMatch? || at.Failed?
    ensures ip0 < ip && op0 <= op && SafeState(src, at, ip, op, oend)
    ensures Step(src, total, AtToken, ip0, old(dst[..op0]), at, ip, dst[..op])
  {
    hide Step;
    ghost var before := dst[..];
    var token := src[ip0];
    var n := token / 16;
    Memcpy(dst, op0, src, ip0 + 1, 16);
    op := op0 + n;
    ghost var mid := dst[..op];
    assert mid == before[..op0] + src[ip0 + 1..ip0 + 1 + n];
    TokenRead(src, total, ip0, n, ip0 + 1, before[..op0]);
    LiteralsStep(src, total, token, n, ip0 + 1, before[..op0], AtOffset(token), ip0 + 1 + n, mid);
    StepTrans(src, total, AtToken, ip0, before[..op0], AtLiterals(token, n), ip0 + 1, before[..op0],
              AtOffset(token), ip0 + 1 + n, mid);
    at, ip, op := ShortcutMatch(src, dst, token, ip0 + 1 + n, op, oend, prefix64k, lowPrefix, total);
    StepTrans(src, total, AtToken, ip0, before[..op0], AtOffset(token), ip0 + 1 + n, mid, at, ip, dst[..op]);
  }

  method ShortcutMatch(src: Buffer, dst: array<byte>, token: byte, ip0: nat, op0: nat, oend: nat,
                       prefix64k: bool, lowPrefix: int, ghost total: nat)
    returns (at: Label, ip: nat, op: nat)
    requires ip0 + 3 <= |src| < TWO31 && op0 + 18 <= oend <= dst.Length && oend < op0 + TWO31
    requires PrefixMode(prefix64k, lowPrefix, op0) && total <= oend
    modifies dst
    ensures forall k :: 0 <= k < op0 || oend <= k < dst.Length ==> dst[k] == old(dst[k])
    ensures at.AtToken? || at.AtMatch? || at.Failed?
    ensures ip0 <= ip && op0 <= op && SafeState(src, at, ip, op, oend)
    ensures Step(src, total, AtOffset(token), ip0, old(dst[..op0]), at, ip, dst[..op])
  {
    hide Step;
    ghost var before := dst[..];
    var offset, length, next, ok := MatchHeader(src, token, ip0, op0, before[..op0], total);
    OffsetVisible(src, prefix64k, lowPrefix, op0, offset);
    if !ok { return Failed, next, op0; }
    if token % 16 == ML_MASK || offset < 8 || (!prefix64k && BeforePrefix(op0, offset, lowPrefix)) {
      return AtMatch(offset, length), next, op0;
    }
    Copy18(dst, op0, offset, length);
    at, ip, op := AtToken, next, op0 + length;
    MatchCopied(src, total, offset, length, next, before, dst[..], op0);
    StepTrans(src, total, AtOffset(token), ip0, before[..op0], AtMatch(offset, length), next, before[..op0],
              AtToken, next, dst[..op]);
  }

  /** One label of the safe loop to the next. */
  method SafeStep(src: Buffer, dst: array<byte>, at0: Label, ip0: nat, op0: nat, oend: nat,
                  prefix64k: bool, lowPrefix: int, ghost total: nat)
    returns (at: Label, ip: nat, op: nat)
    requires SafeState(src, at0, ip0, op0, oend) && !at0.Done? && !at0.Failed?
    requires |src| < TWO31 && oend <= dst.Length && oend < op0 + TWO31
    requires PrefixMode(prefix64k, lowPrefix, op0) && total <= oend
    modifies dst
    ensures forall k :: 0 <= k < op0 || oend <= k < dst.Length ==> dst[k] == old(dst[k])
    ensures op0 <= op && ip0 <= ip && SafeState(src, at, ip, op, oend)
    ensures ip0 < ip || Rank(at) < Rank(at0)
    ensures at0.AtToken? && src[ip0] / 16 == RUN_MASK && EndsBy(src, ip0 + 1, |src| - RUN_MASK) ==>
      at == AtLiterals(src[ip0], WrappedRun(src, ip0).0) && (ip, op) == (WrappedRun(src, ip0).1, op0)
    ensures at0.AtLiterals? && ip0 + at0.length == |src| && op0 + at0.length <= oend ==>
      at == Done && op == op0 + at0.length
    ensures Step(src, total, at0, ip0, old(dst[..op0]), at, ip, dst[..op])
  {
    ghost var out := dst[..op0];
    match at0
    case AtToken =>
      if src[ip0] / 16 != RUN_MASK && ip0 + 1 < |src| - 16 && op0 <= oend - 32 {
        at, ip, op := Shortcut(src, dst, ip0, op0, oend, prefix64k, lowPrefix, total);
      } else {
        var length, next, ok := LiteralLength(src, ip0);
        if !ok { TokenRefused(src, total, ip0, next, out); return Failed, next, op0; }
        TokenRead(src, total, ip0, length, next, out);
        at, ip, op := AtLiterals(src[ip0], length), next, op0;
      }
    case AtLiterals(token, length) =>
      at, ip, op := SafeLiterals(src, dst, token, length, ip0, op0, oend, total);
    case AtOffset(token) =>
      var offset, length, next, ok := MatchHeader(src, token, ip0, op0, out, total);
      at, ip, op := if ok then AtMatch(offset, length) else Failed, next, op0;
    case AtMatch(offset, length) =>
      ip := ip0;
      at, op := SafeMatch(src, dst, offset, length, ip0, op0, oend, prefix64k, lowPrefix, total);
  }

  function Rank(at: Label): nat {
    match at
    case AtLiterals(_, _) => 3
    case AtOffset(_) => 2
    case AtMatch(_, _) => 2
    case AtToken => 1
    case _ => 0
  }

  /** A token whose literals, as the decoder reads their number, are the rest of the block. */
  predicate OneRun(src: Buffer, i: nat) {
    i < |src| && src[i] / 16 == RUN_MASK && EndsBy(src, i + 1, |src| - RUN_MASK) &&
    WrappedRun(src, i).0 + WrappedRun(src, i).1 == |src|
  }

  predicate RunState(src: Buffer, i: nat, op0: nat, at: Label, ip: nat, op: nat)
    requires OneRun(src, i)
  {
    match at
    case AtToken => (ip, op) == (i, op0)
    case AtLiterals(_, n) => n == WrappedRun(src, i).0 && (ip, op) == (WrappedRun(src, i).1, op0)
    case Done => op == op0 + WrappedRun(src, i).0
    case _ => false
  }

  method SafeLoop(src: Buffer, dst: array<byte>, at0: Label, ip0: nat, op0: nat, oend: nat,
                  prefix64k: bool, lowPrefix: int, ghost total: nat)
    returns (done: bool, ip: nat, op: nat)
    requires SafeState(src, at0, ip0, op0, oend) && !at0.Done? && !at0.Failed?
    requires |src| < TWO31 && oend <= dst.Length && oend < op0 + TWO31
    requires PrefixMode(prefix64k, lowPrefix, op0) && total <= oend
    modifies dst
    ensures forall k :: 0 <= k < op0 || oend <= k < dst.Length ==> dst[k] == old(dst[k])
    ensures op0 <= op <= oend && ip <= |src|
    ensures Step(src, total, at0, ip0, old(dst[..op0]), if done then Done else Failed, ip, dst[..op])
    ensures at0.AtToken? && OneRun(src, ip0) && op0 + WrappedRun(src, ip0).0 <= oend ==>
      done && op == op0 + WrappedRun(src, ip0).0
  {
    ghost var out0 := dst[..op0];
    var at := at0;
    ip, op := ip0, op0;
    StepRefl(src, total, at0, ip0, out0);
    while at != Done && at != Failed
      invariant forall k :: 0 <= k < op0 || oend <= k < dst.Length ==> dst[k] == old(dst[k])
      invariant op0 <= op && SafeState(src, at, ip, op, oend)
      invariant Step(src, total, at0, ip0, out0, at, ip, dst[..op])
      invariant at0.AtToken? && OneRun(src, ip0) && op0 + WrappedRun(src, ip0).0 <= oend ==>
        RunState(src, ip0, op0, at, ip, op)
      decreases |src| - ip, Rank(at)
    {
      hide Step, SafeState, PrefixMode;
      ghost var at1, ip1, mid := at, ip, dst[..op];
      at, ip, op := SafeStep(src, dst, at, ip, op, oend, prefix64k, lowPrefix, total);
      StepTrans(src, total, at0, ip0, out0, at1, ip1, mid, at, ip, dst[..op]);
    }
    done := at == Done;
  }

  lemma {:induction false} StepRefl(src: Buffer, total: nat, at: Label, ip: nat, out: Buffer)
    ensures Step(src, total, at, ip, out, at, ip, out)
  {}

  // ---------------------------------------------------------------- entry points

  /** A conforming block of the given history that fits into `room` bytes of output. */
  ghost predicate Decodable(src: Buffer, hist: Buffer, room: nat) {
    match Decode(src, 0, hist)
    case None => false
    case Some(w) => Conforms(src, 0, |hist|, |w|) && |w| <= |hist| + room
  }

  /** LZ4_decompress_generic.  The history is dst[..start], the output goes to
      dst[start..start + outputSize]; the result is the output size or negative. */
  method DecompressGeneric(src: Buffer, dst: array<byte>, start: nat, outputSize: nat, prefix64k: bool) returns (r: int)
    requires |src| < TWO31 && start + outputSize <= dst.Length && outputSize < TWO31
    requires prefix64k ==> start >= DISTANCE_MAX
    modifies dst
    ensures forall k :: 0 <= k < start || start + outputSize <= k < dst.Length ==> dst[k] == old(dst[k])
    ensures r <= outputSize && -r <= |src| + 1
    ensures r >= 0 ==> (Decode(src, 0, old(dst[..start])) == Some(dst[..start + r]) <==> LengthsFit(src, 0))
    ensures Decodable(src, old(dst[..start]), outputSize) ==> (r >= 0 <==> outputSize > 0 || src == [0])
    ensures Decodable(src, old(dst[..start]), outputSize) && r >= 0 ==>
      Decode(src, 0, old(dst[..start])) == Some(dst[..start + r])
    ensures outputSize == 0 ==> r == if src == [0] then 0 else -1
    ensures OneRun(src, 0) && WrappedRun(src, 0).0 <= outputSize < FASTLOOP_SAFE_DISTANCE ==> r == WrappedRun(src, 0).0
  {
    hide Decode, Conforms, Step, LengthsFit;
    if outputSize == 0 {
      EmptyOutput(dst[..start]);
      ZeroFits();
      assert |src| == 1 && src[0] == 0 ==> src == [0];
      return if |src| == 1 && src[0] == 0 then 0 else -1;
    }
    if |src| == 0 { EmptyInput(src, dst[..start]); return -1; }
    var oend, lowPrefix := start + outputSize, if prefix64k then start - 65536 else 0;
    ghost var hist := dst[..start];
    ghost var total := if Decodable(src, hist, outputSize) then |Decode(src, 0, hist).value| else 0;
    var at, ip, op := AtToken, 0, start;
    StepRefl(src, total, at, ip, hist);
    if oend - op >= FASTLOOP_SAFE_DISTANCE {
      at, ip, op := FastLoop(src, dst, op, oend, prefix64k, lowPrefix, total);
    }
    var done := false;
    if at != Failed {
      ghost var at1, ip1, mid := at, ip, dst[..op];
      done, ip, op := SafeLoop(src, dst, at, ip, op, oend, prefix64k, lowPrefix, total);
      StepTrans(src, total, AtToken, 0, hist, at1, ip1, mid, if done then Done else Failed, ip, dst[..op]);
    }
    StepEnds(src, total, hist, done, ip, dst[..op]);
    if !LengthsFit(src, 0) { WrapSeparates(src, 0, hist); }
    var used: int := ip;
    if done { r := op - start; } else { r := -used - 1; }
  }

  lemma {:induction false} EmptyInput(src: Buffer, hist: Buffer)
    requires src == []
    ensures Decode(src, 0, hist) == None
  {}

  lemma {:induction false} EmptyOutput(hist: Buffer)
    ensures Decode([0], 0, hist) == Some(hist)
  {
    var src: Buffer := [0];
    assert Parse(src, 0) == Last(1) && hist + src[1..] == hist;
  }

  lemma {:induction false} ZeroFits()
    ensures LengthsFit([0], 0)
  {}

  /** Where a length field reaches 32 bits the reference decodes nothing, or at least 2^32
      more bytes. */
  lemma {:induction false} WrapSeparates(src: Buffer, i: nat, out: Buffer)
    requires |src| < TWO31 && !LengthsFit(src, i)
    ensures Decode(src, i, out).Some? ==> |Decode(src, i, out).value| >= |out| + TWO32
    decreases |src| - i
  {
    WrapCases(src, i);
    hide Parse, CopyMatch, LengthsFit;
    if Decode(src, i, out).Some? {
      var More(at, n, offset, m, next) := Parse(src, i);
      var more := CopyMatch(out + src[at..at + n], offset, m);
      DecodeGrows(src, next, more);
      if m < TWO32 { WrapSeparates(src, next, more); }
    }
  }

  lemma {:induction false} WrapCases(src: Buffer, i: nat)
    requires |src| < TWO31 && !LengthsFit(src, i)
    ensures match Parse(src, i)
            case Malformed => true
            case Last(_) => false
            case More(_, _, _, m, next) => m >= TWO32 || !LengthsFit(src, next)
  {
    LongRun(src, i + 1, RUN_MASK);
    if LiteralSumFits(src, i) {
      var Field(n, at) := LiteralRun(src, i);
      LongRun(src, at + n + 2, ML_MASK + MINMATCH);
    }
  }

  lemma {:induction false} LongRun(src: Buffer, i: nat, acc: nat)
    ensures match ExtLength(src, i, acc) case Truncated => true case Field(n, _) => n == acc + ExtSum(src, i)
    decreases |src| - i
  {
    if i < |src| && src[i] == 255 { LongRun(src, i + 1, acc + 255); }
  }

  lemma {:induction false} LongLiterals(src: Buffer, i: nat, out: Buffer)
    requires i < |src| < TWO31 && !LiteralSumFits(src, i)
    ensures Decode(src, i, out) == None
  {
    LongRun(src, i + 1, RUN_MASK);
  }

  lemma {:induction false} DecodeGrows(src: Buffer, i: nat, out: Buffer)
    requires Decode(src, i, out).Some?
    ensures |Decode(src, i, out).value| >= |out|
    decreases |src| - i
  {
    hide Parse, CopyMatch;
    if Parse(src, i).More? {
      var More(at, n, offset, m, next) := Parse(src, i);
      DecodeGrows(src, next, CopyMatch(out + src[at..at + n], offset, m));
    }
  }

  lemma {:induction false} StepEnds(src: Buffer, total: nat, hist: Buffer, done: bool, ip: nat, out: Buffer)
    requires Step(src, total, AtToken, 0, hist, if done then Done else Failed, ip, out)
    ensures done && (LengthsFit(src, 0) || Conforms(src, 0, |hist|, total)) ==> Decode(src, 0, hist) == Some(out)
    ensures Conforms(src, 0, |hist|, total) ==> done
  {
    hide Decode, Conforms;
  }

  /** Sixteen one-byte blocks decode to nothing; with no output room only [0] is accepted. */
  lemma {:induction false} EmptyDecodable(src: Buffer, hist: Buffer)
    ensures Decodable(src, hist, 0) <==> |src| == 1 && src[0] < 16
  {
    if |src| == 1 && src[0] < 16 { assert hist + src[1..] == hist; }
  }

  /** LZ4_decompress_safe. */
  method DecompressSafe(src: Buffer, dst: array<byte>, capacity: nat) returns (r: int)
    requires |src| < TWO31 && capacity <= dst.Length && capacity < TWO31
    modifies dst
    ensures forall k :: capacity <= k < dst.Length ==> dst[k] == old(dst[k])
    ensures r <= capacity && -r <= |src| + 1
    ensures r >= 0 ==> (Decode(src, 0, []) == Some(dst[..r]) <==> LengthsFit(src, 0))
    ensures Decodable(src, [], capacity) ==> (r >= 0 <==> capacity > 0 || src == [0])
    ensures Decodable(src, [], capacity) && r >= 0 ==> Decode(src, 0, []) == Some(dst[..r])
    ensures OneRun(src, 0) && WrappedRun(src, 0).0 <= capacity < FASTLOOP_SAFE_DISTANCE ==> r == WrappedRun(src, 0).0
  {
    assert dst[..0] == [];
    r := DecompressGeneric(src, dst, 0, capacity, false);
  }

  lemma {:induction false} RunOf255(src: Buffer, i: nat, n: nat, acc: nat)
    requires i + n <= |src| && forall k :: i <= k < i + n ==> src[k] == 255
    ensures ExtLength(src, i, acc) == ExtLength(src, i + n, acc + 255 * n)
    decreases n
  {
    if n > 0 { RunOf255(src, i + 1, n - 1, acc + 255); }
  }

  /** A literal length of 2^32 + 15 is read as 15: the decoder accepts a block that has no
      meaning in the format. */
  method WrappedLengthAccepted(dst: array<byte>) returns (src: Buffer, r: int)
    requires dst.Length >= 15
    modifies dst
    ensures |src| == 16843026 && r == 15 && Decode(src, 0, []) == None
  {
    src := [240] + seq(16843009, _ => 255) + [1] + seq(15, _ => 0);
    RunOf255(src, 1, 16843009, 0);
    assert ExtLength(src, 1, 0) == Field(TWO32, 16843011);
    assert WrappedRun(src, 0) == (15, 16843011);
    r := DecompressSafe(src, dst, 15);
    LongLiterals(src, 0, []) by { LongRun(src, 1, 0); }
  }
}
