/** The LZ4 block format: a reference decoder that walks a block one sequence at a
    time, the end-of-block conditions, and the writer's view of a block as a list of
    sequences.  Everything in the codec is related to these definitions. */
module Lz4Format {
  import opened Bytes

  const MINMATCH := 4
  const MFLIMIT := 12
  const LASTLITERALS := 5
  const RUN_MASK := 15
  const ML_MASK := 15
  const DISTANCE_MAX := 65535

  // ---------------------------------------------------------------- reading

  /** A length field: its value and the index of the first byte after it. */
  datatype Field = Truncated | Field(length: nat, next: nat)

  /** Extension bytes of a length field: 255 means "more follows". */
  function ExtLength(src: Buffer, i: nat, acc: nat): (f: Field)
    ensures f.Field? ==> i < f.next <= |src| && acc <= f.length
    ensures f.Field? ==> f.length <= acc + 255 * (f.next - i)
    decreases |src| - i
  {
    if i >= |src| then Truncated
    else if src[i] == 255 then ExtLength(src, i + 1, acc + 255)
    else Field(acc + src[i], i + 1)
  }

  function LiteralRun(src: Buffer, i: nat): (f: Field)
    requires i < |src|
    ensures f.Field? ==> i < f.next <= |src|
  {
    if src[i] / 16 == RUN_MASK then ExtLength(src, i + 1, RUN_MASK)
    else Field(src[i] / 16, i + 1)
  }

  function MatchRun(src: Buffer, token: byte, i: nat): (f: Field)
    requires i <= |src|
    ensures f.Field? ==> i <= f.next <= |src| && f.length >= MINMATCH
  {
    if token % 16 == ML_MASK then ExtLength(src, i, ML_MASK + MINMATCH)
    else Field(token % 16 + MINMATCH, i)
  }

  function Offset(src: Buffer, i: nat): nat
    requires i + 2 <= |src|
  {
    var lo: int, hi: int := src[i], src[i + 1];
    lo + 256 * hi
  }

  /** A match copied one byte at a time.  Offset 0 is not produced by any encoder; this
      decoder fills the match with zeros. */
  function CopyMatch(out: Buffer, offset: nat, n: nat): (r: Buffer)
    requires offset <= |out|
    ensures |r| == |out| + n
    decreases n
  {
    if n == 0 then out
    else CopyMatch(out + [if offset == 0 then 0 else out[|out| - offset]], offset, n - 1)
  }

  /** One sequence of a block: literals src[at..at + n], then (unless it is the last
      sequence) a match, then the index of the next sequence. */
  datatype Step =
    | Malformed
    | Last(at: nat)
    | More(at: nat, n: nat, offset: nat, m: nat, next: nat)

  function Parse(src: Buffer, i: nat): (step: Step)
    ensures step.Last? ==> i < step.at <= |src|
    ensures step.More? ==> i < step.at && step.at + step.n + 2 <= step.next <= |src| && step.m >= MINMATCH
  {
    if i >= |src| then Malformed
    else
      match LiteralRun(src, i)
      case Truncated => Malformed
      case Field(n, at) =>
        if at + n > |src| then Malformed
        else if at + n == |src| then Last(at)
        else if at + n + 2 > |src| then Malformed
        else
          match MatchRun(src, src[i], at + n + 2)
          case Truncated => Malformed
          case Field(m, next) => More(at, n, Offset(src, at + n), m, next)
  }

  /** The reference decoder.  `out` is the history followed by what the block has
      produced before index `i`; the result is `out` followed by the rest. */
  function Decode(src: Buffer, i: nat, out: Buffer): (r: Option<Buffer>)
    decreases |src| - i
  {
    match Parse(src, i)
    case Malformed => None
    case Last(at) => Some(out + src[at..])
    case More(at, n, offset, m, next) =>
      if offset > |out| + n then None
      else Decode(src, next, CopyMatch(out + src[at..at + n], offset, m))
  }

  /** Where the last sequence of a block starts. */
  function LastToken(src: Buffer, i: nat): (t: nat)
    decreases |src| - i
  {
    match Parse(src, i)
    case More(_, _, _, _, next) => LastToken(src, next)
    case _ => i
  }

  // ---------------------------------------------------------------- end-of-block conditions

  /** The block from index `i` on obeys the end-of-block conditions for an output of
      `total` bytes of which `pos` precede it: offsets stay inside the output, every
      match starts at least 12 and ends at least 5 bytes before the end. */
  predicate Conforms(src: Buffer, i: nat, pos: nat, total: nat)
    decreases |src| - i
  {
    match Parse(src, i)
    case Malformed => false
    case Last(at) => pos + |src| - at == total
    case More(at, n, offset, m, next) =>
      offset <= pos + n && pos + n + MFLIMIT <= total && pos + n + m + LASTLITERALS <= total &&
      Conforms(src, next, pos + n + m, total)
  }

  /** One step of the reference decoder and of the conditions. */
  lemma {:induction false} DecodeMore(src: Buffer, i: nat, out: Buffer, whole: Buffer, at: nat, n: nat, offset: nat,
      m: nat, next: nat)
    requires Parse(src, i) == More(at, n, offset, m, next) && offset <= |out| + n
    requires |out| + n + MFLIMIT <= |whole| && |out| + n + m + LASTLITERALS <= |whole|
    ensures Decode(src, next, CopyMatch(out + src[at..at + n], offset, m)) == Some(whole) &&
            Conforms(src, next, |out| + n + m, |whole|) ==>
              Decode(src, i, out) == Some(whole) && Conforms(src, i, |out|, |whole|)
  {
    hide Parse, CopyMatch;
  }

  /** A conforming block decodes, to exactly `total` bytes, and grows its output. */
  lemma {:induction false} ConformsDecodes(src: Buffer, i: nat, out: Buffer, total: nat)
    requires Conforms(src, i, |out|, total)
    ensures Decode(src, i, out).Some? && |Decode(src, i, out).value| == total
    ensures out <= Decode(src, i, out).value
    decreases |src| - i
  {
    hide CopyMatch, Parse;
    match Parse(src, i)
    case Last(at) =>
    case More(at, n, offset, m, next) =>
      var out1 := out + src[at..at + n];
      CopyMatchPrefix(out1, offset, m);
      ConformsDecodes(src, next, CopyMatch(out1, offset, m), total);
      assert Decode(src, i, out) == Decode(src, next, CopyMatch(out1, offset, m));
  }

  /** Five more output bytes cannot be described in fewer than six input bytes. */
  lemma {:induction false} ConformsTail(src: Buffer, i: nat, pos: nat, total: nat)
    requires Conforms(src, i, pos, total) && pos + LASTLITERALS <= total
    ensures i + 1 + LASTLITERALS <= |src|
    decreases |src| - i
  {
    match Parse(src, i)
    case Last(at) =>
    case More(at, n, offset, m, next) => ConformsTail(src, next, pos + n + m, total);
  }

  /** The conditions do not depend on how much history lies in front. */
  lemma {:induction false} ConformsWithMoreHistory(src: Buffer, i: nat, front: nat, pos: nat, total: nat)
    requires Conforms(src, i, pos, total)
    ensures Conforms(src, i, front + pos, front + total)
    decreases |src| - i
  {
    hide Parse;
    match Parse(src, i)
    case Last(at) =>
    case More(at, n, offset, m, next) =>
      ConformsWithMoreHistory(src, next, front, pos + n + m, total);
  }

  /** More history in front changes nothing but the front. */
  lemma {:induction false} DecodeWithMoreHistory(src: Buffer, i: nat, front: Buffer, out: Buffer)
    requires Decode(src, i, out).Some?
    ensures Decode(src, i, front + out) == Some(front + Decode(src, i, out).value)
    decreases |src| - i
  {
    hide CopyMatch, Parse;
    match Parse(src, i)
    case Last(at) =>
      assert front + (out + src[at..]) == front + out + src[at..];
    case More(at, n, offset, m, next) =>
      var out1 := out + src[at..at + n];
      assert front + out + src[at..at + n] == front + out1;
      CopyMatchFront(front, out1, offset, m);
      DecodeWithMoreHistory(src, next, front, CopyMatch(out1, offset, m));
      assert Decode(src, i, out) == Decode(src, next, CopyMatch(out1, offset, m));
      assert Decode(src, i, front + out) == Decode(src, next, front + CopyMatch(out1, offset, m));
  }

  lemma {:induction false} CopyMatchFront(front: Buffer, out: Buffer, offset: nat, n: nat)
    requires offset <= |out|
    ensures CopyMatch(front + out, offset, n) == front + CopyMatch(out, offset, n)
    decreases n
  {
    if n > 0 {
      var b: byte := if offset == 0 then 0 else out[|out| - offset];
      assert front + out + [b] == front + (out + [b]);
      CopyMatchFront(front, out + [b], offset, n - 1);
    }
  }

  // ---------------------------------------------------------------- overlapping copies

  lemma {:induction false} CopyMatchPrefix(out: Buffer, offset: nat, n: nat)
    requires offset <= |out|
    ensures out <= CopyMatch(out, offset, n)
    decreases n
  {
    if n > 0 {
      CopyMatchPrefix(out + [if offset == 0 then 0 else out[|out| - offset]], offset, n - 1);
    }
  }

  /** The byte `offset` before, or zero for offset 0. */
  ghost predicate CopiedAt(s: Buffer, k: nat, offset: nat)
    requires k < |s| && offset <= k
  {
    s[k] == if offset == 0 then 0 else s[k - offset]
  }

  ghost predicate CopiedFrom(s: Buffer, lo: nat, offset: nat)
    requires offset <= lo
  {
    forall k {:trigger CopiedAt(s, k, offset)} :: lo <= k < |s| ==> CopiedAt(s, k, offset)
  }

  /** The byte-at-a-time copy is the only extension in which every new byte repeats the
      one `offset` before it (or is zero for offset 0). */
  lemma {:induction false} CopyMatchUnique(out: Buffer, offset: nat, n: nat, s: Buffer)
    requires offset <= |out| && |s| == |out| + n && s[..|out|] == out
    requires CopiedFrom(s, |out|, offset)
    ensures s == CopyMatch(out, offset, n)
    decreases n
  {
    if n > 0 {
      assert CopiedAt(s, |out|, offset);
      var next := out + [if offset == 0 then 0 else out[|out| - offset]];
      assert s[..|next|] == next;
      CopyMatchUnique(next, offset, n - 1, s);
    }
  }

  /** ... and it does extend that way. */
  lemma {:induction false} CopyMatchRepeats(out: Buffer, offset: nat, n: nat, k: nat)
    requires 0 < offset <= |out| && |out| <= k < |out| + n
    ensures CopyMatch(out, offset, n)[k] == CopyMatch(out, offset, n)[k - offset]
    decreases n
  {
    var next := out + [out[|out| - offset]];
    if k == |out| {
      CopyMatchPrefix(next, offset, n - 1);
      assert CopyMatch(next, offset, n - 1)[..|next|] == next;
    } else {
      CopyMatchRepeats(next, offset, n - 1, k);
    }
  }

  ghost predicate RepeatsAt(a: Buffer, k: nat, delta: nat)
    requires k < |a| && delta <= k
  {
    a[k] == a[k - delta]
  }

  /** Every byte of a[lo..hi] repeats the one `delta` before it. */
  ghost predicate Repeats(a: Buffer, lo: nat, hi: nat, delta: nat)
    requires hi <= |a| && delta <= lo
  {
    forall k {:trigger RepeatsAt(a, k, delta)} :: lo <= k < hi ==> RepeatsAt(a, k, delta)
  }

  // ---------------------------------------------------------------- writing

  datatype Sequence = Sequence(literals: Buffer, offset: nat, length: nat)

  predicate ValidSequence(s: Sequence) { 0 < s.offset <= DISTANCE_MAX && s.length >= MINMATCH }

  function ExtBytes(k: nat): (r: Buffer)
    ensures |r| == k / 255 + 1
  {
    if k < 255 then [k] else [255] + ExtBytes(k - 255)
  }

  function Ext(n: nat): (r: Buffer)
    ensures |r| == (n + 240) / 255
  {
    if n < 15 then [] else ExtBytes(n - 15)
  }

  function Nibble(n: nat): (r: nat)
    ensures r < 16
  { if n < 15 then n else 15 }

  function LiteralPart(token: byte, lits: Buffer): Buffer { [token] + Ext(|lits|) + lits }

  function Token(s: Sequence): byte
    requires ValidSequence(s)
  {
    Nibble(|s.literals|) * 16 + Nibble(s.length - MINMATCH)
  }

  function MatchPart(s: Sequence): Buffer
    requires ValidSequence(s)
  {
    [s.offset % 256, s.offset / 256] + Ext(s.length - MINMATCH)
  }

  function WriteSequence(s: Sequence): Buffer
    requires ValidSequence(s)
  {
    LiteralPart(Token(s), s.literals) + MatchPart(s)
  }

  function WriteLast(lits: Buffer): Buffer { LiteralPart(Nibble(|lits|) * 16, lits) }

  predicate AllValid(seqs: seq<Sequence>) { forall i :: 0 <= i < |seqs| ==> ValidSequence(seqs[i]) }

  function Write(seqs: seq<Sequence>): (r: Buffer)
    requires AllValid(seqs)
  {
    if seqs == [] then [] else Write(seqs[..|seqs| - 1]) + WriteSequence(seqs[|seqs| - 1])
  }

  /** What a list of sequences stands for: `hist` extended by literals and matches;
      None when an offset reaches before the history. */
  function Expand(hist: Buffer, seqs: seq<Sequence>): (r: Option<Buffer>)
  {
    if seqs == [] then Some(hist)
    else
      var before := Expand(hist, seqs[..|seqs| - 1]);
      var s := seqs[|seqs| - 1];
      if before.None? || s.offset > |before.value| + |s.literals| then None
      else Some(CopyMatch(before.value + s.literals, s.offset, s.length))
  }

  /** Every match of the expansion starts by `maxStart` and ends by `maxEnd`. */
  predicate Within(hist: Buffer, seqs: seq<Sequence>, maxStart: int, maxEnd: int)
    requires Expand(hist, seqs).Some?
    decreases |seqs|
  {
    seqs == [] ||
    (var s := seqs[|seqs| - 1];
     |Expand(hist, seqs).value| - s.length <= maxStart && |Expand(hist, seqs).value| <= maxEnd &&
     Within(hist, seqs[..|seqs| - 1], maxStart, maxEnd))
  }

  lemma {:induction false} WithinWeaken(hist: Buffer, seqs: seq<Sequence>, s0: int, e0: int, s1: int, e1: int)
    requires Expand(hist, seqs).Some? && Within(hist, seqs, s0, e0) && s0 <= s1 && e0 <= e1
    ensures Within(hist, seqs, s1, e1)
    decreases |seqs|
  {
    if seqs != [] { WithinWeaken(hist, seqs[..|seqs| - 1], s0, e0, s1, e1); }
  }

  lemma {:induction false} ReadsBackExt(src: Buffer, i: nat, acc: nat, k: nat)
    requires At(src, i, ExtBytes(k))
    ensures ExtLength(src, i, acc) == Field(acc + k, i + |ExtBytes(k)|)
    decreases k
  {
    assert src[i] == ExtBytes(k)[0];
    if k >= 255 {
      AtConcat(src, i, [255], ExtBytes(k - 255));
      ReadsBackExt(src, i + 1, acc + 255, k - 255);
    }
  }

  /** The literal half of a written sequence reads back. */
  lemma {:induction false} ReadsBackLiterals(src: Buffer, i: nat, token: byte, lits: Buffer)
    requires token / 16 == Nibble(|lits|) && At(src, i, LiteralPart(token, lits))
    ensures i < |src| && src[i] == token
    ensures LiteralRun(src, i) == Field(|lits|, i + 1 + |Ext(|lits|)|)
    ensures At(src, i + 1 + |Ext(|lits|)|, lits)
  {
    hide ExtLength, Ext, Nibble, LiteralRun;
    AtConcat(src, i, [token] + Ext(|lits|), lits);
    ReadsBackRun(src, i, token, |lits|);
  }

  lemma {:induction false} ReadsBackRun(src: Buffer, i: nat, token: byte, n: nat)
    requires token / 16 == Nibble(n) && At(src, i, [token] + Ext(n))
    ensures i < |src| && src[i] == token && LiteralRun(src, i) == Field(n, i + 1 + |Ext(n)|)
  {
    hide ExtLength;
    AtConcat(src, i, [token], Ext(n));
    assert src[i] == [token][0];
    if n >= 15 { ReadsBackExt(src, i + 1, 15, n - 15); }
  }

  /** The match half of a written sequence reads back. */
  lemma {:induction false} ReadsBackMatch(src: Buffer, q: nat, s: Sequence)
    requires ValidSequence(s) && At(src, q, MatchPart(s))
    ensures q + 2 <= |src| && Offset(src, q) == s.offset
    ensures MatchRun(src, Token(s), q + 2) == Field(s.length, q + |MatchPart(s)|)
  {
    hide Token, Ext, Nibble, MatchRun, ExtLength;
    var offset: Buffer := [s.offset % 256, s.offset / 256];
    AtConcat(src, q, offset, Ext(s.length - MINMATCH));
    assert src[q] == offset[0] && src[q + 1] == offset[1];
    TokenNibbles(s);
    ReadsBackMatchRun(src, q + 2, Token(s), s.length - MINMATCH);
  }

  lemma {:induction false} ReadsBackMatchRun(src: Buffer, q: nat, token: byte, n: nat)
    requires token % 16 == Nibble(n) && At(src, q, Ext(n))
    ensures MatchRun(src, token, q) == Field(n + MINMATCH, q + |Ext(n)|)
  {
    hide ExtLength;
    if n >= 15 { ReadsBackExt(src, q, 19, n - 15); }
  }

  lemma {:induction false} TokenNibbles(s: Sequence)
    requires ValidSequence(s)
    ensures Token(s) / 16 == Nibble(|s.literals|) && Token(s) % 16 == Nibble(s.length - MINMATCH)
  {}

  lemma {:induction false} WritePrefix(seqs: seq<Sequence>, k: nat)
    requires AllValid(seqs) && k <= |seqs|
    ensures Write(seqs[..k]) <= Write(seqs)
    decreases |seqs|
  {
    if k < |seqs| {
      assert seqs[..|seqs| - 1][..k] == seqs[..k];
      WritePrefix(seqs[..|seqs| - 1], k);
    } else {
      assert seqs[..k] == seqs;
    }
  }

  lemma {:induction false} WithinPrefix(hist: Buffer, seqs: seq<Sequence>, k: nat, maxStart: int, maxEnd: int)
    requires Expand(hist, seqs).Some? && Within(hist, seqs, maxStart, maxEnd) && k <= |seqs|
    ensures Expand(hist, seqs[..k]).Some? && Within(hist, seqs[..k], maxStart, maxEnd)
    decreases |seqs|
  {
    if k < |seqs| {
      assert seqs[..|seqs| - 1][..k] == seqs[..k];
      WithinPrefix(hist, seqs[..|seqs| - 1], k, maxStart, maxEnd);
    } else {
      assert seqs[..k] == seqs;
    }
  }

  lemma {:induction false} ReadsBackLast(src: Buffer, i: nat, lits: Buffer)
    requires i + |WriteLast(lits)| == |src| && At(src, i, WriteLast(lits))
    ensures Parse(src, i) == Last(|src| - |lits|) && src[|src| - |lits|..] == lits
  {
    ReadsBackLiterals(src, i, Nibble(|lits|) * 16, lits);
    AtSlice(src, |src| - |lits|, lits);
    assert src[|src| - |lits|..|src|] == src[|src| - |lits|..];
  }

  /** One written sequence, read back from the middle of a block. */
  lemma {:induction false} ReadsBackSequence(src: Buffer, i: nat, s: Sequence)
    requires ValidSequence(s) && At(src, i, WriteSequence(s)) && i + |WriteSequence(s)| < |src|
    ensures var at, n := i + 1 + |Ext(|s.literals|)|, |s.literals|;
            Parse(src, i) == More(at, n, s.offset, s.length, i + |WriteSequence(s)|) &&
            src[at..at + n] == s.literals
  {
    TokenNibbles(s);
    hide Token, Ext, ExtLength, Nibble, MatchPart;
    AtConcat(src, i, LiteralPart(Token(s), s.literals), MatchPart(s));
    ReadsBackLiterals(src, i, Token(s), s.literals);
    ReadsBackMatch(src, i + |LiteralPart(Token(s), s.literals)|, s);
    AtSlice(src, i + 1 + |Ext(|s.literals|)|, s.literals);
  }

  lemma {:induction false} PrefixesValid(seqs: seq<Sequence>, k: nat)
    requires AllValid(seqs) && k < |seqs|
    ensures AllValid(seqs[..k]) && AllValid(seqs[..k + 1]) && ValidSequence(seqs[k])
  {}

  lemma {:induction false} WriteSplit(seqs: seq<Sequence>, k: nat, lits: Buffer)
    requires AllValid(seqs) && k < |seqs|
    ensures var src, i, w := Write(seqs) + WriteLast(lits), |Write(seqs[..k])|, WriteSequence(seqs[k]);
            i + |w| == |Write(seqs[..k + 1])| && i + |w| < |src| && At(src, i, w)
  {
    var src, w := Write(seqs) + WriteLast(lits), WriteSequence(seqs[k]);
    assert seqs[..k + 1][..k] == seqs[..k] && seqs[..k + 1][k] == seqs[k];
    assert Write(seqs[..k + 1]) == Write(seqs[..k]) + w;
    WritePrefix(seqs, k + 1);
    hide Write, WriteLast, WriteSequence;
    AtPrefix(src, Write(seqs[..k]), w);
  }

  lemma {:induction false} ExpandStep(hist: Buffer, seqs: seq<Sequence>, k: nat, maxStart: int, maxEnd: int)
    requires Expand(hist, seqs).Some? && Within(hist, seqs, maxStart, maxEnd) && k < |seqs|
    ensures Expand(hist, seqs[..k]).Some? && Expand(hist, seqs[..k + 1]).Some?
    ensures var s, out := seqs[k], Expand(hist, seqs[..k]).value;
            s.offset <= |out| + |s.literals| &&
            Expand(hist, seqs[..k + 1]).value == CopyMatch(out + s.literals, s.offset, s.length) &&
            |out| + |s.literals| <= maxStart && |out| + |s.literals| + s.length <= maxEnd
  {
    assert seqs[..k + 1][..k] == seqs[..k] && seqs[..k + 1][k] == seqs[k];
    WithinPrefix(hist, seqs, k + 1, maxStart, maxEnd);
  }

  /** `src` is the block written for `seqs` and `lits`, `whole` what it stands for. */
  ghost predicate WrittenAs(src: Buffer, seqs: seq<Sequence>, lits: Buffer, hist: Buffer, whole: Buffer) {
    AllValid(seqs) && Expand(hist, seqs).Some? &&
    src == Write(seqs) + WriteLast(lits) && whole == Expand(hist, seqs).value + lits &&
    Within(hist, seqs, |whole| - MFLIMIT, |whole| - LASTLITERALS)
  }

  /** The k-th sequence of a written block is read where it was written ... */
  lemma {:induction false} KthRead(src: Buffer, seqs: seq<Sequence>, lits: Buffer, hist: Buffer, whole: Buffer, k: nat)
    returns (at: nat)
    requires WrittenAs(src, seqs, lits, hist, whole) && k < |seqs|
    ensures AllValid(seqs[..k]) && AllValid(seqs[..k + 1])
    ensures var s := seqs[k];
            Parse(src, |Write(seqs[..k])|) == More(at, |s.literals|, s.offset, s.length, |Write(seqs[..k + 1])|) &&
            src[at..at + |s.literals|] == s.literals
  {
    var s, i := seqs[k], |Write(seqs[..k])|;
    at := i + 1 + |Ext(|s.literals|)|;
    hide Parse, Write, WriteSequence, WriteLast, Expand, Within, Ext, At;
    WriteSplit(seqs, k, lits);
    PrefixesValid(seqs, k);
    ReadsBackSequence(src, i, s);
  }

  /** ... and does what it stands for. */
  lemma {:induction false} KthEffect(src: Buffer, seqs: seq<Sequence>, lits: Buffer, hist: Buffer, whole: Buffer,
      k: nat)
    requires WrittenAs(src, seqs, lits, hist, whole) && k < |seqs|
    ensures Expand(hist, seqs[..k]).Some? && Expand(hist, seqs[..k + 1]).Some?
    ensures var s, out, out' := seqs[k], Expand(hist, seqs[..k]).value, Expand(hist, seqs[..k + 1]).value;
            s.offset <= |out| + |s.literals| && out' == CopyMatch(out + s.literals, s.offset, s.length) &&
            |out| + |s.literals| + MFLIMIT <= |whole| && |out'| + LASTLITERALS <= |whole|
  {
    ExpandStep(hist, seqs, k, |whole| - MFLIMIT, |whole| - LASTLITERALS);
  }

  /** Reading a written block from the k-th sequence on. */
  lemma {:induction false} ReadsBackFrom(src: Buffer, seqs: seq<Sequence>, lits: Buffer, hist: Buffer, whole: Buffer,
                                         k: nat)
    requires WrittenAs(src, seqs, lits, hist, whole) && k <= |seqs|
    ensures AllValid(seqs[..k]) && Expand(hist, seqs[..k]).Some?
    ensures var i, out := |Write(seqs[..k])|, Expand(hist, seqs[..k]).value;
            Decode(src, i, out) == Some(whole) && Conforms(src, i, |out|, |whole|)
    decreases |seqs| - k
  {
    hide WrittenAs, Parse, CopyMatch, Write, Expand;
    if k == |seqs| {
      ReadsBackEnd(src, seqs, lits, hist, whole);
      assert seqs[..k] == seqs;
    } else {
      ReadsBackFrom(src, seqs, lits, hist, whole, k + 1);
      KthEffect(src, seqs, lits, hist, whole, k);
      var at := KthRead(src, seqs, lits, hist, whole, k);
      var s := seqs[k];
      DecodeMore(src, |Write(seqs[..k])|, Expand(hist, seqs[..k]).value, whole,
                 at, |s.literals|, s.offset, s.length, |Write(seqs[..k + 1])|);
    }
  }

  lemma {:induction false} ReadsBackEnd(src: Buffer, seqs: seq<Sequence>, lits: Buffer, hist: Buffer, whole: Buffer)
    requires WrittenAs(src, seqs, lits, hist, whole)
    ensures AllValid(seqs) && Expand(hist, seqs).Some?
    ensures var i, out := |Write(seqs)|, Expand(hist, seqs).value;
            Decode(src, i, out) == Some(whole) && Conforms(src, i, |out|, |whole|)
  {
    hide WriteLast, Within, Write, Expand;
    AtPrefix(src, Write(seqs), WriteLast(lits));
    ReadsBackLast(src, |Write(seqs)|, lits);
    hide Parse;
    assert Decode(src, |Write(seqs)|, Expand(hist, seqs).value) == Some(whole);
  }

  /** A written block conforms and decodes to what its sequences stand for. */
  lemma {:induction false} WrittenBlockDecodes(src: Buffer, seqs: seq<Sequence>, lits: Buffer, hist: Buffer,
      whole: Buffer)
    requires WrittenAs(src, seqs, lits, hist, whole)
    ensures Decode(src, 0, hist) == Some(whole) && Conforms(src, 0, |hist|, |whole|)
  {
    ReadsBackFrom(src, seqs, lits, hist, whole, 0);
    hide WrittenAs, Decode, Conforms;
    assert seqs[..0] == [];
  }

  /** Its last token stands behind the written sequences. */
  lemma {:induction false} WrittenLastToken(src: Buffer, seqs: seq<Sequence>, lits: Buffer, hist: Buffer, whole: Buffer)
    requires WrittenAs(src, seqs, lits, hist, whole)
    ensures AllValid(seqs) && LastToken(src, 0) == |Write(seqs)|
  {
    LastTokenFrom(src, seqs, lits, hist, whole, 0);
    hide WrittenAs, LastToken;
    assert seqs[..0] == [];
  }

  lemma {:induction false} LastTokenFrom(src: Buffer, seqs: seq<Sequence>, lits: Buffer, hist: Buffer, whole: Buffer,
                                         k: nat)
    requires WrittenAs(src, seqs, lits, hist, whole) && k <= |seqs|
    ensures AllValid(seqs) && AllValid(seqs[..k]) && LastToken(src, |Write(seqs[..k])|) == |Write(seqs)|
    decreases |seqs| - k
  {
    hide WrittenAs, Parse, Write;
    if k == |seqs| {
      LastTokenLast(src, seqs, lits, hist, whole);
      assert seqs[..k] == seqs;
    } else {
      LastTokenFrom(src, seqs, lits, hist, whole, k + 1);
      var at := KthRead(src, seqs, lits, hist, whole, k);
    }
  }

  lemma {:induction false} LastTokenLast(src: Buffer, seqs: seq<Sequence>, lits: Buffer, hist: Buffer, whole: Buffer)
    requires WrittenAs(src, seqs, lits, hist, whole)
    ensures AllValid(seqs) && Parse(src, |Write(seqs)|).Last?
  {
    hide WriteLast, Within, Write, Expand, Parse;
    AtPrefix(src, Write(seqs), WriteLast(lits));
    ReadsBackLast(src, |Write(seqs)|, lits);
  }
}
