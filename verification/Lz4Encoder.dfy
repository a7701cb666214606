/** LZ4_compress_generic on one contiguous segment (noDict and withPrefix64k), with its
    three output modes.  The C labels become values of `Phase`. */
module Lz4Encoder {
  import opened Bytes
  import opened Lz4Format
  import opened Lz4Search
  import opened Lz4Emit

  datatype Directive = NotLimited | LimitedOutput | FillOutput

  datatype Phase =
    | Searching(ip: nat)
    | Matched(token: nat, ip: nat, delta: nat, filledIp: nat)   // _next_match
    | LastLiterals                                              // _last_literals
    | Overflow

  function CompressBound(n: int): (r: nat) {
    if 0 <= n <= MAX_INPUT_SIZE then n + n / 255 + 16 else 0
  }

  // ---------------------------------------------------------------- what has been written

  /** The visible history of a job. */
  function History(j: Job): Buffer
    requires j.Valid()
  {
    j.mem[j.Low()..j.source]
  }

  /** The sequences so far stand for the input up to `anchor`; the last match started at
      `lastStart`. */
  ghost predicate Emitted(j: Job, seqs: seq<Sequence>, anchor: nat, lastStart: nat)
    requires j.Valid()
  {
    AllValid(seqs) && j.source <= anchor <= j.End() && lastStart <= anchor &&
    Expand(History(j), seqs) == Some(j.mem[j.Low()..anchor]) &&
    Within(History(j), seqs, lastStart - j.Low(), anchor - j.Low()) &&
    (seqs != [] ==> lastStart + MFLIMIT <= j.End() && anchor + LASTLITERALS <= j.End())
  }

  lemma {:induction false} EmittedNothing(j: Job)
    requires j.Valid()
    ensures Emitted(j, [], j.source, j.source)
  {}

  /** A match of the input appended to what has been written. */
  lemma {:induction false} MatchExpands(j: Job, anchor: nat, ip: nat, delta: nat, m: nat)
    requires j.Valid() && j.source <= anchor <= ip && ip + m <= j.End() && delta > 0 && j.Low() + delta <= ip
    requires Repeats(j.mem, ip, ip + m, delta)
    ensures CopyMatch(j.mem[j.Low()..anchor] + j.mem[anchor..ip], delta, m) == j.mem[j.Low()..ip + m]
  {
    var low := j.Low();
    assert j.mem[low..anchor] + j.mem[anchor..ip] == j.mem[low..ip];
    var s := j.mem[low..ip + m];
    assert s[..ip - low] == j.mem[low..ip];
    forall k | ip - low <= k < |s| ensures CopiedAt(s, k, delta) {
      assert RepeatsAt(j.mem, low + k, delta);
    }
    CopyMatchUnique(j.mem[low..ip], delta, m, s);
  }

  function MatchSequence(j: Job, anchor: nat, ip: nat, delta: nat, m: nat): Sequence
    requires j.Valid() && anchor <= ip <= j.End()
  {
    Sequence(j.mem[anchor..ip], delta, m)
  }

  lemma {:induction false} EmittedMore(j: Job, seqs: seq<Sequence>, anchor: nat, lastStart: nat, ip: nat, delta: nat,
      m: nat)
    requires j.Valid() && Emitted(j, seqs, anchor, lastStart)
    requires anchor <= ip && ip + MFLIMIT <= j.End() && MINMATCH <= m && ip + m + LASTLITERALS <= j.End()
    requires 0 < delta <= DISTANCE_MAX && j.Low() + delta <= ip && Repeats(j.mem, ip, ip + m, delta)
    ensures var s := MatchSequence(j, anchor, ip, delta, m);
            ValidSequence(s) && Emitted(j, seqs + [s], ip + m, ip) &&
              Write(seqs + [s]) == Write(seqs) + WriteSequence(s)
  {
    hide CopyMatch, WriteSequence;
    var s := MatchSequence(j, anchor, ip, delta, m);
    var more := seqs + [s];
    assert more[..|more| - 1] == seqs && more[|more| - 1] == s;
    MatchExpands(j, anchor, ip, delta, m);
    WithinWeaken(History(j), seqs, lastStart - j.Low(), anchor - j.Low(), ip - j.Low(), ip + m - j.Low());
  }

  lemma {:induction false} BlockWritten(j: Job, seqs: seq<Sequence>, anchor: nat, lastStart: nat, n: nat)
    requires j.Valid() && Emitted(j, seqs, anchor, lastStart) && anchor + n <= j.End()
    requires seqs != [] ==> lastStart + MFLIMIT <= anchor + n && LASTLITERALS <= n
    ensures var lits := j.mem[anchor..anchor + n];
            WrittenAs(Write(seqs) + WriteLast(lits), seqs, lits, History(j), j.mem[j.Low()..anchor + n])
  {
    hide Write, WriteLast;
    var whole := j.mem[j.Low()..anchor + n];
    assert whole == j.mem[j.Low()..anchor] + j.mem[anchor..anchor + n];
    WithinEnds(History(j), seqs, lastStart - j.Low(), anchor - j.Low(), |whole|);
  }

  /** The finished block. */
  lemma {:induction false} BlockDecodes(j: Job, seqs: seq<Sequence>, anchor: nat, lastStart: nat, n: nat, block: Buffer)
    requires j.Valid() && Emitted(j, seqs, anchor, lastStart) && anchor + n <= j.End()
    requires seqs != [] ==> lastStart + MFLIMIT <= anchor + n && LASTLITERALS <= n
    requires block == Write(seqs) + WriteLast(j.mem[anchor..anchor + n])
    ensures Decode(block, 0, History(j)) == Some(j.mem[j.Low()..anchor + n])
    ensures Conforms(block, 0, |History(j)|, anchor + n - j.Low()) && LastToken(block, 0) == |Write(seqs)|
  {
    hide WrittenAs, Decode, Conforms, Write, WriteLast, Expand, Within, LastToken;
    var whole := j.mem[j.Low()..anchor + n];
    BlockWritten(j, seqs, anchor, lastStart, n);
    WrittenBlockDecodes(block, seqs, j.mem[anchor..anchor + n], History(j), whole);
    WrittenLastToken(block, seqs, j.mem[anchor..anchor + n], History(j), whole);
  }

  lemma {:induction false} WithinEnds(hist: Buffer, seqs: seq<Sequence>, s0: int, e0: int, total: nat)
    requires Expand(hist, seqs).Some? && Within(hist, seqs, s0, e0)
    requires seqs != [] ==> s0 + MFLIMIT <= total && e0 + LASTLITERALS <= total
    ensures Within(hist, seqs, total - MFLIMIT, total - LASTLITERALS)
  {
    if seqs != [] { WithinWeaken(hist, seqs, s0, e0, total - MFLIMIT, total - LASTLITERALS); }
  }

  // ---------------------------------------------------------------- room in the output

  function Min(a: int, b: int): int { if a < b then a else b }

  /** n input bytes are written in at most so many. */
  predicate Compact(n: int, op: int) { op <= n + n / 255 }

  /** The output is smaller than the compression bound of the input. */
  predicate TooSmall(j: Job, mode: Directive, limit: nat) { mode == LimitedOutput && limit < CompressBound(j.size) }

  /** Before a token at `op`: what each output mode has left.  In fill mode at least five
      more literals fit, and enough of them to end 12 bytes after the last match start. */
  predicate Room(j: Job, mode: Directive, limit: nat, op: nat, anchor: nat, lastStart: nat, empty: bool)
    requires j.Valid()
  {
    j.source <= anchor <= j.End() && Compact(anchor - j.source, op) &&
    match mode
    case NotLimited => limit == CompressBound(j.size)
    case LimitedOutput => if empty then op == 0 else op + 1 + LASTLITERALS <= limit
    case FillOutput =>
      if empty then op == 0 && 1 <= limit
      else op + 1 + LASTLITERALS <= limit && lastStart + MFLIMIT <= anchor + Min(limit - op - 1, MFLIMIT - MINMATCH)
  }

  /** The output check before the literals of a sequence. */
  predicate LiteralsFit(mode: Directive, limit: nat, op: nat, n: nat) {
    match mode
    case NotLimited => true
    case LimitedOutput => op + 1 + n + (2 + 1 + LASTLITERALS) + n / 255 <= limit
    case FillOutput => op + 1 + (n + 240) / 255 + n + 2 + 1 + MFLIMIT - MINMATCH <= limit
  }

  /** Between the literals and the offset. */
  predicate MatchRoom(j: Job, mode: Directive, limit: nat, op: nat, ip: nat)
    requires j.Valid()
  {
    Compact(ip - j.source, op - 2) &&
    match mode
    case NotLimited => limit == CompressBound(j.size)
    case LimitedOutput => op + 2 + LASTLITERALS - 2 <= limit
    case FillOutput => op + 2 <= limit
  }

  lemma {:induction false} LiteralsHaveRoom(j: Job, mode: Directive, limit: nat, op: nat, anchor: nat, lastStart: nat,
      empty: bool, ip: nat)
    requires j.Valid() && Room(j, mode, limit, op, anchor, lastStart, empty) && anchor <= ip && ip + MFLIMIT <= j.End()
    requires LiteralsFit(mode, limit, op, ip - anchor)
    ensures var n, e := ip - anchor, |Ext(ip - anchor)|;
            op + 1 + e + 8 <= limit && op + 1 + e + n + 7 <= limit && MatchRoom(j, mode, limit, op + 1 + e + n, ip)
  {}

  /** With room for the compression bound the check passes. */
  lemma {:induction false} BoundFitsLiterals(j: Job, mode: Directive, limit: nat, op: nat, anchor: nat, ip: nat)
    requires j.Valid() && j.source <= anchor <= ip && ip + MFLIMIT <= j.End() && Compact(anchor - j.source, op)
    requires mode == LimitedOutput && limit >= CompressBound(j.size)
    ensures LiteralsFit(mode, limit, op, ip - anchor)
  {}

  lemma {:induction false} BoundFitsMatch(j: Job, limit: nat, op: nat, ip: nat, mc: nat)
    requires j.Valid() && j.source <= ip && ip + MINMATCH + mc + LASTLITERALS <= j.End()
    requires Compact(ip - j.source, op - 2) && limit >= CompressBound(j.size)
    ensures op + 2 + 1 + LASTLITERALS + |Ext(mc)| <= limit
  {}

  /** A match of 4 + mc bytes; in unlimited mode it stays within the bound. */
  lemma {:induction false} MatchSize(j: Job, op: nat, ip: nat, mc: nat)
    requires j.Valid() && Compact(ip - j.source, op - 2)
    requires j.source <= ip && ip + MINMATCH + mc + LASTLITERALS <= j.End()
    ensures op + 2 + |Ext(mc)| + 3 <= CompressBound(j.size)
    ensures Compact(ip + MINMATCH + mc - j.source, op + 2 + |Ext(mc)|)
  {}

  // ---------------------------------------------------------------- the phases

  function Max(a: nat, b: nat): nat { if a < b then b else a }

  /** What holds in each phase: `out` is the output so far, `seqs` its finished sequences. */
  ghost predicate Ready(j: Job, mode: Directive, limit: nat, phase: Phase, table: seq<nat>, out: Buffer,
                        seqs: seq<Sequence>, anchor: nat, lastStart: nat)
    requires j.Valid()
  {
    Emitted(j, seqs, anchor, lastStart) &&
    match phase
    case Searching(ip) =>
      out == Write(seqs) && j.source < ip <= j.MfLimitPlusOne() && anchor <= ip && j.TableOk(table, ip) &&
      Room(j, mode, limit, |out|, anchor, lastStart, seqs == [])
    case Matched(token, ip, delta, filledIp) =>
      MatchReady(j, table, anchor, ip, delta, filledIp, MatchFits(mode, limit, |out|)) && token == |Write(seqs)| &&
      out == Write(seqs) + LiteralPart(Nibble(ip - anchor) * 16, j.mem[anchor..ip]) &&
      MatchRoom(j, mode, limit, |out|, ip) && Room(j, mode, limit, token, anchor, lastStart, seqs == [])
    case LastLiterals =>
      out == Write(seqs) && j.TableOk(table, j.End()) && Room(j, mode, limit, |out|, anchor, lastStart, seqs == [])
    case Overflow => TooSmall(j, mode, limit) && j.TableOk(table, j.End())
  }

  /** A match of at least four bytes at `ip`.  Unless the output check is about to drop it,
      it covers every position the search has registered. */
  ghost predicate MatchReady(j: Job, table: seq<nat>, anchor: nat, ip: nat, delta: nat, filledIp: nat, fits: bool)
    requires j.Valid()
  {
    j.source <= anchor <= ip && ip + MFLIMIT <= j.End() && filledIp + MFLIMIT <= j.End() &&
    0 < delta <= DISTANCE_MAX && j.Low() + delta <= ip && Repeats(j.mem, ip, ip + MINMATCH, delta) &&
    (fits ==> Repeats(j.mem, ip, Max(ip, filledIp) + MINMATCH, delta)) &&
    j.TableOk(table, Max(ip, filledIp) + 1)
  }

  /** Search, extend backwards, write the literals. */
  method SearchStep(j: Job, table: array<nat>, dst: array<byte>, mode: Directive, limit: nat, acceleration: nat,
                    ip0: nat, anchor: nat, op0: nat, ghost seqs: seq<Sequence>, ghost lastStart: nat)
    returns (phase: Phase, op: nat)
    requires j.Valid() && acceleration >= 1 && op0 <= limit <= dst.Length
    requires Ready(j, mode, limit, Searching(ip0), table[..], dst[..op0], seqs, anchor, lastStart)
    modifies table, dst
    ensures !phase.Searching? && op <= dst.Length
    ensures Ready(j, mode, limit, phase, table[..], dst[..op], seqs, anchor, lastStart)
    ensures forall i :: limit <= i < dst.Length ==> dst[i] == old(dst[i])
    ensures TableShaped(j, old(table[..])) && j.source < ip0 && anchor <= ip0
    ensures match FirstUsable(j, old(table[..]), ip0, 1, acceleration * SKIP_TRIGGER)
            case None => phase == LastLiterals && op == op0
            case Some(f) =>
              (LiteralsFit(mode, limit, op0, f.ip - anchor) ==> phase.Matched?) &&
              (phase.Matched? ==> MatchStarts(j, phase, f, anchor, op0, op))
  {
    hide Ready, HashPosition, LiteralPart, Room, Repeats, Emitted, MatchRoom, Write, LiteralsFit, Job.TableOk, Nibble,
      Ext, FirstUsable, MatchStarts, Usable, UsableAt;
    op := op0;
    SearchFacts(j, mode, limit, ip0, table[..], dst[..op0], seqs, anchor, lastStart);
    var found, filledIp, delta := FindMatch(j, table, ip0, acceleration);
    if !found {
      GivesUp(j, mode, limit, table[..], dst[..op], seqs, anchor, lastStart);
      return LastLiterals, op;
    }
    phase, op := TakeMatch(j, dst, mode, limit, anchor, op0, filledIp, delta, table[..], seqs, lastStart);
  }

  /** A match was found at `filledIp`: extend it backwards and write the literals before it. */
  method TakeMatch(j: Job, dst: array<byte>, mode: Directive, limit: nat, anchor: nat, op0: nat, filledIp: nat,
                   delta: nat, ghost table: seq<nat>, ghost seqs: seq<Sequence>, ghost lastStart: nat)
    returns (phase: Phase, op: nat)
    requires j.Valid() && op0 <= limit <= dst.Length && j.source <= anchor <= filledIp
    requires Emitted(j, seqs, anchor, lastStart) && dst[..op0] == Write(seqs)
    requires Room(j, mode, limit, op0, anchor, lastStart, seqs == [])
    requires filledIp + MFLIMIT <= j.End() && j.TableOk(table, filledIp + 1)
    requires 0 < delta <= DISTANCE_MAX && j.Low() + delta <= filledIp
    requires Repeats(j.mem, filledIp, filledIp + MINMATCH, delta)
    modifies dst
    ensures !phase.Searching? && op <= dst.Length
    ensures Ready(j, mode, limit, phase, table, dst[..op], seqs, anchor, lastStart)
    ensures forall i :: limit <= i < dst.Length ==> dst[i] == old(dst[i])
    ensures LiteralsFit(mode, limit, op0, filledIp - anchor) ==> phase.Matched?
    ensures phase.Matched? ==> MatchStarts(j, phase, Found(filledIp, delta), anchor, op0, op)
  {
    hide Ready, HashPosition, LiteralPart, Room, Repeats, Emitted, MatchRoom, Write, LiteralsFit, Job.TableOk, Nibble,
      Ext;
    op := op0;
    var ip := CatchUp(j.mem, filledIp, delta, anchor, j.Low(), filledIp + MINMATCH);
    LiteralsFitLess(mode, limit, op, ip - anchor, filledIp - anchor);
    if !LiteralsFit(mode, limit, op, ip - anchor) {
      TableOkLater(j, table, filledIp + 1, j.End());
      RoomIsCompact(j, mode, limit, op, anchor, lastStart, seqs == []);
      if mode == LimitedOutput && limit >= CompressBound(j.size) { BoundFitsLiterals(j, mode, limit, op, anchor, ip); }
      GivesUp(j, mode, limit, table, dst[..op], seqs, anchor, lastStart);
      return if mode == LimitedOutput then Overflow else LastLiterals, op;
    }
    LiteralsHaveRoom(j, mode, limit, op, anchor, lastStart, seqs == [], ip);
    op := EmitLiterals(dst, op0, j.mem, anchor, ip, limit);
    phase := Matched(op0, ip, delta, filledIp);
    MatchIsReady(j, mode, limit, phase, table, dst[..op], seqs, anchor, lastStart);
  }

  ghost predicate TableShaped(j: Job, table: seq<nat>) { |table| == TableSize(j.tableType) }

  /** The match found, extended backwards as far as it goes, behind its literals. */
  ghost predicate MatchStarts(j: Job, phase: Phase, f: Found, anchor: nat, op0: nat, op: nat)
    requires phase.Matched?
  {
    phase.token == op0 && phase.delta == f.delta && phase.filledIp == f.ip &&
    anchor <= phase.ip <= f.ip && j.Low() + f.delta <= phase.ip &&
    op == op0 + 1 + |Ext(phase.ip - anchor)| + (phase.ip - anchor)
  }

  lemma {:induction false} LiteralsFitLess(mode: Directive, limit: nat, op: nat, n: nat, m: nat)
    requires n <= m
    ensures LiteralsFit(mode, limit, op, m) ==> LiteralsFit(mode, limit, op, n)
  {}

  lemma {:induction false} SearchFacts(j: Job, mode: Directive, limit: nat, ip: nat, table: seq<nat>, out: Buffer,
                                       seqs: seq<Sequence>, anchor: nat, lastStart: nat)
    requires j.Valid() && Ready(j, mode, limit, Searching(ip), table, out, seqs, anchor, lastStart)
    ensures Emitted(j, seqs, anchor, lastStart) && out == Write(seqs) && j.TableOk(table, ip) && TableShaped(j, table)
    ensures j.source < ip <= j.MfLimitPlusOne() && j.source <= anchor <= ip
    ensures Room(j, mode, limit, |out|, anchor, lastStart, seqs == [])
  {}

  lemma {:induction false} GivesUp(j: Job, mode: Directive, limit: nat, table: seq<nat>, out: Buffer,
                                   seqs: seq<Sequence>, anchor: nat, lastStart: nat)
    requires j.Valid() && Emitted(j, seqs, anchor, lastStart) && out == Write(seqs) && j.TableOk(table, j.End())
    requires Room(j, mode, limit, |out|, anchor, lastStart, seqs == [])
    ensures Ready(j, mode, limit, LastLiterals, table, out, seqs, anchor, lastStart)
    ensures TooSmall(j, mode, limit) ==> Ready(j, mode, limit, Overflow, table, out, seqs, anchor, lastStart)
  {}

  lemma {:induction false} RoomIsCompact(j: Job, mode: Directive, limit: nat, op: nat, anchor: nat, lastStart: nat,
      empty: bool)
    requires j.Valid() && Room(j, mode, limit, op, anchor, lastStart, empty)
    ensures Compact(anchor - j.source, op)
  {}

  lemma {:induction false} MatchIsReady(j: Job, mode: Directive, limit: nat, phase: Phase, table: seq<nat>, out: Buffer,
                                        seqs: seq<Sequence>, anchor: nat, lastStart: nat)
    requires j.Valid() && phase.Matched? && Emitted(j, seqs, anchor, lastStart)
    requires anchor <= phase.ip <= phase.filledIp && phase.filledIp + MFLIMIT <= j.End()
    requires j.TableOk(table, phase.filledIp + 1)
    requires 0 < phase.delta <= DISTANCE_MAX && j.Low() + phase.delta <= phase.ip
    requires Repeats(j.mem, phase.ip, phase.filledIp + MINMATCH, phase.delta)
    requires phase.token == |Write(seqs)| && Room(j, mode, limit, phase.token, anchor, lastStart, seqs == [])
    requires out == Write(seqs) + LiteralPart(Nibble(phase.ip - anchor) * 16, j.mem[anchor..phase.ip])
    requires MatchRoom(j, mode, limit, |out|, phase.ip)
    ensures Ready(j, mode, limit, phase, table, out, seqs, anchor, lastStart)
  {
    hide Write, Expand, Within, LiteralPart, MatchRoom, Room, HashPosition;
  }

  /** The fill-mode check before an offset. */
  predicate MatchFits(mode: Directive, limit: nat, op: nat) {
    mode == FillOutput ==> op + 2 + 1 + MFLIMIT - MINMATCH <= limit
  }

  /** The match at `ip` goes on up to the last literals; its length in excess of MINMATCH. */
  ghost predicate ToTheEnd(j: Job, ip: nat, delta: nat)
    requires j.Valid() && delta <= ip && ip + MFLIMIT <= j.End()
  {
    Repeats(j.mem, ip, j.End() - LASTLITERALS, delta)
  }

  function FullCode(j: Job, ip: nat): nat
    requires ip + MFLIMIT <= j.End()
  {
    j.End() - LASTLITERALS - MINMATCH - ip
  }

  /** The output check between offset and length. */
  predicate CodeFits(mode: Directive, limit: nat, op: nat, matchCode: nat) {
    mode == NotLimited || op + 1 + LASTLITERALS + |Ext(matchCode)| <= limit
  }

  /** Length of the match at `ip` in excess of MINMATCH, shortened in fill mode to what fits
      before `limit`; false when limited output has no room for it. */
  method MatchCode(j: Job, mode: Directive, limit: nat, ip: nat, delta: nat, op: nat)
    returns (matchCode: nat, ok: bool, shortened: bool)
    requires j.Valid() && j.source <= ip && ip + MFLIMIT <= j.End()
    requires 0 < delta && j.Low() + delta <= ip && Repeats(j.mem, ip, ip + MINMATCH, delta)
    requires mode == FillOutput ==> op + 1 + MFLIMIT - MINMATCH <= limit
    ensures ip + MINMATCH + matchCode + LASTLITERALS <= j.End() && Repeats(j.mem, ip, ip + MINMATCH + matchCode, delta)
    ensures !ok ==> mode == LimitedOutput && op + 1 + LASTLITERALS + |Ext(matchCode)| > limit
    ensures shortened ==> mode == FillOutput && op + 1 + LASTLITERALS + |Ext(matchCode)| == limit
    ensures ok && mode != NotLimited ==> op + 1 + LASTLITERALS + |Ext(matchCode)| <= limit
    ensures !shortened ==>
      ip + MINMATCH + matchCode + LASTLITERALS == j.End() || !RepeatsAt(j.mem, ip + MINMATCH + matchCode, delta)
    ensures ToTheEnd(j, ip, delta) && CodeFits(mode, limit, op, FullCode(j, ip)) ==>
      ok && !shortened && matchCode == FullCode(j, ip)
  {
    matchCode := Count(j.mem, ip + MINMATCH, delta, j.MatchLimit());
    ok, shortened := true, false;
    if mode != NotLimited && op + 1 + LASTLITERALS + (matchCode + 240) / 255 > limit {
      if mode == FillOutput {
        var newMatchCode := 15 - 1 + (limit - op - 1 - LASTLITERALS) * 255;
        ShorterMatch(op, limit, matchCode);
        matchCode, shortened := newMatchCode, true;
      } else {
        ok := false;
      }
    }
  }

  lemma {:induction false} ShorterMatch(op: nat, limit: nat, matchCode: nat)
    requires op + 1 + MFLIMIT - MINMATCH <= limit && op + 1 + LASTLITERALS + (matchCode + 240) / 255 > limit
    ensures var newMatchCode := 15 - 1 + (limit - op - 1 - LASTLITERALS) * 255;
            newMatchCode < matchCode && op + 1 + LASTLITERALS + (newMatchCode + 240) / 255 == limit
  {}

  /** After the match at `lastStart`, ending at `anchor`, was written up to `op`. */
  lemma {:induction false} RoomAfterMatch(j: Job, mode: Directive, limit: nat, op1: nat, ip: nat, matchCode: nat)
    requires j.Valid() && j.source <= ip && ip + MINMATCH + matchCode + LASTLITERALS <= j.End()
    requires MatchRoom(j, mode, limit, op1, ip) && MatchFits(mode, limit, op1)
    requires mode != NotLimited ==> op1 + 2 + 1 + LASTLITERALS + |Ext(matchCode)| <= limit
    ensures Room(j, mode, limit, op1 + 2 + |Ext(matchCode)|, ip + MINMATCH + matchCode, ip, false)
    ensures op1 + 2 + |Ext(matchCode)| + 3 <= limit
  {
    MatchSize(j, op1, ip, matchCode);
  }

  lemma {:induction false} OffsetAfterLiterals(before: Buffer, s: Sequence)
    requires ValidSequence(s)
    ensures before + LiteralPart(Nibble(|s.literals|) * 16, s.literals) + [s.offset % 256, s.offset / 256]
         == before + Head(s, Nibble(|s.literals|) * 16)
  {
    Concat3(before, LiteralPart(Nibble(|s.literals|) * 16, s.literals), [s.offset % 256, s.offset / 256]);
  }

  /** Forget registered positions the shortened match no longer covers. */
  method SettleTable(j: Job, table: array<nat>, shortened: bool, anchor: nat, start: nat, ip: nat, delta: nat,
      filledIp: nat)
    requires j.Valid() && MatchReady(j, table[..], anchor, start, delta, filledIp, true)
    requires start + MINMATCH <= ip <= j.End() && (!shortened ==> filledIp < ip)
    modifies table
    ensures j.TableOk(table[..], ip)
  {
    hide HashPosition;
    if shortened && ip <= filledIp {
      ClearPassedOver(j, table, ip, filledIp);
    } else {
      TableOkLater(j, table[..], Max(start, filledIp) + 1, ip);
    }
  }

  lemma {:induction false} MatchTooLarge(j: Job, mode: Directive, limit: nat, op: nat, ip: nat, mc: nat)
    requires j.Valid() && j.source <= ip && ip + MINMATCH + mc + LASTLITERALS <= j.End()
    requires MatchRoom(j, mode, limit, op, ip) && mode == LimitedOutput
    requires op + 2 + 1 + LASTLITERALS + |Ext(mc)| > limit
    ensures TooSmall(j, mode, limit)
  {
    if limit >= CompressBound(j.size) { BoundFitsMatch(j, limit, op, ip, mc); }
  }

  /** The match is the last one and fits. */
  ghost predicate EndsInput(j: Job, mode: Directive, limit: nat, phase: Phase, op: nat)
    requires j.Valid() && phase.Matched?
  {
    0 <= phase.delta <= phase.ip && phase.ip + MFLIMIT <= j.End() && ToTheEnd(j, phase.ip, phase.delta) &&
    CodeFits(mode, limit, op + 2, FullCode(j, phase.ip))
  }

  /** _next_match: offset, length and match-length extension. */
  method EncodeMatch(j: Job, table: array<nat>, dst: array<byte>, mode: Directive, limit: nat, phase: Phase,
                     anchor: nat, op1: nat, ghost seqs: seq<Sequence>, ghost lastStart: nat)
    returns (ip: nat, op: nat, ok: bool, ghost seqs': seq<Sequence>)
    requires j.Valid() && phase.Matched? && op1 <= dst.Length && limit <= dst.Length
    requires Ready(j, mode, limit, phase, table[..], dst[..op1], seqs, anchor, lastStart)
    requires MatchFits(mode, limit, op1)
    modifies table, dst
    ensures op <= dst.Length && (forall i :: limit <= i < dst.Length ==> dst[i] == old(dst[i]))
    ensures !ok ==> TooSmall(j, mode, limit) && j.TableOk(table[..], j.End())
    ensures ok ==> anchor < ip && phase.ip + MINMATCH <= ip && ip + LASTLITERALS <= j.End() && j.TableOk(table[..], ip)
    ensures ok ==> op <= limit && seqs' != [] && Emitted(j, seqs', ip, phase.ip) && dst[..op] == Write(seqs') &&
                   Room(j, mode, limit, op, ip, phase.ip, false)
    ensures ok ==> phase.filledIp < ip || !MatchFits(mode, limit, op + 1)
    ensures EndsInput(j, mode, limit, phase, op1) ==>
      ok && ip == j.End() - LASTLITERALS && op == op1 + 2 + |Ext(FullCode(j, phase.ip))|
  {
    hide Expand, Within, History, Write, WriteSequence, LiteralPart, HashPosition, Token, Nibble;
    hide Room, MatchRoom, TooSmall, Ext;
    var Matched(token, start, delta, filledIp) := phase;
    OffsetFits(j, mode, limit, op1, start);
    op := EmitOffset(dst, op1, delta, limit);
    var matchCode, shortened;
    matchCode, ok, shortened := MatchCode(j, mode, limit, start, delta, op);
    ip := start + MINMATCH + matchCode;
    if !ok {
      TableOkLater(j, table[..], Max(start, filledIp) + 1, j.End());
      MatchTooLarge(j, mode, limit, op1, start, matchCode);
      return ip, op, false, seqs;
    }
    if !shortened { CaughtUp(j, start, ip, delta, filledIp); }
    SettleTable(j, table, shortened, anchor, start, ip, delta, filledIp);
    op, seqs' := FinishSequence(j, dst, mode, limit, token, anchor, start, delta, matchCode, op1, seqs, lastStart);
  }

  /** The match-length part, once the offset stands behind the literals. */
  method FinishSequence(j: Job, dst: array<byte>, mode: Directive, limit: nat, token: nat, anchor: nat, start: nat,
                        delta: nat, matchCode: nat, op1: nat, ghost seqs: seq<Sequence>, ghost lastStart: nat)
    returns (op: nat, ghost seqs': seq<Sequence>)
    requires j.Valid() && Emitted(j, seqs, anchor, lastStart) && token == |Write(seqs)| &&
      op1 + 2 <= limit <= dst.Length
    requires anchor <= start && start + MFLIMIT <= j.End() && start + MINMATCH + matchCode + LASTLITERALS <= j.End()
    requires 0 < delta <= DISTANCE_MAX && j.Low() + delta <= start
    requires Repeats(j.mem, start, start + MINMATCH + matchCode, delta)
    requires dst[..op1 + 2] == Write(seqs) + LiteralPart(Nibble(start - anchor) * 16, j.mem[anchor..start])
                             + [delta % 256, delta / 256]
    requires MatchRoom(j, mode, limit, op1, start) && MatchFits(mode, limit, op1)
    requires mode != NotLimited ==> op1 + 2 + 1 + LASTLITERALS + |Ext(matchCode)| <= limit
    modifies dst
    ensures op == op1 + 2 + |Ext(matchCode)| && op <= limit && seqs' != []
    ensures Emitted(j, seqs', start + MINMATCH + matchCode, start) && dst[..op] == Write(seqs')
    ensures Room(j, mode, limit, op, start + MINMATCH + matchCode, start, false)
    ensures forall i :: limit <= i < dst.Length ==> dst[i] == old(dst[i])
  {
    hide Expand, Within, History, Write, WriteSequence, LiteralPart, Token, Head, Room, MatchRoom, MatchFits, Repeats;
    ghost var s := MatchSequence(j, anchor, start, delta, MINMATCH + matchCode);
    EmittedMore(j, seqs, anchor, lastStart, start, delta, MINMATCH + matchCode);
    RoomAfterMatch(j, mode, limit, op1, start, matchCode);
    OffsetAfterLiterals(Write(seqs), s);
    op := EmitMatchLength(dst, token, op1 + 2, matchCode, limit, Write(seqs), s);
    seqs' := seqs + [s];
  }

  lemma {:induction false} OffsetFits(j: Job, mode: Directive, limit: nat, op: nat, ip: nat)
    requires j.Valid() && MatchRoom(j, mode, limit, op, ip) && j.source <= ip && ip + MFLIMIT <= j.End()
    ensures op + 2 <= limit
  {}

  /** A match that was not shortened reaches past the position where it was found. */
  lemma {:induction false} CaughtUp(j: Job, start: nat, ip: nat, delta: nat, filledIp: nat)
    requires j.Valid() && delta <= start <= ip <= j.End() && filledIp + MFLIMIT <= j.End() && start + MFLIMIT <= j.End()
    requires Repeats(j.mem, start, Max(start, filledIp) + MINMATCH, delta)
    requires ip + LASTLITERALS == j.End() || (ip < |j.mem| && !RepeatsAt(j.mem, ip, delta))
    ensures filledIp < ip
  {}

  /** The match, then the table entries at its end, then either the next match right there,
      the search again, or the end of the input. */
  method MatchStep(j: Job, table: array<nat>, dst: array<byte>, mode: Directive, limit: nat, phase: Phase,
                   anchor0: nat, op0: nat, ghost seqs: seq<Sequence>, ghost lastStart: nat)
    returns (phase': Phase, anchor: nat, op: nat, ghost seqs': seq<Sequence>, ghost lastStart': nat)
    requires j.Valid() && phase.Matched? && op0 <= dst.Length && limit <= dst.Length
    requires Ready(j, mode, limit, phase, table[..], dst[..op0], seqs, anchor0, lastStart)
    modifies table, dst
    ensures op <= dst.Length && anchor0 <= anchor && (phase'.Searching? || phase'.Matched? ==> anchor0 < anchor)
    ensures Ready(j, mode, limit, phase', table[..], dst[..op], seqs', anchor, lastStart')
    ensures forall i :: limit <= i < dst.Length ==> dst[i] == old(dst[i])
    ensures MatchFits(mode, limit, op0) && EndsInput(j, mode, limit, phase, op0) ==>
      phase' == LastLiterals && anchor == j.End() - LASTLITERALS && op == op0 + 2 + |Ext(FullCode(j, phase.ip))|
  {
    hide EndsInput, Expand, Within, History, Write, HashPosition, Repeats, LiteralPart, MatchRoom, Room;
    if !MatchFits(mode, limit, op0) {
      Rewind(j, table[..], dst[..op0], mode, limit, phase, seqs, anchor0, lastStart);
      return LastLiterals, anchor0, phase.token, seqs, lastStart;
    }
    var ip, ok;
    ip, op, ok, seqs' := EncodeMatch(j, table, dst, mode, limit, phase, anchor0, op0, seqs, lastStart);
    if !ok { return Overflow, anchor0, op, seqs, lastStart; }
    anchor, lastStart' := ip, phase.ip;
    phase', op := AfterMatch(j, table, dst, mode, limit, ip, op, phase.filledIp, seqs', lastStart');
  }

  lemma {:induction false} Rewind(j: Job, table: seq<nat>, out: Buffer, mode: Directive, limit: nat, phase: Phase,
               seqs: seq<Sequence>, anchor: nat, lastStart: nat)
    requires j.Valid() && phase.Matched?
    requires Ready(j, mode, limit, phase, table, out, seqs, anchor, lastStart)
    ensures phase.token <= |out|
    ensures Ready(j, mode, limit, LastLiterals, table, out[..phase.token], seqs, anchor, lastStart)
  {
    TableOkLater(j, table, Max(phase.ip, phase.filledIp) + 1, j.End());
  }

  method AfterMatch(j: Job, table: array<nat>, dst: array<byte>, mode: Directive, limit: nat, ip: nat, op0: nat,
                    filledIp: nat, ghost seqs: seq<Sequence>, ghost lastStart: nat)
    returns (phase: Phase, op: nat)
    requires j.Valid() && op0 <= limit <= dst.Length && seqs != [] && Emitted(j, seqs, ip, lastStart)
    requires j.source + MINMATCH <= ip && j.TableOk(table[..], ip) && filledIp + MFLIMIT <= j.End()
    requires dst[..op0] == Write(seqs) && Room(j, mode, limit, op0, ip, lastStart, false)
    requires filledIp < ip || !MatchFits(mode, limit, op0 + 1)
    modifies table, dst
    ensures op <= dst.Length && Ready(j, mode, limit, phase, table[..], dst[..op], seqs, ip, lastStart)
    ensures forall i :: limit <= i < dst.Length ==> dst[i] == old(dst[i])
    ensures TableShaped(j, old(table[..])) && (phase == LastLiterals <==> ip >= j.MfLimitPlusOne())
    ensures phase == LastLiterals ==> op == op0
    ensures ip < j.MfLimitPlusOne() ==> NextIs(j, old(table[..]), ip, filledIp, op0, phase, op)
  {
    hide Expand, Within, History, Write, HashPosition, Room, MatchRoom, Usable;
    op := op0;
    if ip >= j.MfLimitPlusOne() {
      TableOkLater(j, table[..], ip, j.End());
      return LastLiterals, op;
    }
    Put(j, table, j.Hash(ip - 2), ip - 2);
    var delta := Candidate(j, table, j.Hash(ip), ip);
    if delta == 0 { return Searching(ip + 1), op; }
    NoLiterals(j, mode, limit, op, ip, lastStart);
    TableOkLater(j, table[..], ip + 1, Max(ip, filledIp) + 1);
    dst[op] := 0;
    op := op + 1;
    assert dst[..op] == Write(seqs) + LiteralPart(0, j.mem[ip..ip]);
    phase := Matched(op0, ip, delta, filledIp);
  }

  /** Two bytes before the end of a match are registered; then the next match starts right
      there if and only if the slot of the next position holds a usable entry. */
  ghost predicate NextIs(j: Job, table: seq<nat>, ip: nat, filledIp: nat, op0: nat, phase: Phase, op: nat)
    requires j.Valid() && TableShaped(j, table) && j.source + MINMATCH <= ip < j.MfLimitPlusOne()
  {
    var e := table[j.Hash(ip - 2) := ip - 2 - j.Base()][j.Hash(ip)];
    if UsableAt(j, e, ip) then phase == Matched(op0, ip, ip - (j.Base() + e), filledIp) && op == op0 + 1
    else phase == Searching(ip + 1) && op == op0
  }

  lemma {:induction false} NoLiterals(j: Job, mode: Directive, limit: nat, op: nat, ip: nat, lastStart: nat)
    requires j.Valid() && Room(j, mode, limit, op, ip, lastStart, false) && ip + MFLIMIT <= j.End()
    ensures op + 1 <= limit && MatchRoom(j, mode, limit, op + 1, ip)
  {}

  // ---------------------------------------------------------------- input that repeats

  /** The block of l literals, one match, and the last five literals of n input bytes. */
  function RunCost(l: nat, n: nat): (cost: nat)
    requires l + MFLIMIT <= n
  {
    1 + |Ext(l)| + l + 2 + |Ext(n - l - MINMATCH - LASTLITERALS)| + 1 + LASTLITERALS
  }

  lemma {:induction false} RunCostGrows(l: nat, d: nat, n: nat)
    requires l <= d && d + MFLIMIT <= n
    ensures RunCost(l, n) <= RunCost(d, n)
    decreases d - l
  {
    if l < d { RunCostGrows(l + 1, d, n); }
  }

  /** The target has room for that block; fill mode looks three bytes further. */
  predicate RunFits(mode: Directive, limit: nat, d: nat, n: nat)
    requires d + MFLIMIT <= n
  {
    match mode
    case NotLimited => true
    case LimitedOutput => RunCost(d, n) <= limit
    case FillOutput => RunCost(d, n) + 3 <= limit
  }

  /** The literals before the match: d of them, or fewer where it also extends into history. */
  predicate RunStart(j: Job, d: nat, l: nat) { l <= d && (j.dictSize == 0 ==> l == d) }

  /** Where the encoder stands on an input that repeats at distance d from the start. */
  ghost predicate OnRun(j: Job, table: seq<nat>, d: nat, acceleration: nat, phase: Phase, anchor: nat, op: nat)
    requires j.Valid() && acceleration >= 1 && j.source + d + MFLIMIT <= j.End() && j.source < j.source + d
  {
    match phase
    case Searching(ip) =>
      ip == j.source + 1 && anchor == j.source && op == 0 && TableShaped(j, table) &&
      FirstUsable(j, table, ip, 1, acceleration * SKIP_TRIGGER) == Some(Found(j.source + d, d))
    case Matched(_, ip, delta, filledIp) =>
      anchor == j.source && delta == d && filledIp == j.source + d && j.source <= ip &&
      RunStart(j, d, ip - j.source) && op == 1 + |Ext(ip - j.source)| + (ip - j.source)
    case LastLiterals => RunDone(j, d, anchor, op)
    case Overflow => false
  }

  ghost predicate RunDone(j: Job, d: nat, anchor: nat, op: nat)
    requires j.source + d + MFLIMIT <= j.End()
  {
    anchor == j.End() - LASTLITERALS &&
    exists l: nat :: RunStart(j, d, l) && op + 1 + LASTLITERALS == RunCost(l, j.size)
  }

  ghost predicate RunAhead(j: Job, table: seq<nat>, d: nat, acceleration: nat, mode: Directive, limit: nat)
    requires j.Valid()
  {
    Repetitive(j, table, d, acceleration) && RunFits(mode, limit, d, j.size)
  }

  ghost predicate RunInput(j: Job, d: nat, mode: Directive, limit: nat)
    requires j.Valid()
  {
    0 < d && j.source + d + MFLIMIT <= j.End() && RunFits(mode, limit, d, j.size) &&
    Repeats(j.mem, j.source + d, j.End(), d)
  }

  lemma {:induction false} RunStarts(j: Job, table: seq<nat>, d: nat, acceleration: nat, mode: Directive, limit: nat)
    requires j.Valid() && acceleration >= 1 && RunAhead(j, table, d, acceleration, mode, limit)
    ensures 0 < d && j.source + d + MFLIMIT <= j.End() && RunInput(j, d, mode, limit)
    ensures OnRun(j, table[j.Hash(j.source) := j.startIndex], d, acceleration, Searching(j.source + 1), j.source, 0)
  {
    hide FirstUsable, HashPosition, NoEarlierMatch;
    RepetitionFound(j, table, d, acceleration);
  }

  lemma {:induction false} RunSearching(j: Job, table: seq<nat>, d: nat, acceleration: nat, phase: Phase, anchor: nat,
                                        op: nat)
    requires j.Valid() && acceleration >= 1 && 0 < d && j.source + d + MFLIMIT <= j.End() && phase.Searching?
    requires OnRun(j, table, d, acceleration, phase, anchor, op)
    ensures phase.ip == j.source + 1 && anchor == j.source && op == 0 && TableShaped(j, table)
    ensures FirstUsable(j, table, phase.ip, 1, acceleration * SKIP_TRIGGER) == Some(Found(j.source + d, d))
  {
    hide FirstUsable;
  }

  lemma {:induction false} RunFinished(j: Job, table: seq<nat>, d: nat, acceleration: nat, anchor: nat, op: nat)
    requires j.Valid() && acceleration >= 1 && 0 < d && j.source + d + MFLIMIT <= j.End()
    requires RunDone(j, d, anchor, op)
    ensures OnRun(j, table, d, acceleration, LastLiterals, anchor, op)
  {
    hide RunDone;
  }

  lemma {:induction false} RunEnds(j: Job, table: seq<nat>, d: nat, acceleration: nat, phase: Phase, anchor: nat,
                                   op: nat)
    requires j.Valid() && acceleration >= 1 && 0 < d && j.source + d + MFLIMIT <= j.End()
    requires !phase.Searching? && !phase.Matched? && OnRun(j, table, d, acceleration, phase, anchor, op)
    ensures phase == LastLiterals && RunDone(j, d, anchor, op)
  {
    hide RunDone;
  }

  lemma {:induction false} RunSearched(j: Job, table: seq<nat>, d: nat, acceleration: nat, mode: Directive, limit: nat,
                                       phase: Phase, op: nat)
    requires j.Valid() && acceleration >= 1 && RunInput(j, d, mode, limit)
    requires LiteralsFit(mode, limit, 0, d) ==> phase.Matched?
    requires phase.Matched? ==> MatchStarts(j, phase, Found(j.source + d, d), j.source, 0, op)
    ensures OnRun(j, table, d, acceleration, phase, j.source, op)
  {
    hide FirstUsable;
  }

  lemma {:induction false} RunMatched(j: Job, table: seq<nat>, d: nat, acceleration: nat, mode: Directive, limit: nat,
                                      phase: Phase, anchor: nat, op: nat)
    requires j.Valid() && acceleration >= 1 && RunInput(j, d, mode, limit)
    requires phase.Matched? && OnRun(j, table, d, acceleration, phase, anchor, op)
    requires MatchReady(j, table, anchor, phase.ip, phase.delta, phase.filledIp, MatchFits(mode, limit, op))
    ensures MatchFits(mode, limit, op) && EndsInput(j, mode, limit, phase, op)
    ensures RunDone(j, d, j.End() - LASTLITERALS, op + 2 + |Ext(FullCode(j, phase.ip))|)
  {
    hide FirstUsable, Job.TableOk;
    var l := phase.ip - j.source;
    RunCostGrows(l, d, j.size);
    assert RunStart(j, d, l) && op + 2 + |Ext(FullCode(j, phase.ip))| + 1 + LASTLITERALS == RunCost(l, j.size);
    forall k | phase.ip <= k < j.End() - LASTLITERALS ensures RepeatsAt(j.mem, k, d) {}
  }

  lemma {:induction false} MatchedFacts(j: Job, mode: Directive, limit: nat, phase: Phase, table: seq<nat>, out: Buffer,
                                        seqs: seq<Sequence>, anchor: nat, lastStart: nat)
    requires j.Valid() && phase.Matched? && Ready(j, mode, limit, phase, table, out, seqs, anchor, lastStart)
    ensures MatchReady(j, table, anchor, phase.ip, phase.delta, phase.filledIp, MatchFits(mode, limit, |out|))
  {
    hide MatchReady;
  }

  function PhaseRank(phase: Phase): nat {
    match phase case Searching(_) => 2 case Matched(_, _, _, _) => 1 case _ => 0
  }

  /** The main loop, from the first byte to _last_literals or an overflow. */
  method EncodeSequences(j: Job, table: array<nat>, dst: array<byte>, mode: Directive, limit: nat, acceleration: nat,
                         ghost d: nat)
    returns (overflow: bool, anchor: nat, op: nat, ghost seqs: seq<Sequence>, ghost lastStart: nat)
    requires j.Valid() && j.size > MFLIMIT && acceleration >= 1 && limit <= dst.Length
    requires j.TableOk(table[..], j.source + 1) && Room(j, mode, limit, 0, j.source, j.source, true)
    modifies table, dst
    ensures op <= dst.Length
    ensures Ready(j, mode, limit, if overflow then Overflow else LastLiterals, table[..], dst[..op], seqs, anchor,
      lastStart)
    ensures forall i :: limit <= i < dst.Length ==> dst[i] == old(dst[i])
    ensures RunAhead(j, old(table[..]), d, acceleration, mode, limit) ==> !overflow && RunDone(j, d, anchor, op)
  {
    hide Ready, HashPosition, RunAhead, OnRun, RunDone, RunInput, MatchReady, EndsInput, MatchStarts, FirstUsable;
    ghost var repeats := RunAhead(j, table[..], d, acceleration, mode, limit);
    if repeats { RunStarts(j, table[..], d, acceleration, mode, limit); }
    anchor, op, seqs, lastStart := j.source, 0, [], j.source;
    Put(j, table, j.Hash(j.source), j.source);
    var phase := Searching(j.source + 1);
    ReadyAtStart(j, mode, limit, table[..], dst[..0]);
    while phase.Searching? || phase.Matched?
      invariant op <= dst.Length && Ready(j, mode, limit, phase, table[..], dst[..op], seqs, anchor, lastStart)
      invariant forall i :: limit <= i < dst.Length ==> dst[i] == old(dst[i])
      invariant repeats ==> 0 < d && j.source + d + MFLIMIT <= j.End() && RunInput(j, d, mode, limit) &&
                            OnRun(j, table[..], d, acceleration, phase, anchor, op)
      decreases j.End() - anchor, PhaseRank(phase)
    {
      ReadyBounds(j, mode, limit, phase, table[..], dst[..op], seqs, anchor, lastStart);
      if phase.Searching? {
        if repeats { RunSearching(j, table[..], d, acceleration, phase, anchor, op); }
        phase, op := SearchStep(j, table, dst, mode, limit, acceleration, phase.ip, anchor, op, seqs, lastStart);
        if repeats { RunSearched(j, table[..], d, acceleration, mode, limit, phase, op); }
      } else {
        if repeats {
          MatchedFacts(j, mode, limit, phase, table[..], dst[..op], seqs, anchor, lastStart);
          RunMatched(j, table[..], d, acceleration, mode, limit, phase, anchor, op);
        }
        phase, anchor, op, seqs, lastStart := MatchStep(j, table, dst, mode, limit, phase, anchor, op, seqs, lastStart);
        if repeats { RunFinished(j, table[..], d, acceleration, anchor, op); }
      }
    }
    overflow := phase.Overflow?;
    if repeats { RunEnds(j, table[..], d, acceleration, phase, anchor, op); }
  }

  lemma {:induction false} ReadyAtStart(j: Job, mode: Directive, limit: nat, table: seq<nat>, out: Buffer)
    requires j.Valid() && j.size > MFLIMIT && out == [] && j.TableOk(table, j.source + 1)
    requires Room(j, mode, limit, 0, j.source, j.source, true)
    ensures Ready(j, mode, limit, Searching(j.source + 1), table, out, [], j.source, j.source)
  {
    EmittedNothing(j);
  }

  lemma {:induction false} ReadyBounds(j: Job, mode: Directive, limit: nat, phase: Phase, table: seq<nat>, out: Buffer,
                    seqs: seq<Sequence>, anchor: nat, lastStart: nat)
    requires j.Valid() && Ready(j, mode, limit, phase, table, out, seqs, anchor, lastStart)
    ensures anchor <= j.End() && (phase.Searching? ==> |out| <= limit)
  {}

  // ---------------------------------------------------------------- last literals

  /** In fill mode: as many literals as fit behind their token and length bytes. */
  function FillRun(room: nat): nat
    requires room >= 1
  {
    room - 1 - (room - 1 + 256 - RUN_MASK) / 256
  }

  lemma {:induction false} FillRunFits(room: nat, n: nat)
    requires room >= 1 && 1 + |Ext(n)| + n > room
    ensures var k := FillRun(room);
            0 <= k < n && 1 + |Ext(k)| + k <= room && (room >= 6 ==> Min(room - 1, 8) <= k && 5 <= k)
  {}

  /** The byte that may stay free. */
  lemma {:induction false} FillRunLeaves(room: nat)
    requires room >= 1
    ensures var k := FillRun(room); k >= 0 && 1 + |Ext(k)| + k == room - if room % 256 == 16 then 1 else 0
  {}

  lemma {:induction false} LastFits(j: Job, op: nat, anchor: nat)
    requires j.Valid() && j.source <= anchor <= j.End() && Compact(anchor - j.source, op)
    ensures var n := j.End() - anchor; op + 1 + |Ext(n)| + n <= CompressBound(j.size)
  {}

  /** A block that stands for the first `consumed` bytes of the job's input. */
  ghost predicate BlockFor(j: Job, block: Buffer, consumed: nat)
    requires j.Valid() && consumed <= j.size
  {
    Decode(block, 0, History(j)) == Some(j.mem[j.Low()..j.source + consumed]) &&
    Conforms(block, 0, |History(j)|, j.source + consumed - j.Low())
  }

  /** Token, length bytes and literals from `anchor` to the end of the input. */
  function LastCost(j: Job, anchor: nat): nat
    requires anchor <= j.End()
  {
    1 + |Ext(j.End() - anchor)| + (j.End() - anchor)
  }

  /** How many last literals there are: all of them, or in fill mode as many as fit. */
  method LastRun(j: Job, mode: Directive, limit: nat, op: nat, anchor: nat, ghost lastStart: nat, ghost empty: bool)
    returns (n: nat, ok: bool)
    requires j.Valid() && Room(j, mode, limit, op, anchor, lastStart, empty)
    requires !empty ==> lastStart + MFLIMIT <= j.End() && anchor + LASTLITERALS <= j.End()
    ensures !ok ==> TooSmall(j, mode, limit)
    ensures ok ==> anchor + n <= j.End() && op + 1 + |Ext(n)| + n <= limit
    ensures ok && !empty ==> lastStart + MFLIMIT <= anchor + n && LASTLITERALS <= n
    ensures ok && anchor + n < j.End() ==>
      mode == FillOutput && op + 1 + |Ext(n)| + n == limit - if (limit - op) % 256 == 16 then 1 else 0
    ensures mode == NotLimited || op + LastCost(j, anchor) <= limit ==> ok && anchor + n == j.End()
  {
    hide Ext;
    n, ok := j.End() - anchor, true;
    LastFits(j, op, anchor);
    if mode != NotLimited && op + n + 1 + (n + 255 - RUN_MASK) / 255 > limit {
      if mode == LimitedOutput { return 0, false; }
      FillRunFits(limit - op, n);
      FillRunLeaves(limit - op);
      n := FillRun(limit - op);
    }
  }

  /** The block fills its target; one byte stays free exactly where the last token has 16
      modulo 256 bytes of room, since one more literal would take one more length byte. */
  predicate Fills(block: Buffer, target: nat) {
    LastToken(block, 0) < target &&
    |block| == target - if (target - LastToken(block, 0)) % 256 == 16 then 1 else 0
  }

  /** _last_literals. */
  method EncodeLast(j: Job, dst: array<byte>, mode: Directive, limit: nat, anchor: nat, op: nat,
                    ghost table: seq<nat>, ghost seqs: seq<Sequence>, ghost lastStart: nat)
    returns (result: nat, consumed: nat)
    requires j.Valid() && op <= dst.Length && limit <= dst.Length
    requires Ready(j, mode, limit, LastLiterals, table, dst[..op], seqs, anchor, lastStart)
    modifies dst
    ensures forall i :: limit <= i < dst.Length ==> dst[i] == old(dst[i])
    ensures j.TableOk(table, j.End())
    ensures !TooSmall(j, mode, limit) ==> result > 0
    ensures result <= limit && consumed <= j.size && (result > 0 && mode != FillOutput ==> consumed == j.size)
    ensures result > 0 && consumed < j.size ==> Fills(dst[..result], limit)
    ensures anchor <= j.End() && (mode == NotLimited || op + LastCost(j, anchor) <= limit ==>
                                    consumed == j.size && result == op + LastCost(j, anchor))
    ensures result > 0 ==> BlockFor(j, dst[..result], consumed)
  {
    hide Decode, Conforms, Write, Expand, Within, History, WriteLast, Ext, LiteralPart, LastToken, Room, TooSmall;
    var lastRun, ok := LastRun(j, mode, limit, op, anchor, lastStart, seqs == []);
    if !ok { return 0, 0; }
    LastSize(j.mem[anchor..anchor + lastRun]);
    result := EmitLast(dst, op, j.mem, anchor, lastRun, limit);
    consumed := anchor + lastRun - j.source;
    BlockDecodes(j, seqs, anchor, lastStart, lastRun, dst[..result]);
  }

  lemma {:induction false} LastSize(lits: Buffer)
    ensures |WriteLast(lits)| == 1 + |Ext(|lits|)| + |lits|
  {}

  /** How far the output may reach. */
  function OutputLimit(mode: Directive, size: nat, maxOutputSize: nat): nat {
    if mode == NotLimited then CompressBound(size) else maxOutputSize
  }

  lemma {:induction false} NothingReady(j: Job, mode: Directive, limit: nat, table: seq<nat>, out: Buffer)
    requires j.Valid() && out == [] && j.TableOk(table, j.End()) && Room(j, mode, limit, 0, j.source, j.source, true)
    ensures Ready(j, mode, limit, LastLiterals, table, out, [], j.source, j.source)
  {
    EmittedNothing(j);
  }

  /** LZ4_compress_generic_validated.  The result is the block size, 0 when limited output
      overflows; `consumed` input bytes are in the block, all of them except in fill mode. */
  method CompressValidated(j: Job, table: array<nat>, dst: array<byte>, mode: Directive, maxOutputSize: nat,
                           acceleration: nat, ghost d: nat)
    returns (result: nat, consumed: nat)
    requires j.Valid() && acceleration >= 1 && j.TableOk(table[..], j.source + 1)
    requires OutputLimit(mode, j.size, maxOutputSize) <= dst.Length
    modifies table, dst
    ensures j.TableOk(table[..], j.End())
    ensures result <= OutputLimit(mode, j.size, maxOutputSize)
    ensures forall i :: OutputLimit(mode, j.size, maxOutputSize) <= i < dst.Length ==> dst[i] == old(dst[i])
    ensures consumed <= j.size && (result > 0 && mode != FillOutput ==> consumed == j.size)
    ensures !TooSmall(j, mode, maxOutputSize) && (mode == FillOutput ==> maxOutputSize >= 1) ==> result > 0
    ensures result > 0 && consumed < j.size ==> Fills(dst[..result], maxOutputSize)
    ensures result > 0 ==> BlockFor(j, dst[..result], consumed)
    ensures RunAhead(j, old(table[..]), d, acceleration, mode, maxOutputSize) ==>
      consumed == j.size && RunBlock(j, d, result)
  {
    hide RunDone, RunAhead, RunBlock, LastCost, Decode, Conforms, Write, Emitted, HashPosition, MatchReady, LiteralPart,
      MatchRoom, History, Fills;
    var limit := OutputLimit(mode, j.size, maxOutputSize);
    ghost var repeats := RunAhead(j, table[..], d, acceleration, mode, maxOutputSize);
    if repeats { RunLimit(j, table[..], d, acceleration, mode, maxOutputSize); }
    TableOkLater(j, table[..], j.source + 1, j.End());
    if mode == FillOutput && maxOutputSize < 1 { return 0, 0; }
    NothingReady(j, mode, limit, table[..], dst[..0]);
    hide Ready;
    var overflow, anchor, op := false, j.source, 0;
    ghost var seqs, lastStart := [], j.source;
    if j.size > MFLIMIT {
      overflow, anchor, op, seqs, lastStart := EncodeSequences(j, table, dst, mode, limit, acceleration, d);
    }
    if overflow {
      ReadyOverflow(j, mode, limit, table[..], dst[..op], seqs, anchor, lastStart);
      return 0, 0;
    }
    if repeats {
      RunLast(j, old(table[..]), d, acceleration, mode, maxOutputSize, anchor, op);
    }
    result, consumed := EncodeLast(j, dst, mode, limit, anchor, op, table[..], seqs, lastStart);
  }

  /** The size of the block for an input that repeats at distance d from the start. */
  ghost predicate RunBlock(j: Job, d: nat, size: nat)
    requires j.Valid() && j.source + d + MFLIMIT <= j.End()
  {
    exists l: nat :: RunStart(j, d, l) && size == RunCost(l, j.size)
  }

  lemma {:induction false} RunLimit(j: Job, table: seq<nat>, d: nat, acceleration: nat, mode: Directive,
                                    maxOutputSize: nat)
    requires j.Valid() && RunAhead(j, table, d, acceleration, mode, maxOutputSize)
    ensures j.size > MFLIMIT && (mode == FillOutput ==> maxOutputSize >= 1)
    ensures RunAhead(j, table, d, acceleration, mode, OutputLimit(mode, j.size, maxOutputSize))
  {
    hide NoEarlierMatch, Repeats;
  }

  lemma {:induction false} RunLast(j: Job, table: seq<nat>, d: nat, acceleration: nat, mode: Directive,
                                   maxOutputSize: nat, anchor: nat, op: nat)
    requires j.Valid() && RunAhead(j, table, d, acceleration, mode, maxOutputSize)
    requires j.size > MFLIMIT ==> RunDone(j, d, anchor, op)
    ensures j.size > MFLIMIT && j.source + d + MFLIMIT <= j.End() && anchor <= j.End()
    ensures mode == NotLimited || op + LastCost(j, anchor) <= maxOutputSize
    ensures RunBlock(j, d, op + LastCost(j, anchor))
  {
    hide NoEarlierMatch, Repeats;
    var l: nat :| RunStart(j, d, l) && op + 1 + LASTLITERALS == RunCost(l, j.size);
    RunCostGrows(l, d, j.size);
  }

  lemma {:induction false} ReadyOverflow(j: Job, mode: Directive, limit: nat, table: seq<nat>, out: Buffer,
                      seqs: seq<Sequence>, anchor: nat, lastStart: nat)
    requires j.Valid() && Ready(j, mode, limit, Overflow, table, out, seqs, anchor, lastStart)
    ensures TooSmall(j, mode, limit) && j.TableOk(table, j.End())
  {}
}
