/** The match finder: hashing, the table of earlier positions, and the searches over the
    input.  The input with whatever precedes it is one contiguous buffer; table entries
    are 32- or 16-bit indices relative to `base`. */
module Lz4Search {
  import opened Bytes
  import opened Lz4Format

  const HASH_SIZE_U32 := 4096       // 1 << LZ4_HASHLOG
  const SKIP_TRIGGER := 64          // 1 << LZ4_skipTrigger
  const LIMIT_64K := 65536 + MFLIMIT - 1
  const MAX_INPUT_SIZE := 0x7E00_0000
  const KB64 := 65536

  datatype TableType = ByU32 | ByU16

  function TableSize(t: TableType): nat { if t == ByU16 then 2 * HASH_SIZE_U32 else HASH_SIZE_U32 }

  // ---------------------------------------------------------------- hashing

  function Read32(mem: Buffer, p: nat): (r: nat)
    requires p + 4 <= |mem|
    ensures r < 0x1_0000_0000
  {
    var b0: int, b1: int, b2: int, b3: int := mem[p], mem[p + 1], mem[p + 2], mem[p + 3];
    b0 + 0x100 * b1 + 0x1_0000 * b2 + 0x100_0000 * b3
  }

  /** LZ4_hash4: the top 13 (or 12) bits of a 32-bit product. */
  function Hash4(sequence: nat, t: TableType): (h: nat)
    ensures h < TableSize(t)
  {
    var product := sequence * 2654435761 % 0x1_0000_0000;
    if t == ByU16 then product / 0x8_0000 else product / 0x10_0000
  }

  /** LZ4_hash5: the top bits of a 64-bit product of the low five bytes. */
  function Hash5(sequence: nat, t: TableType): (h: nat)
    ensures h < TableSize(t)
  {
    var shifted := sequence * 0x100_0000 % 0x1_0000_0000_0000_0000;
    var product := shifted * 889523592379 % 0x1_0000_0000_0000_0000;
    if t == ByU16 then product / 0x8_0000_0000_0000 else product / 0x10_0000_0000_0000
  }

  function HashPosition(mem: Buffer, p: nat, t: TableType): (h: nat)
    requires p + 8 <= |mem|
    ensures h < TableSize(t)
  {
    if t == ByU16 then Hash4(Read32(mem, p), t)
    else Hash5(Read32(mem, p) + 0x1_0000_0000 * Read32(mem, p + 4), t)
  }

  // ---------------------------------------------------------------- comparing

  lemma {:induction false} Read32Repeats(mem: Buffer, p: nat, delta: nat)
    requires delta <= p && p + 4 <= |mem|
    ensures Read32(mem, p) == Read32(mem, p - delta) <==> Repeats(mem, p, p + 4, delta)
  {
    var q := p - delta;
    SameWord(mem[p], mem[p + 1], mem[p + 2], mem[p + 3], mem[q], mem[q + 1], mem[q + 2], mem[q + 3]);
    if Repeats(mem, p, p + 4, delta) {
      assert RepeatsAt(mem, p, delta) && RepeatsAt(mem, p + 1, delta);
      assert RepeatsAt(mem, p + 2, delta) && RepeatsAt(mem, p + 3, delta);
    }
  }

  /** A word has one byte representation. */
  lemma {:induction false} SameWord(a0: byte, a1: byte, a2: byte, a3: byte, b0: byte, b1: byte, b2: byte, b3: byte)
    ensures a0 + 0x100 * a1 + 0x1_0000 * a2 + 0x100_0000 * a3 == b0 + 0x100 * b1 + 0x1_0000 * b2 + 0x100_0000 * b3 <==>
            a0 == b0 && a1 == b1 && a2 == b2 && a3 == b3
  {
    if a0 + 0x100 * a1 + 0x1_0000 * a2 + 0x100_0000 * a3 == b0 + 0x100 * b1 + 0x1_0000 * b2 + 0x100_0000 * b3 {
      assert a0 - b0 == 0x100 * (b1 - a1 + 0x100 * (b2 - a2) + 0x1_0000 * (b3 - a3));
      assert a0 == b0;
      assert a1 - b1 == 0x100 * (b2 - a2 + 0x100 * (b3 - a3));
      assert a1 == b1;
    }
  }

  /** How many leading bytes of the n-byte words at `p` and `p - delta` agree: the trailing
      zero bytes of their exclusive or, in little-endian order. */
  function CommonBytes(mem: Buffer, p: nat, delta: nat, n: nat): (r: nat)
    requires delta <= p && p + n <= |mem|
    ensures r <= n && Repeats(mem, p, p + r, delta) && (r < n ==> !RepeatsAt(mem, p + r, delta))
    decreases n
  {
    if n == 0 || mem[p] != mem[p - delta] then 0
    else
      assert RepeatsAt(mem, p, delta);
      1 + CommonBytes(mem, p + 1, delta, n - 1)
  }

  /** LZ4_count: the length of the common run, up to a limit. */
  method Count(mem: Buffer, pIn0: nat, delta: nat, pInLimit: nat) returns (n: nat)
    requires delta <= pIn0 <= pInLimit <= |mem|
    ensures pIn0 + n <= pInLimit && Repeats(mem, pIn0, pIn0 + n, delta)
    ensures pIn0 + n < pInLimit ==> !RepeatsAt(mem, pIn0 + n, delta)
  {
    var pIn := pIn0;
    while pIn < pInLimit - 7
      invariant pIn0 <= pIn <= pInLimit && Repeats(mem, pIn0, pIn, delta)
    {
      var common := CommonBytes(mem, pIn, delta, 8);
      pIn := pIn + common;
      if common < 8 { return pIn - pIn0; }
    }
    ghost var run := CommonBytes(mem, pIn, delta, pInLimit - pIn);
    ghost var end := pIn + run;
    pIn := CountBy(mem, pIn, delta, pInLimit, 4, end);
    pIn := CountBy(mem, pIn, delta, pInLimit, 2, end);
    pIn := CountBy(mem, pIn, delta, pInLimit, 1, end);
    n := pIn - pIn0;
  }

  /** One more word of the given size, if all of it belongs to the run that ends at `end`. */
  method CountBy(mem: Buffer, pIn0: nat, delta: nat, pInLimit: nat, size: nat, ghost end: nat) returns (pIn: nat)
    requires delta <= pIn0 <= end <= pInLimit <= |mem|
    requires Repeats(mem, pIn0, end, delta) && (end < pInLimit ==> !RepeatsAt(mem, end, delta))
    ensures pIn == if pIn0 + size <= end then pIn0 + size else pIn0
  {
    pIn := pIn0;
    if pIn + size <= pInLimit && CommonBytes(mem, pIn, delta, size) == size {
      pIn := pIn + size;
    }
  }

  /** Extend a match backwards, not before `anchor` and `low`. */
  method CatchUp(mem: Buffer, ip0: nat, delta: nat, anchor: nat, low: nat, end: nat) returns (ip: nat)
    requires low + delta <= ip0 <= end <= |mem| && anchor <= ip0 && Repeats(mem, ip0, end, delta)
    ensures anchor <= ip <= ip0 && low + delta <= ip && Repeats(mem, ip, end, delta)
    ensures ip == anchor || ip == low + delta || mem[ip - 1] != mem[ip - delta - 1]
  {
    ip := ip0;
    while ip > anchor && ip - delta > low && mem[ip - 1] == mem[ip - delta - 1]
      invariant anchor <= ip <= ip0 && low + delta <= ip && Repeats(mem, ip, end, delta)
    {
      assert RepeatsAt(mem, ip - 1, delta);
      ip := ip - 1;
    }
  }

  // ---------------------------------------------------------------- the table of positions

  /** One call of the compressor: compress mem[source..source + size], of which the
      `dictSize` bytes before are visible history.  `small` is the dictSmall directive. */
  datatype Job = Job(mem: Buffer, source: nat, size: nat, startIndex: nat, dictSize: nat, small: bool,
                     tableType: TableType)
  {
    function Base(): int { source - startIndex }
    function End(): nat { source + size }
    function Low(): int { source - dictSize }
    function MatchLimit(): int { End() - LASTLITERALS }
    function MfLimitPlusOne(): int { End() - MFLIMIT + 1 }

    predicate Valid() {
      source + size <= |mem| && 0 < size <= MAX_INPUT_SIZE && dictSize <= source &&
      startIndex + size <= 0x8000_0000 &&
      (tableType == ByU16 ==> startIndex + size < LIMIT_64K) &&
      (small ==> dictSize <= startIndex) &&
      (!small ==> dictSize >= startIndex || (tableType == ByU32 && dictSize >= KB64))
    }

    function Hash(p: int): (h: nat)
      requires 0 <= p && p + 8 <= |mem|
      ensures h < TableSize(tableType)
    {
      HashPosition(mem, p, tableType)
    }

    /** Slot h holds nothing (0), or an index that is behind the cursor and hashes to h. */
    ghost predicate EntryOk(h: nat, e: nat, cur: nat) {
      e != 0 ==> 0 <= Base() + e < cur && Base() + e + 8 <= |mem| && Hash(Base() + e) == h
    }

    ghost predicate TableOk(table: seq<nat>, cur: nat) {
      |table| == TableSize(tableType) && source < cur &&
      forall h {:trigger table[h]} :: 0 <= h < |table| ==> EntryOk(h, table[h], cur)
    }

    /** What the slot type keeps of an index. */
    function Stored(idx: nat): nat {
      if tableType == ByU16 then idx % 0x1_0000 else idx % 0x1_0000_0000
    }
  }

  lemma {:induction false} TableOkLater(j: Job, table: seq<nat>, cur: nat, later: nat)
    requires j.TableOk(table, cur) && cur <= later
    ensures j.TableOk(table, later)
  {
    hide HashPosition;
  }

  lemma {:induction false} StoredIndex(j: Job, p: nat)
    requires j.Valid() && j.source <= p && p + MFLIMIT <= j.End()
    ensures j.Stored(p - j.Base()) == p - j.Base()
  {}

  /** LZ4_putIndexOnHash / LZ4_putPosition. */
  method Put(j: Job, table: array<nat>, h: nat, p: nat)
    requires j.Valid() && j.source <= p && p + MFLIMIT <= j.End() && h == j.Hash(p) && h < table.Length
    modifies table
    ensures table[..] == old(table[..])[h := p - j.Base()]
    ensures forall cur: nat :: j.TableOk(old(table[..]), cur) && p < cur ==> j.TableOk(table[..], cur)
  {
    hide HashPosition;
    StoredIndex(j, p);
    table[h] := j.Stored(p - j.Base());
  }

  /** LZ4_clearHash. */
  method Clear(j: Job, table: array<nat>, h: nat)
    requires h < table.Length
    modifies table
    ensures table[..] == old(table[..])[h := 0]
  {
    table[h] := 0;
  }

  /** A usable entry lies in the visible history, at most 65535 back. */
  lemma {:induction false} EntryVisible(j: Job, e: nat, p: nat)
    requires j.Valid() && j.source < p && p + MFLIMIT <= j.End() && j.Base() + e < p
    requires j.small ==> e >= j.startIndex - j.dictSize
    requires j.tableType != ByU16 ==> e + DISTANCE_MAX >= p - j.Base()
    ensures j.Low() <= j.Base() + e && p - (j.Base() + e) <= DISTANCE_MAX
  {}

  lemma {:induction false} EntryBehind(j: Job, e: nat, h: nat, p: nat)
    requires j.Valid() && j.source < p && j.EntryOk(h, e, p)
    ensures j.Base() + e < p
  {
    hide HashPosition;
  }

  /** The index denotes a visible position, at most 65535 back, with the same four bytes. */
  ghost predicate Usable(j: Job, e: nat, p: nat)
    requires j.Valid() && p + MINMATCH <= |j.mem| && j.Base() + e < p
  {
    j.Low() <= j.Base() + e && p - (j.Base() + e) <= DISTANCE_MAX &&
    Repeats(j.mem, p, p + MINMATCH, p - (j.Base() + e))
  }

  lemma {:induction false} TooFarIsUseless(j: Job, e: nat, p: nat)
    requires j.Valid() && p + MINMATCH <= |j.mem| && j.Base() + e < p
    requires (j.small && e < j.startIndex - j.dictSize) || e + DISTANCE_MAX < p - j.Base()
    ensures !Usable(j, e, p)
  {}

  /** Look the position up and register it; 0 when its slot holds no usable match. */
  method Candidate(j: Job, table: array<nat>, h: nat, p: nat) returns (delta: nat)
    requires j.Valid() && j.source < p && p + MFLIMIT <= j.End()
    requires j.TableOk(table[..], p) && h == j.Hash(p)
    modifies table
    ensures j.TableOk(table[..], p + 1) && table[..] == old(table[..])[h := p - j.Base()]
    ensures j.Base() + old(table[h]) < p
    ensures delta > 0 <==> Usable(j, old(table[h]), p)
    ensures delta > 0 ==> delta == p - (j.Base() + old(table[h]))
    ensures delta > 0 ==> delta <= DISTANCE_MAX && j.Low() + delta <= p && Repeats(j.mem, p, p + MINMATCH, delta)
  {
    hide HashPosition, Repeats;
    var matchIndex, current := table[h], p - j.Base();
    assert j.EntryOk(h, table[..][h], p);
    EntryBehind(j, matchIndex, h, p);
    TableOkLater(j, table[..], p, p + 1);
    Put(j, table, h, p);
    if j.small && matchIndex < j.startIndex - j.dictSize { TooFarIsUseless(j, matchIndex, p); return 0; }
    if j.tableType != ByU16 && matchIndex + DISTANCE_MAX < current { TooFarIsUseless(j, matchIndex, p); return 0; }
    EntryVisible(j, matchIndex, p);
    var m := j.Base() + matchIndex;
    Read32Repeats(j.mem, p, p - m);
    delta := if Read32(j.mem, m) == Read32(j.mem, p) then p - m else 0;
  }

  ghost predicate UsableAt(j: Job, e: nat, p: nat)
    requires j.Valid() && p + MINMATCH <= |j.mem|
  {
    j.Base() + e < p && Usable(j, e, p)
  }

  /** A match at `ip`, `delta` back. */
  datatype Found = Found(ip: nat, delta: int)

  /** The first of the probed positions whose slot holds a usable entry when it is probed.
      The probes start at `p`, the distance between two grows by one every 64 probes. */
  ghost function FirstUsable(j: Job, table: seq<nat>, p: nat, step: nat, probes: nat): (f: Option<Found>)
    requires j.Valid() && |table| == TableSize(j.tableType) && j.source < p && step >= 1 && probes >= SKIP_TRIGGER
    ensures f.Some? ==> p <= f.value.ip && f.value.ip + MFLIMIT <= j.End()
    decreases j.End() - p
  {
    if p + step > j.MfLimitPlusOne() then None
    else
      var h := j.Hash(p);
      if UsableAt(j, table[h], p) then Some(Found(p, p - (j.Base() + table[h])))
      else FirstUsable(j, table[h := p - j.Base()], p + step, probes / SKIP_TRIGGER, probes + 1)
  }

  /** The search loop: ever longer steps until a match is found or the input ends. */
  method FindMatch(j: Job, table: array<nat>, ip0: nat, acceleration: nat) returns (found: bool, ip: nat, delta: nat)
    requires j.Valid() && acceleration >= 1 && j.source < ip0 <= j.MfLimitPlusOne()
    requires j.TableOk(table[..], ip0)
    modifies table
    ensures found ==> ip0 <= ip && ip + MFLIMIT <= j.End() && j.TableOk(table[..], ip + 1)
    ensures found ==> 0 < delta <= DISTANCE_MAX && j.Low() + delta <= ip && Repeats(j.mem, ip, ip + MINMATCH, delta)
    ensures !found ==> j.TableOk(table[..], j.End())
    ensures FirstUsable(j, old(table[..]), ip0, 1, acceleration * SKIP_TRIGGER) ==
            if found then Some(Found(ip, delta)) else None
  {
    hide HashPosition, Usable;
    var forwardIp, step, searchMatchNb := ip0, 1, acceleration * SKIP_TRIGGER;
    var forwardH := j.Hash(forwardIp);
    while true
      invariant ip0 <= forwardIp <= j.MfLimitPlusOne() && forwardH == j.Hash(forwardIp)
      invariant step >= 1 && searchMatchNb >= SKIP_TRIGGER
      invariant j.TableOk(table[..], forwardIp)
      invariant FirstUsable(j, table[..], forwardIp, step, searchMatchNb) ==
                FirstUsable(j, old(table[..]), ip0, 1, acceleration * SKIP_TRIGGER)
      decreases j.End() - forwardIp
    {
      var h := forwardH;
      ip := forwardIp;
      forwardIp := forwardIp + step;
      step, searchMatchNb := searchMatchNb / SKIP_TRIGGER, searchMatchNb + 1;
      if forwardIp > j.MfLimitPlusOne() {
        TableOkLater(j, table[..], ip, j.End());
        return false, ip, 0;
      }
      forwardH := j.Hash(forwardIp);
      delta := Candidate(j, table, h, ip);
      if delta > 0 { return true, ip, delta; }
      TableOkLater(j, table[..], ip + 1, forwardIp);
    }
  }

  /** After a match was shortened to end at `ip`: forget the positions from there to
      `filledIp` that the search had already registered. */
  method ClearPassedOver(j: Job, table: array<nat>, ip: nat, filledIp: nat)
    requires j.Valid() && j.source < ip <= filledIp + 1 && filledIp + MFLIMIT <= j.End()
    requires j.TableOk(table[..], filledIp + 1)
    modifies table
    ensures j.TableOk(table[..], ip)
  {
    hide HashPosition;
    var p := ip;
    while p <= filledIp
      invariant ip <= p <= filledIp + 1
      invariant table.Length == TableSize(j.tableType)
      invariant forall h {:trigger table[h]} :: 0 <= h < table.Length ==> EntryGone(j, h, table[h], ip, p, filledIp + 1)
    {
      Clear(j, table, j.Hash(p));
      p := p + 1;
    }
  }

  /** The entry is behind `ip`, or among the positions not yet cleared. */
  ghost predicate EntryGone(j: Job, h: nat, e: nat, ip: nat, p: nat, end: nat) {
    j.EntryOk(h, e, end) && (e == 0 || j.Base() + e < ip || p <= j.Base() + e)
  }

  // ---------------------------------------------------------------- input that repeats

  /** From its `d`-th byte on the input repeats at distance d, and nothing in front of that
      byte can be taken for a match: the first d positions have different slots, and what
      the slots hold is no use.  At distance 1 that is only the repetition itself. */
  ghost predicate Repetitive(j: Job, table: seq<nat>, d: nat, acceleration: nat)
    requires j.Valid()
  {
    0 < d <= 64 && (d > 1 ==> acceleration == 1) && |table| == TableSize(j.tableType) &&
    j.source + d + MFLIMIT <= j.End() && Repeats(j.mem, j.source + d, j.End(), d) &&
    forall k :: 0 < k < d ==> NoEarlierMatch(j, table, k)
  }

  ghost predicate NoEarlierMatch(j: Job, table: seq<nat>, k: nat)
    requires j.Valid() && |table| == TableSize(j.tableType) && j.source + k + 8 <= |j.mem|
  {
    var h := j.Hash(j.source + k);
    !UsableAt(j, table[h], j.source + k) && forall i :: 0 <= i < k ==> OtherSlot(j, i, h)
  }

  ghost predicate OtherSlot(j: Job, i: nat, h: nat)
    requires j.Valid() && j.source + i + 8 <= |j.mem|
  {
    j.Hash(j.source + i) != h
  }

  /** Such a repetition is found where it starts. */
  lemma {:induction false} RepetitionFound(j: Job, table: seq<nat>, d: nat, acceleration: nat)
    requires j.Valid() && acceleration >= 1 && Repetitive(j, table, d, acceleration)
    ensures FirstUsable(j, table[j.Hash(j.source) := j.startIndex], j.source + 1, 1, acceleration * SKIP_TRIGGER) ==
            Some(Found(j.source + d, d))
  {
    hide HashPosition, Usable, Repeats;
    var h := j.Hash(j.source);
    var registered := table[h := j.startIndex];
    forall k | 1 <= k < d ensures NoEarlierMatch(j, registered, k) {
      assert NoEarlierMatch(j, table, k) && OtherSlot(j, 0, j.Hash(j.source + k));
    }
    ProbesReach(j, registered, d, 1, acceleration * SKIP_TRIGGER);
  }

  lemma {:induction false} ProbesReach(j: Job, table: seq<nat>, d: nat, k: nat, probes: nat)
    requires j.Valid() && 1 <= k <= d <= 64 && |table| == TableSize(j.tableType)
    requires j.source + d + MFLIMIT <= j.End() && Repeats(j.mem, j.source + d, j.End(), d)
    requires probes >= SKIP_TRIGGER && (k < d ==> probes == SKIP_TRIGGER + k - 1)
    requires table[j.Hash(j.source)] == j.startIndex && forall i :: k <= i < d ==> NoEarlierMatch(j, table, i)
    ensures FirstUsable(j, table, j.source + k, 1, probes) == Some(Found(j.source + d, d))
    decreases d - k
  {
    hide HashPosition;
    if k == d {
      SameHash(j, d);
    } else {
      hide Usable, Repeats;
      var p := j.source + k;
      var h := j.Hash(p);
      assert NoEarlierMatch(j, table, k) && OtherSlot(j, 0, h);
      var more := table[h := p - j.Base()];
      forall i | k + 1 <= i < d ensures NoEarlierMatch(j, more, i) {
        assert NoEarlierMatch(j, table, i) && OtherSlot(j, k, j.Hash(j.source + i));
      }
      ProbesReach(j, more, d, k + 1, probes + 1);
    }
  }

  lemma {:induction false} WordRepeats(mem: Buffer, p: nat, d: nat, end: nat)
    requires 0 < d <= p && p + 4 <= end <= |mem| && Repeats(mem, p, end, d)
    ensures Read32(mem, p) == Read32(mem, p - d)
  {
    Read32Repeats(mem, p, d);
  }

  /** The slot of the first byte is also that of the first repetition. */
  lemma {:induction false} SameHash(j: Job, d: nat)
    requires j.Valid() && 0 < d && j.source + d + MFLIMIT <= j.End() && Repeats(j.mem, j.source + d, j.End(), d)
    ensures j.Hash(j.source + d) == j.Hash(j.source)
  {
    hide Hash4, Hash5;
    WordRepeats(j.mem, j.source + d, d, j.End());
    WordRepeats(j.mem, j.source + d + 4, d, j.End());
  }
}
