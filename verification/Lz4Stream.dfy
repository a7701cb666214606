/** Streaming compression and decompression on contiguous buffers: LZ4_compress_fast_continue
    on adjacent inputs and LZ4_decompress_safe_continue. */
module Lz4Stream {
  import opened Bytes
  import opened Lz4Format
  import opened Lz4Search
  import opened Lz4Encoder
  import opened Lz4Decoder
  import opened Lz4Api

  const RENORM_LIMIT := 0x8000_0000

  /** A slot of the stream's table: nothing, or an index denoting a byte before `end` (the
      end of what was compressed) whose position hashes to the slot. */
  ghost predicate SlotOk(mem: Buffer, end: nat, currentOffset: nat, h: nat, e: nat) {
    e != 0 ==>
      var p := end - currentOffset + e;
      0 <= p < end && p + 8 <= |mem| && HashPosition(mem, p, ByU32) == h
  }

  ghost predicate SlotsOk(mem: Buffer, end: nat, currentOffset: nat, table: seq<nat>) {
    |table| == TableSize(ByU32) &&
    forall h {:trigger table[h]} :: 0 <= h < |table| ==> SlotOk(mem, end, currentOffset, h, table[h])
  }

  /** LZ4_renormDictT on one index. */
  function Rescaled(e: nat, delta: nat): nat { if e < delta then 0 else e - delta }

  /** An index that survives denotes the same byte, and every index within 64 KB survives. */
  lemma {:induction false} RescaledKeeps(e: nat, currentOffset: nat, nextSize: nat)
    requires e <= currentOffset <= RENORM_LIMIT < currentOffset + nextSize
    ensures var r := Rescaled(e, (currentOffset + TWO32 - KB64) % TWO32);
            (r != 0 ==> r - KB64 == e - currentOffset) &&
            (e + KB64 > currentOffset ==> r - KB64 == e - currentOffset || nextSize > MAX_INPUT_SIZE)
  {}

  /** The compression state; `mem` is the caller's contiguous input buffer. */
  class EncoderStream {
    const mem: Buffer
    const hashTable: array<nat>
    var currentOffset: nat
    var dictSize: nat
    var dictEnd: nat        // dictionary + dictSize
    var started: bool       // the dictionary pointer is not null

    ghost predicate Valid()
      reads this, hashTable
    {
      dictSize <= dictEnd && currentOffset <= RENORM_LIMIT &&
      (!started ==> currentOffset == dictSize == dictEnd == 0) &&
      SlotsOk(mem, dictEnd, currentOffset, hashTable[..])
    }

    constructor (mem: Buffer)
      ensures Valid() && this.mem == mem && dictEnd == 0 && fresh(hashTable)
    {
      this.mem := mem;
      hashTable := new nat[TableSize(ByU32)](_ => 0);
      currentOffset, dictSize, dictEnd, started := 0, 0, 0, false;
    }

    /** LZ4_renormDictT: U32 arithmetic, so a current offset below 64 KB drops every entry. */
    method Renorm(nextSize: nat)
      requires Valid() && nextSize < TWO31 && (currentOffset + nextSize > RENORM_LIMIT ==> started)
      modifies this`currentOffset, this`dictSize, hashTable
      ensures Valid() && dictSize <= old(dictSize)
      ensures nextSize <= MAX_INPUT_SIZE ==> currentOffset + nextSize <= RENORM_LIMIT
      ensures dictSize < KB64 ==> dictSize == old(dictSize)
      // a surviving index denotes the same byte, and everything within 64 KB survives
      ensures forall h :: 0 <= h < hashTable.Length && hashTable[h] != 0 ==>
                hashTable[h] - currentOffset == old(hashTable[h]) - old(currentOffset)
      ensures forall h :: 0 <= h < hashTable.Length && old(hashTable[h]) + KB64 > old(currentOffset) ==>
                hashTable[h] - currentOffset == old(hashTable[h]) - old(currentOffset) || nextSize > MAX_INPUT_SIZE
    {
      SlotsBelow(mem, dictEnd, currentOffset, hashTable[..]);
      hide SlotsOk, Rescaled;
      if currentOffset + nextSize > RENORM_LIMIT {
        var delta := (currentOffset + TWO32 - KB64) % TWO32;
        Rescale(delta);
        forall h | 0 <= h < hashTable.Length
          ensures hashTable[h] != 0 || old(hashTable[h]) + KB64 > currentOffset ==>
                    hashTable[h] - KB64 == old(hashTable[h]) - currentOffset || nextSize > MAX_INPUT_SIZE
          ensures hashTable[h] != 0 ==> hashTable[h] - KB64 == old(hashTable[h]) - currentOffset
        {
          RescaledKeeps(old(hashTable[h]), currentOffset, nextSize);
        }
        currentOffset := KB64;
        if dictSize > KB64 { dictSize := KB64; }
      }
    }

    method Rescale(delta: nat)
      requires Valid() && delta == (currentOffset + TWO32 - KB64) % TWO32
      modifies hashTable
      ensures SlotsOk(mem, dictEnd, KB64, hashTable[..])
      ensures forall h :: 0 <= h < hashTable.Length ==> hashTable[h] == Rescaled(old(hashTable[h]), delta)
    {
      hide HashPosition;
      var i := 0;
      while i < hashTable.Length
        invariant 0 <= i <= hashTable.Length == TableSize(ByU32)
        invariant forall h {:trigger hashTable[h]} :: 0 <= h < i ==> SlotOk(mem, dictEnd, KB64, h, hashTable[h])
        invariant forall h :: 0 <= h < i ==> hashTable[h] == Rescaled(old(hashTable[h]), delta)
        invariant forall h :: i <= h < hashTable.Length ==> hashTable[h] == old(hashTable[h])
        invariant forall h {:trigger hashTable[h]} :: i <= h < hashTable.Length ==>
                    SlotOk(mem, dictEnd, currentOffset, h, hashTable[h])
      {
        hashTable[i] := Rescaled(hashTable[i], delta);
        i := i + 1;
      }
    }

    function StreamJob(inputSize: nat): Job
      reads this
    {
      Job(mem, dictEnd, inputSize, currentOffset, dictSize, dictSize < KB64 && dictSize < currentOffset, ByU32)
    }

    /** LZ4_compress_generic on the stream, the source following the dictionary. */
    method Generic(inputSize: nat, dst: array<byte>, maxOutputSize: nat, acceleration: nat) returns (result: nat)
      requires Valid() && dictEnd + inputSize <= |mem| && maxOutputSize <= dst.Length && acceleration >= 1
      requires inputSize <= MAX_INPUT_SIZE ==> currentOffset + inputSize <= RENORM_LIMIT
      modifies this`currentOffset, this`dictSize, this`dictEnd, hashTable, dst
      ensures dictSize <= dictEnd
      ensures SlotsOk(mem, dictEnd, currentOffset, hashTable[..]) && currentOffset <= RENORM_LIMIT
      ensures inputSize > MAX_INPUT_SIZE ==> currentOffset == old(currentOffset) && hashTable[..] == old(hashTable[..])
      ensures result <= maxOutputSize
      ensures dictEnd == old(dictEnd) + if inputSize <= MAX_INPUT_SIZE then inputSize else 0
      ensures result > 0 ==> inputSize <= MAX_INPUT_SIZE && Continues(mem, old(dictEnd), inputSize, dst[..result])
      ensures inputSize <= MAX_INPUT_SIZE && maxOutputSize >= CompressBound(inputSize) ==> result > 0
      ensures EqualBytes(mem, old(dictEnd), inputSize) && RepeatingSize(1, inputSize) <= maxOutputSize ==>
                0 < result <= RepeatingSize(1, inputSize)
    {
      hide Continues, SlotsOk, EqualBytes, RepeatingSize;
      EqualIsNotEmpty(mem, dictEnd, inputSize);
      if inputSize > MAX_INPUT_SIZE { return 0; }
      if inputSize == 0 {
        if maxOutputSize <= 0 { return 0; }
        dst[0] := 0;
        EmptyContinues(mem, dictEnd);
        assert dst[..1] == [0];
        return 1;
      }
      var j := StreamJob(inputSize);
      result := CompressSlots(j, hashTable, dst, maxOutputSize, acceleration);
      dictSize, currentOffset, dictEnd := dictSize + inputSize, currentOffset + inputSize, dictEnd + inputSize;
    }

    /** LZ4_compress_fast_continue with the source right behind the previous input.  The
        first call takes the external-dictionary branch with an empty dictionary: no index
        is below a start index of 0, so it compresses like any other. */
    method Continue(inputSize: nat, dst: array<byte>, maxOutputSize: nat, acceleration: int) returns (result: nat)
      requires Valid() && dictEnd + inputSize <= |mem| && inputSize < TWO31
      requires maxOutputSize <= dst.Length
      modifies this`currentOffset, this`dictSize, this`dictEnd, this`started, hashTable, dst
      ensures Valid() && result <= maxOutputSize
      ensures inputSize <= MAX_INPUT_SIZE ==> dictEnd == old(dictEnd) + inputSize
      ensures result > 0 ==> inputSize <= MAX_INPUT_SIZE && Continues(mem, old(dictEnd), inputSize, dst[..result])
      ensures inputSize <= MAX_INPUT_SIZE && maxOutputSize >= CompressBound(inputSize) ==> result > 0
      ensures EqualBytes(mem, old(dictEnd), inputSize) && RepeatingSize(1, inputSize) <= maxOutputSize ==>
                0 < result <= RepeatingSize(1, inputSize)
    {
      hide Continues, SlotsOk;
      var first, source := !started, dictEnd;
      Renorm(inputSize);
      result := Generic(inputSize, dst, maxOutputSize, ClampAcceleration(acceleration));
      if first {
        if inputSize > MAX_INPUT_SIZE { EmptySlots(mem, source, source + inputSize, hashTable[..]); }
        started, dictSize, dictEnd := true, inputSize, source + inputSize;
      }
    }
  }

  /** One chunk, the table's slots those of a stream before and after. */
  method CompressSlots(j: Job, table: array<nat>, dst: array<byte>, maxOutputSize: nat, acceleration: nat)
      returns (result: nat)
    requires j.Valid() && j.tableType == ByU32 && SlotsOk(j.mem, j.source, j.startIndex, table[..])
    requires maxOutputSize <= dst.Length && acceleration >= 1
    modifies table, dst
    ensures SlotsOk(j.mem, j.End(), j.startIndex + j.size, table[..]) && result <= maxOutputSize
    ensures result > 0 ==> Continues(j.mem, j.source, j.size, dst[..result])
    ensures maxOutputSize >= CompressBound(j.size) ==> result > 0
    ensures EqualBytes(j.mem, j.source, j.size) && RepeatingSize(1, j.size) <= maxOutputSize ==>
              0 < result <= RepeatingSize(1, j.size)
  {
    hide Continues, SlotsOk, RunAhead, RunBlock, EqualBytes, RepeatingSize, BlockFor, Fills, Job.TableOk;
    var consumed;
    SlotsToTable(j, table[..]);
    ghost var equal := EqualBytes(j.mem, j.source, j.size) && RepeatingSize(1, j.size) <= maxOutputSize;
    if equal { EqualIsAhead(j, table[..], acceleration, maxOutputSize); }
    result, consumed := CompressValidated(j, table, dst, LimitedOutput, maxOutputSize, acceleration, 1);
    if equal { EqualBlock(j, result); }
    TableToSlots(j, table[..]);
    if result > 0 { JobContinues(j, dst[..result]); }
  }

  lemma {:induction false} EqualIsNotEmpty(mem: Buffer, source: nat, n: nat)
    requires source + n <= |mem|
    ensures EqualBytes(mem, source, n) ==> 0 < n <= MAX_INPUT_SIZE
  {}

  /** A chunk of more than 12 bytes, all equal. */
  ghost predicate EqualBytes(mem: Buffer, source: nat, n: nat)
    requires source + n <= |mem|
  {
    MFLIMIT < n <= MAX_INPUT_SIZE && forall k :: source < k < source + n ==> mem[k] == mem[k - 1]
  }

  lemma {:induction false} EqualIsAhead(j: Job, table: seq<nat>, acceleration: nat, maxOutputSize: nat)
    requires j.Valid() && |table| == TableSize(j.tableType) && EqualBytes(j.mem, j.source, j.size)
    requires RepeatingSize(1, j.size) <= maxOutputSize
    ensures RunAhead(j, table, 1, acceleration, LimitedOutput, maxOutputSize) && MFLIMIT < j.size
  {
    forall k | j.source + 1 <= k < j.End() ensures RepeatsAt(j.mem, k, 1) { assert j.mem[k] == j.mem[k - 1]; }
  }

  lemma {:induction false} EqualBlock(j: Job, size: nat)
    requires j.Valid() && j.size > MFLIMIT && RunBlock(j, 1, size)
    ensures 0 < size <= RepeatingSize(1, j.size)
  {
    var l: nat :| RunStart(j, 1, l) && size == RunCost(l, j.size);
    RunCostGrows(l, 1, j.size);
  }

  lemma {:induction false} SlotsBelow(mem: Buffer, end: nat, currentOffset: nat, table: seq<nat>)
    requires SlotsOk(mem, end, currentOffset, table)
    ensures forall h :: 0 <= h < |table| ==> table[h] <= currentOffset
  {
    hide HashPosition;
    forall h | 0 <= h < |table| ensures table[h] <= currentOffset {
      assert SlotOk(mem, end, currentOffset, h, table[h]);
    }
  }

  lemma {:induction false} EmptySlots(mem: Buffer, end: nat, end': nat, table: seq<nat>)
    requires SlotsOk(mem, end, 0, table)
    ensures SlotsOk(mem, end', 0, table)
  {
    hide HashPosition;
    forall h | 0 <= h < |table| ensures table[h] == 0 { assert SlotOk(mem, end, 0, h, table[h]); }
  }

  /** The block extends the decoded stream mem[..source] by the next n bytes. */
  ghost predicate Continues(mem: Buffer, source: nat, n: nat, block: Buffer)
    requires source + n <= |mem|
  {
    Decode(block, 0, mem[..source]) == Some(mem[..source + n]) && Conforms(block, 0, source, source + n)
  }

  lemma {:induction false} JobContinues(j: Job, block: Buffer)
    requires j.Valid() && BlockFor(j, block, j.size)
    ensures Continues(j.mem, j.source, j.size, block)
  {
    hide Decode, Conforms;
    var front := j.mem[..j.Low()];
    DecodeWithMoreHistory(block, 0, front, History(j));
    ConformsWithMoreHistory(block, 0, j.Low(), |History(j)|, j.source + j.size - j.Low());
    assert front + History(j) == j.mem[..j.source];
    assert front + j.mem[j.Low()..j.source + j.size] == j.mem[..j.source + j.size];
  }

  lemma {:induction false} EmptyContinues(mem: Buffer, source: nat)
    requires source <= |mem|
    ensures Continues(mem, source, 0, [0])
  {
    EmptyOutput(mem[..source]);
    var block: Buffer := [0];
    assert Parse(block, 0) == Last(1);
  }

  lemma {:induction false} SlotsToTable(j: Job, table: seq<nat>)
    requires j.tableType == ByU32 && SlotsOk(j.mem, j.source, j.startIndex, table)
    ensures j.TableOk(table, j.source + 1) && |table| == TableSize(ByU32)
  {
    hide HashPosition;
    forall h | 0 <= h < |table| ensures j.EntryOk(h, table[h], j.source + 1) {
      assert SlotOk(j.mem, j.source, j.startIndex, h, table[h]);
    }
  }

  lemma {:induction false} TableToSlots(j: Job, table: seq<nat>)
    requires j.tableType == ByU32 && j.TableOk(table, j.End())
    ensures SlotsOk(j.mem, j.End(), j.startIndex + j.size, table)
  {
    hide HashPosition;
    forall h | 0 <= h < |table| ensures SlotOk(j.mem, j.End(), j.startIndex + j.size, h, table[h]) {
      assert j.EntryOk(h, table[h], j.End());
    }
  }

  /** The decompression state; the blocks are decoded one behind the other into `out`. */
  class DecoderStream {
    const out: array<byte>
    var prefixSize: nat     // also the prefix end, as an index into `out`

    constructor (out: array<byte>)
      ensures this.out == out && prefixSize == 0
    {
      this.out := out;
      prefixSize := 0;
    }

    /** LZ4_decompress_safe_continue with the destination at the prefix end. */
    method Continue(block: Buffer, maxOutputSize: nat) returns (r: int)
      requires |block| < TWO31 && prefixSize + maxOutputSize <= out.Length && maxOutputSize < TWO31
      modifies this, out
      ensures out[..old(prefixSize)] == old(out[..prefixSize])
      ensures r <= maxOutputSize && prefixSize == old(prefixSize) + if r > 0 then r else 0
      ensures r >= 0 ==> (Decode(block, 0, old(out[..prefixSize])) == Some(out[..prefixSize]) <==> LengthsFit(block, 0))
      ensures Decodable(block, old(out[..prefixSize]), maxOutputSize) && (maxOutputSize > 0 || block == [0]) ==>
        r >= 0 && Decode(block, 0, old(out[..prefixSize])) == Some(out[..prefixSize])
    {
      hide Decode, Conforms, LengthsFit;
      if prefixSize == 0 {
        r := DecompressGeneric(block, out, 0, maxOutputSize, false);
      } else if prefixSize >= KB64 - 1 {
        r := DecompressGeneric(block, out, prefixSize, maxOutputSize, true);
      } else {
        r := DecompressGeneric(block, out, prefixSize, maxOutputSize, false);
      }
      if r <= 0 { return; }
      prefixSize := prefixSize + r;
    }
  }

  function Sum(sizes: seq<nat>): nat { if sizes == [] then 0 else Sum(sizes[..|sizes| - 1]) + sizes[|sizes| - 1] }

  lemma {:induction false} SumPrefix(sizes: seq<nat>, k: nat)
    requires k <= |sizes|
    ensures Sum(sizes[..k]) <= Sum(sizes)
    decreases |sizes|
  {
    if k < |sizes| {
      assert sizes[..|sizes| - 1][..k] == sizes[..k];
      SumPrefix(sizes[..|sizes| - 1], k);
    } else {
      assert sizes[..k] == sizes;
    }
  }

  /** One chunk through both streams. */
  method Transfer(enc: EncoderStream, dec: DecoderStream, size: nat, block: array<byte>, capacity: nat,
      acceleration: int)
    returns (ok: bool)
    requires enc.Valid() && enc.dictEnd + size <= |enc.mem| && size <= MAX_INPUT_SIZE &&
      capacity <= block.Length < TWO31
    requires dec.out != block && dec.prefixSize == enc.dictEnd
    requires dec.prefixSize + size <= dec.out.Length && dec.out[..dec.prefixSize] == enc.mem[..enc.dictEnd]
    modifies enc`currentOffset, enc`dictSize, enc`dictEnd, enc`started, enc.hashTable, block, dec, dec.out
    ensures enc.Valid() && enc.dictEnd == old(enc.dictEnd) + size
    ensures capacity >= CompressBound(size) ==> ok
    ensures ok ==> dec.prefixSize == enc.dictEnd && dec.out[..dec.prefixSize] == enc.mem[..enc.dictEnd]
  {
    hide SlotsOk, Decode, Conforms;
    var n := enc.Continue(size, block, capacity, acceleration);
    if n == 0 { return false; }
    ghost var source := old(enc.dictEnd);
    assert Decodable(block[..n], enc.mem[..source], size);
    var r := dec.Continue(block[..n], size);
    ok := true;
  }

  /** Any run of successful calls on adjacent inputs, decoded block by block into one
      contiguous buffer, rebuilds the whole input; with room for every chunk's compression
      bound the run succeeds. */
  method StreamRoundTrip(mem: Buffer, sizes: seq<nat>, block: array<byte>, capacity: nat, acceleration: int)
    returns (ok: bool, out: array<byte>)
    requires Sum(sizes) <= |mem| && (forall i :: 0 <= i < |sizes| ==> sizes[i] <= MAX_INPUT_SIZE)
    requires capacity <= block.Length < TWO31
    modifies block
    ensures ok ==> out[..] == mem[..Sum(sizes)]
    ensures (forall i :: 0 <= i < |sizes| ==> capacity >= CompressBound(sizes[i])) ==> ok
  {
    hide SlotsOk, Sum;
    out := new byte[Sum(sizes)];
    var enc := new EncoderStream(mem);
    var dec := new DecoderStream(out);
    SumNothing(sizes);
    var i := 0;
    while i < |sizes|
      invariant 0 <= i <= |sizes| && enc.Valid() && enc.mem == mem && dec.out == out
      invariant fresh(enc) && fresh(enc.hashTable) && fresh(dec) && fresh(out)
      invariant dec.prefixSize == enc.dictEnd == Sum(sizes[..i]) <= Sum(sizes)
      invariant out[..dec.prefixSize] == mem[..enc.dictEnd]
    {
      SumStep(sizes, i);
      ok := Transfer(enc, dec, sizes[i], block, capacity, acceleration);
      if !ok { return; }
      i := i + 1;
    }
    assert sizes[..i] == sizes && out[..] == out[..Sum(sizes)];
    ok := true;
  }

  lemma {:induction false} SumNothing(sizes: seq<nat>)
    ensures Sum(sizes[..0]) == 0
  {}

  lemma {:induction false} SumStep(sizes: seq<nat>, i: nat)
    requires i < |sizes|
    ensures Sum(sizes[..i + 1]) == Sum(sizes[..i]) + sizes[i] <= Sum(sizes)
  {
    assert sizes[..i + 1][..i] == sizes[..i];
    SumPrefix(sizes, i + 1);
  }
}
