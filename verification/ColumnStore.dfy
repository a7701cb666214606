/** Column-major storage of a result: fixed-size slots in host byte order, string pools with
    prefix offsets, and the NULL bitmap. */
module ColumnStore {
  import opened Bytes
  import opened Endian
  import opened WireFormat

  // ---------------------------------------------------------------- host floating point

  /** The host's floating-point conversions on bit patterns; nothing but their widths is assumed. */
  datatype FloatOps = FloatOps(
    toUInt64: nat -> nat, ofInt: int -> nat, narrow: nat -> nat, widen: nat -> nat, nonzero: nat -> bool)
  {
    ghost predicate Valid() {
      (forall d :: toUInt64(d) < Pow256(8)) && (forall i :: ofInt(i) < Pow256(8)) && forall d :: narrow(d) < Pow256(4)
    }
  }

  // ---------------------------------------------------------------- what a cell is stored as

  /** A cell as the API hands it out. */
  datatype Value = VNull | VInt(i: int) | VUInt(u: nat) | VFloat(bits: nat) | VBool(b: bool) | VStr(s: Buffer)

  function Clamp(v: int, lo: int, hi: int): (r: int)
    requires lo <= hi
    ensures lo <= r <= hi && (lo <= v <= hi ==> r == v)
  {
    if v < lo then lo else if v > hi then hi else v
  }

  function ClampSigned(v: int, w: nat): (r: int)
    requires w > 0
    ensures InSigned(r, w) && (InSigned(v, w) ==> r == v)
  {
    var half: int := 128 * Pow256(w - 1);
    assert Pow256(w) == 2 * half;
    if v < -half then -half else if v >= half then half - 1 else v
  }

  function ClampUnsigned(v: int, w: nat): (r: nat)
    ensures r < Pow256(w) && (0 <= v < Pow256(w) ==> r == v)
  {
    Clamp(v, 0, Pow256(w) - 1)
  }

  predicate IsNumber(v: WireValue) { v.Bool? || v.Integer? || v.Float? }

  predicate IsFixed(s: Store) {
    s.width in {1, 2, 4, 8} && !s.rep.RepString? && (s.rep.RepBool? ==> s.width == 1)
  }

  /** The signed view of a wire value: 64-bit, saturated for large unsigned ones. */
  function SignedOf(v: WireValue): int
    requires IsNumber(v)
  {
    match v
    case Bool(b) => if b then 1 else 0
    case Integer(_, n) => if n > 0x7fff_ffff_ffff_ffff then 0x7fff_ffff_ffff_ffff else n
    case Float(_) => 0
  }

  function UnsignedOf(fl: FloatOps, v: WireValue): nat
    requires IsNumber(v)
  {
    match v
    case Bool(b) => if b then 1 else 0
    case Integer(_, n) => if n < 0 then 0 else n
    case Float(bits) => fl.toUInt64(bits)
  }

  function DoubleOf(fl: FloatOps, v: WireValue): nat
    requires IsNumber(v)
  {
    match v
    case Bool(b) => fl.ofInt(if b then 1 else 0)
    case Integer(_, n) => fl.ofInt(n)
    case Float(bits) => bits
  }

  function TruthOf(fl: FloatOps, v: WireValue): bool
    requires IsNumber(v)
  {
    match v
    case Bool(b) => b
    case Integer(_, n) => n != 0
    case Float(bits) => fl.nonzero(bits)
  }

  /** What the API must hand out for wire value v in a column of shape s: NULLs and strings
      as they are, integers clamped to the column's width, floats narrowed to it. */
  function Expected(fl: FloatOps, s: Store, v: WireValue): Value
    requires v.Null? || (v.Str? <==> s.rep.RepString?)
    requires s.width in {0, 1, 2, 4, 8} && (s.width == 0 <==> s.rep.RepString?)
  {
    if v.Null? then VNull
    else
      match s.rep
      case RepString => VStr(v.bytes)
      case RepInt => VInt(ClampSigned(SignedOf(v), s.width))
      case RepUInt =>
        var n := ClampUnsigned(UnsignedOf(fl, v), s.width);
        if s.width <= 4 then VInt(n) else VUInt(n)
      case RepFloat => VFloat(if s.width == 4 then fl.widen(fl.narrow(DoubleOf(fl, v))) else DoubleOf(fl, v))
      case RepBool => VBool(TruthOf(fl, v))
  }

  /** An integer in a column of each type: clamped to the type's range; in a bool column its
      truth, in a floating-point column the host's conversion. */
  lemma {:induction false} ExpectedInteger(fl: FloatOps, t: byte, tag: byte, n: int)
    requires t <= 13 && t !in {8, 9} && -0x8000_0000_0000_0000 <= n < 0x1_0000_0000_0000_0000
    ensures Expected(fl, StoreOf(t), Integer(tag, n)) ==
            if t == 1 then VBool(n != 0)
            else if t == 2 then VInt(Within(n, -0x80, 0x7f))
            else if t == 3 then VInt(Within(n, -0x8000, 0x7fff))
            else if t == 4 then VInt(Within(n, -0x8000_0000, 0x7fff_ffff))
            else if t in {0, 5} then VInt(Within(n, -0x8000_0000_0000_0000, 0x7fff_ffff_ffff_ffff))
            else if t == 10 then VInt(Within(n, 0, 0xff))
            else if t == 11 then VInt(Within(n, 0, 0xffff))
            else if t == 12 then VInt(Within(n, 0, 0xffff_ffff))
            else if t == 13 then VUInt(Within(n, 0, 0xffff_ffff_ffff_ffff))
            else if t == 6 then VFloat(fl.widen(fl.narrow(fl.ofInt(n))))
            else VFloat(fl.ofInt(n))
  {
    Powers();
    assert Pow256(1) == 256 * Pow256(0) && Pow256(2) == 256 * Pow256(1);
    assert Pow256(4) == 256 * Pow256(3) && Pow256(8) == 256 * Pow256(7);
    hide Pow256;
  }

  /** Booleans count as 0 and 1; a floating-point value keeps its bits or is narrowed, is true
      unless it is zero, and is 0 in a signed column. */
  lemma {:induction false} ExpectedOther(fl: FloatOps, t: byte, tag: byte, b: bool, bits: nat)
    requires t <= 13 && t !in {8, 9}
    ensures Expected(fl, StoreOf(t), Bool(b)) == Expected(fl, StoreOf(t), Integer(tag, if b then 1 else 0))
    ensures Expected(fl, StoreOf(t), Float(bits)) ==
            if t == 7 then VFloat(bits)
            else if t == 6 then VFloat(fl.widen(fl.narrow(bits)))
            else if t == 1 then VBool(fl.nonzero(bits))
            else if t == 13 then VUInt(Within(fl.toUInt64(bits), 0, 0xffff_ffff_ffff_ffff))
            else if t == 12 then VInt(Within(fl.toUInt64(bits), 0, 0xffff_ffff))
            else if t == 11 then VInt(Within(fl.toUInt64(bits), 0, 0xffff))
            else if t == 10 then VInt(Within(fl.toUInt64(bits), 0, 0xff))
            else VInt(0)
  {
    Powers();
    hide Pow256;
  }

  /** The nearest number of a range. */
  function Within(n: int, lo: int, hi: int): int { if n > hi then hi else if n < lo then lo else n }

  /** The bytes of a fixed-size cell. */
  function CellBytes(fl: FloatOps, s: Store, v: WireValue): (b: Buffer)
    requires IsFixed(s)
    ensures |b| == s.width
  {
    if !IsNumber(v) then ToLE(0, s.width)
    else if s.rep.RepInt? then ToLE(ToUnsigned(ClampSigned(SignedOf(v), s.width), s.width), s.width)
    else if s.rep.RepUInt? then ToLE(ClampUnsigned(UnsignedOf(fl, v), s.width), s.width)
    else if s.rep.RepFloat? then ToLE(if s.width == 4 then fl.narrow(DoubleOf(fl, v)) else DoubleOf(fl, v), s.width)
    else [if TruthOf(fl, v) then 1 else 0]
  }

  /** The value read from the bytes of a fixed-size cell. */
  function CellValue(fl: FloatOps, s: Store, b: Buffer): Value
    requires IsFixed(s) && |b| == s.width
  {
    if s.rep.RepInt? then VInt(ToSigned(FromLE(b), s.width))
    else if s.rep.RepUInt? then if s.width <= 4 then VInt(FromLE(b)) else VUInt(FromLE(b))
    else if s.rep.RepFloat? then VFloat(if s.width == 4 then fl.widen(FromLE(b)) else FromLE(b))
    else VBool(b[0] != 0)
  }

  lemma {:induction false} CellReadsBack(fl: FloatOps, s: Store, v: WireValue)
    requires IsFixed(s) && IsNumber(v) && (s.rep.RepFloat? ==> s.width == 4 || s.width == 8)
    requires fl.Valid() && ValidValue(v)
    ensures CellValue(fl, s, CellBytes(fl, s, v)) == Expected(fl, s, v)
  {
    hide ToLE, FromLE, Pow256, SignedOf, UnsignedOf, TruthOf, ClampSigned, ClampUnsigned, InSigned, ToUnsigned,
      ToSigned;
    if s.rep.RepInt? {
      LittleEndianReadsBack(ToUnsigned(ClampSigned(SignedOf(v), s.width), s.width), s.width);
    } else if s.rep.RepUInt? {
      LittleEndianReadsBack(ClampUnsigned(UnsignedOf(fl, v), s.width), s.width);
    } else if s.rep.RepFloat? {
      assert DoubleOf(fl, v) < Pow256(8);
      LittleEndianReadsBack(if s.width == 4 then fl.narrow(DoubleOf(fl, v)) else DoubleOf(fl, v), s.width);
    }
  }

  // ---------------------------------------------------------------- the NULL bitmap

  function NullBytes(n: nat): nat { (n + 7) / 8 }

  function NullBit(bits: seq<bv8>, r: nat): bool
    requires r < 8 * |bits|
  {
    BitOf(bits[r / 8], r % 8)
  }

  function BitOf(b: bv8, k: nat): bool
    requires k < 8
  {
    (b >> k) & 1 != 0
  }

  function BitSet(b: bv8, k: nat): bv8
    requires k < 8
  {
    b | ((1 as bv8) << k)
  }

  lemma {:induction false} BitSetReads(b: bv8, k: nat, j: nat)
    requires k < 8 && j < 8
    ensures BitOf(BitSet(b, k), j) <==> j == k || BitOf(b, j)
  {
    var kk, jj := k as bv8, j as bv8;
    assert ((b | ((1 as bv8) << kk)) >> jj) & 1 != 0 <==> jj == kk || (b >> jj) & 1 != 0;
  }

  // ---------------------------------------------------------------- slots

  /** The bytes of row r in a fixed-size column. */
  function Slot(data: Buffer, w: nat, r: nat): (s: Buffer)
    requires SlotAt(w, r) + w <= |data|
    ensures |s| == w
  {
    data[SlotAt(w, r)..SlotAt(w, r) + w]
  }

  function PutSlot(data: Buffer, w: nat, r: nat, s: Buffer): (d: Buffer)
    requires SlotAt(w, r) + w <= |data| && |s| == w
    ensures |d| == |data|
  {
    data[..SlotAt(w, r)] + s + data[SlotAt(w, r) + w..]
  }

  lemma {:induction false} PutSlotReads(data: Buffer, w: nat, r: nat, s: Buffer, q: nat)
    requires SlotAt(w, r) + w <= |data| && SlotAt(w, q) + w <= |data| && |s| == w
    ensures Slot(PutSlot(data, w, r, s), w, q) == if q == r then s else Slot(data, w, q)
  {
    if q != r { SlotsApart(w, r, q); }
    hide SlotAt;
    var d := PutSlot(data, w, r, s);
    var a, b := SlotAt(w, r), SlotAt(w, q);
    if q == r { assert d[a..a + w] == s; } else { assert d[b..b + w] == data[b..b + w]; }
  }

  // ---------------------------------------------------------------- string pools

  function Payload(v: WireValue): Buffer { if v.Str? then v.bytes else [] }

  function Pool(vals: Row): Buffer {
    if vals == [] then [] else Pool(vals[..|vals| - 1]) + Payload(vals[|vals| - 1])
  }

  lemma {:induction false} PoolGrows(vals: Row, v: WireValue)
    ensures Pool(vals + [v]) == Pool(vals) + Payload(v)
  {
    assert (vals + [v])[..|vals|] == vals;
  }

  lemma {:induction false} PoolPrefix(vals: Row, r: nat)
    requires r <= |vals|
    ensures Pool(vals[..r]) <= Pool(vals)
    decreases |vals| - r
  {
    if r == |vals| {
      assert vals[..r] == vals;
    } else {
      assert vals[..r + 1] == vals[..r] + [vals[r]];
      PoolGrows(vals[..r], vals[r]);
      PoolPrefix(vals, r + 1);
    }
  }

  // ---------------------------------------------------------------- columns

  datatype Column = Column(store: Store, nullBits: seq<bv8>, data: Buffer, offsets: seq<nat>)

  /** Exactly the NULL rows have their bit set. */
  ghost predicate NullsHold(bits: seq<bv8>, n: nat, vals: Row) {
    |bits| == NullBytes(n) && |vals| <= n &&
    forall r {:trigger NullBit(bits, r)} :: 0 <= r < n ==> (NullBit(bits, r) <==> r < |vals| && vals[r].Null?)
  }

  /** The pool is the strings one after the other, the offsets its cut points. */
  ghost predicate StringsHold(data: Buffer, offsets: seq<nat>, n: nat, vals: Row) {
    |offsets| == n + 1 && |vals| <= n && data == Pool(vals) &&
    forall r {:trigger offsets[r]} :: 0 <= r <= |vals| ==> offsets[r] == |Pool(vals[..r])|
  }

  ghost predicate FixedHolds(fl: FloatOps, s: Store, data: Buffer, n: nat, vals: Row)
    requires IsFixed(s)
  {
    |data| == SlotAt(s.width, n) && |vals| <= n && FixedRows(fl, s, data, vals)
  }

  ghost predicate FixedRows(fl: FloatOps, s: Store, data: Buffer, vals: Row)
    requires IsFixed(s)
  {
    forall r {:trigger vals[r]} :: 0 <= r < |vals| ==>
      !vals[r].Str? && SlotAt(s.width, r) + s.width <= |data| &&
      Slot(data, s.width, r) == CellBytes(fl, s, vals[r])
  }

  predicate AllAccepted(t: byte, vals: Row) {
    forall r {:trigger vals[r]} :: 0 <= r < |vals| ==> ValidValue(vals[r]) && Accepts(t, vals[r])
  }

  /** The column holds the first |vals| rows of a batch of n. */
  ghost predicate ColumnHolds(fl: FloatOps, c: Column, t: byte, n: nat, vals: Row) {
    c.store == StoreOf(t) && AllAccepted(t, vals) && NullsHold(c.nullBits, n, vals) &&
    if c.store.rep.RepString? then StringsHold(c.data, c.offsets, n, vals)
    else c.offsets == [] && FixedHolds(fl, c.store, c.data, n, vals)
  }

  lemma {:induction false} NullsKept(bits: seq<bv8>, n: nat, vals: Row, v: WireValue)
    requires NullsHold(bits, n, vals) && |vals| < n && !v.Null?
    ensures NullsHold(bits, n, vals + [v])
  {}

  lemma {:induction false} NullsSet(bits: seq<bv8>, n: nat, vals: Row, bits': seq<bv8>)
    requires NullsHold(bits, n, vals) && |vals| < n
    requires bits' == bits[|vals| / 8 := BitSet(bits[|vals| / 8], |vals| % 8)]
    ensures NullsHold(bits', n, vals + [Null])
  {
    hide BitOf, BitSet;
    var k := |vals|;
    forall r | 0 <= r < n ensures NullBit(bits', r) <==> r == k || NullBit(bits, r) {
      BitSetReads(bits[k / 8], k % 8, r % 8);
    }
  }

  lemma {:induction false} StringsGrow(data: Buffer, offsets: seq<nat>, n: nat, vals: Row, v: WireValue)
    requires StringsHold(data, offsets, n, vals) && |vals| < n
    ensures StringsHold(data + Payload(v), offsets[|vals| + 1 := |data + Payload(v)|], n, vals + [v])
  {
    hide Pool;
    PoolGrows(vals, v);
    var all := vals + [v];
    assert all[..|all|] == all;
    forall r | 0 <= r <= |vals| ensures offsets[r] == |Pool(all[..r])| { assert all[..r] == vals[..r]; }
  }

  lemma {:induction false} FixedGrows(fl: FloatOps, s: Store, data: Buffer, n: nat, vals: Row, v: WireValue)
    requires IsFixed(s) && !v.Str?
    requires FixedHolds(fl, s, data, n, vals) && |vals| < n
    ensures SlotAt(s.width, |vals|) + s.width <= |data|
    ensures FixedHolds(fl, s, PutSlot(data, s.width, |vals|, CellBytes(fl, s, v)), n, vals + [v])
  {
    hide CellBytes, SlotAt, PutSlot, Slot;
    SlotInside(s.width, |vals|, n);
    var d, all := PutSlot(data, s.width, |vals|, CellBytes(fl, s, v)), vals + [v];
    forall r | 0 <= r < |all|
      ensures !all[r].Str? && SlotAt(s.width, r) + s.width <= |d|
      ensures Slot(d, s.width, r) == CellBytes(fl, s, all[r])
    {
      if r < |vals| { assert !vals[r].Str?; }
      PutSlotReads(data, s.width, |vals|, CellBytes(fl, s, v), r);
    }
  }

  // ---------------------------------------------------------------- raw row images

  /** A zero-padded slot without its padding. */
  function Trim(s: Buffer): (t: Buffer)
    ensures t <= s && (forall i :: |t| <= i < |s| ==> s[i] == 0) && (t != [] ==> t[|t| - 1] != 0)
  {
    if s != [] && s[|s| - 1] == 0 then Trim(s[..|s| - 1]) else s
  }

  /** n bytes at offset off of row r are inside the block. */
  predicate SlotIn(block: Buffer, stride: nat, r: nat, off: int, n: int) {
    n >= 0 && 0 <= SlotAt(stride, r) + off <= SlotAt(stride, r) + off + n <= |block|
  }

  predicate SlotsIn(block: Buffer, stride: nat, off: int, n: int, rows: nat) {
    n >= 0 && forall r :: 0 <= r < rows ==> SlotIn(block, stride, r, off, n)
  }

  /** n bytes at offset off of row r. */
  function RawSlot(block: Buffer, stride: nat, r: nat, off: int, n: nat): (s: Buffer)
    requires SlotIn(block, stride, r, off, n)
    ensures |s| == n
  {
    block[SlotAt(stride, r) + off..SlotAt(stride, r) + off + n]
  }

  /** A column of strings, one per row image. */
  function RawStrings(block: Buffer, stride: nat, off: int, n: nat, rows: nat): (vals: Row)
    requires SlotsIn(block, stride, off, n, rows)
    ensures |vals| == rows
  {
    if rows == 0 then []
    else
      RawStrings(block, stride, off, n, rows - 1) + [Str(Trim(RawSlot(block, stride, rows - 1, off, n)))]
  }

  lemma {:induction false} RawStringAt(block: Buffer, stride: nat, off: int, n: nat, rows: nat, r: nat)
    requires SlotsIn(block, stride, off, n, rows) && r < rows
    ensures RawStrings(block, stride, off, n, rows)[r] == Str(Trim(RawSlot(block, stride, r, off, n)))
  {
    hide SlotAt, Trim, RawSlot;
    if r < rows - 1 { RawStringAt(block, stride, off, n, rows - 1, r); }
  }

  /** rawSlotValue: a cell decoded straight from the row image, type by type. */
  function RawSlotValue(fl: FloatOps, t: byte, s: Buffer): Value
    requires |s| == StoreOf(t).width || StoreOf(t).rep.RepString?
  {
    match t
    case 0 => VInt(ToSigned(FromLE(s), 8))
    case 5 => VInt(ToSigned(FromLE(s), 8))
    case 7 => VFloat(FromLE(s))
    case 4 => VInt(ToSigned(FromLE(s), 4))
    case 6 => VFloat(fl.widen(FromLE(s)))
    case 3 => VInt(ToSigned(FromLE(s), 2))
    case 2 => VInt(ToSigned(FromLE(s), 1))
    case 1 => VBool(FromLE(s) != 0)
    case 10 => VInt(FromLE(s))
    case 11 => VInt(FromLE(s))
    case 12 => VInt(FromLE(s))
    case 13 => VUInt(FromLE(s))
    case 8 => VStr(Trim(s))
    case 9 => VStr(Trim(s))
    case _ => VNull
  }

  /** The bytes RawSlotValue looks at. */
  function SlotWidth(t: byte, slotBytes: int): int { if StoreOf(t).rep.RepString? then slotBytes else StoreOf(t).width }

  /** The row view and the columnar view of a fixed-size slot are the same value exactly for
      the known column types; an unknown type reads as NULL by row and as a number by column. */
  lemma {:induction false} RowViewIsColumnView(fl: FloatOps, t: byte, s: Buffer)
    requires !StoreOf(t).rep.RepString? && |s| == StoreOf(t).width
    ensures RawSlotValue(fl, t, s) == CellValue(fl, StoreOf(t), s) <==> t <= 13
  {
    hide ToSigned, Trim;
    if t == 1 { assert s[1..] == [] && FromLE(s) == s[0] + 256 * FromLE(s[1..]); }
  }

  lemma {:induction false} StringAt(data: Buffer, offsets: seq<nat>, n: nat, vals: Row, r: nat)
    requires StringsHold(data, offsets, n, vals) && r < |vals|
    ensures r + 1 < |offsets| && offsets[r] <= offsets[r + 1] <= |data|
    ensures data[offsets[r]..offsets[r + 1]] == Payload(vals[r])
  {
    hide Pool, Payload;
    PoolPrefix(vals, r + 1);
    assert vals[..r + 1] == vals[..r] + [vals[r]];
    PoolGrows(vals[..r], vals[r]);
    assert offsets[r] == |Pool(vals[..r])| && offsets[r + 1] == |Pool(vals[..r + 1])|;
    CutOut(data, Pool(vals[..r]), Payload(vals[r]));
  }

  lemma {:induction false} CutOut(data: Buffer, a: Buffer, b: Buffer)
    requires a + b <= data
    ensures data[|a|..|a| + |b|] == b
  {}
}
