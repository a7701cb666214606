/** EtDBResult: a response message decoded into column storage, and the accessors. */
module ClientResult {
  import opened Bytes
  import opened Endian
  import opened WireFormat
  import opened ColumnStore
  import opened WireMessage
  import opened WireParser

  // ---------------------------------------------------------------- writing one cell

  lemma {:induction false} ZerosLE(w: nat)
    ensures ToLE(0, w) == seq(w, _ => 0 as byte)
  {
    if w > 0 { ZerosLE(w - 1); }
  }

  method StoreNull(fl: FloatOps, c: Column, row: nat, ghost t: byte, ghost n: nat, ghost vals: Row) returns (c': Column)
    requires ColumnHolds(fl, c, t, n, vals) && |vals| == row < n
    ensures ColumnHolds(fl, c', t, n, vals + [Null]) && c'.store == c.store
    ensures c.store.rep.RepString? ==> c'.data == c.data
  {
    hide NullsHold, StringsHold, FixedHolds, Slot, SlotAt, PutSlot, Pool, BitSet, ToLE;
    NullBitsLong(c.nullBits, n, vals);
    var bits := c.nullBits[row / 8 := BitSet(c.nullBits[row / 8], row % 8)];
    NullsSet(c.nullBits, n, vals, bits);
    if c.store.rep.RepString? {
      StringEnd(c.data, c.offsets, n, vals);
      StringsGrow(c.data, c.offsets, n, vals, Null);
      assert c.data + Payload(Null) == c.data;
      c' := c.(nullBits := bits, offsets := c.offsets[row + 1 := c.offsets[row]]);
    } else {
      FixedGrows(fl, c.store, c.data, n, vals, Null);
      ZerosLE(c.store.width);
      c' := c.(nullBits := bits, data := PutSlot(c.data, c.store.width, row, seq(c.store.width, _ => 0 as byte)));
    }
  }

  lemma {:induction false} NullBitsLong(bits: seq<bv8>, n: nat, vals: Row)
    requires NullsHold(bits, n, vals) && |vals| < n
    ensures |vals| / 8 < |bits|
  {}

  lemma {:induction false} StringEnd(data: Buffer, offsets: seq<nat>, n: nat, vals: Row)
    requires StringsHold(data, offsets, n, vals)
    ensures |vals| < |offsets| == n + 1 && offsets[|vals|] == |data|
  {
    assert vals[..|vals|] == vals;
  }

  method StoreString(fl: FloatOps, c: Column, row: nat, bytes: Buffer, ghost t: byte, ghost n: nat, ghost vals: Row)
      returns (ok: bool, c': Column)
    requires ColumnHolds(fl, c, t, n, vals) && |vals| == row < n && c.store.rep.RepString? && ValidValue(Str(bytes))
    ensures ok <==> |c.data| + |bytes| <= 0xFFFF_FFFF
    ensures ok ==> ColumnHolds(fl, c', t, n, vals + [Str(bytes)]) && c'.store == c.store
    ensures ok ==> |c'.data| == |c.data| + |bytes|
  {
    hide NullsHold, StringsHold, Pool;
    if |c.data| + |bytes| > 0xFFFF_FFFF { return false, c; }
    NullsKept(c.nullBits, n, vals, Str(bytes));
    StringEnd(c.data, c.offsets, n, vals);
    StringsGrow(c.data, c.offsets, n, vals, Str(bytes));
    var pool := c.data + bytes;
    return true, c.(data := pool, offsets := c.offsets[row + 1 := |pool|]);
  }

  method StoreFixed(fl: FloatOps, c: Column, row: nat, wv: WireVal, ghost v: WireValue, ghost t: byte, ghost n: nat,
      ghost vals: Row)
      returns (c': Column)
    requires ColumnHolds(fl, c, t, n, vals) && |vals| == row < n && !c.store.rep.RepString?
    requires IsNumber(v) && Shows(wv, v) && ValidValue(v) && fl.Valid()
    ensures ColumnHolds(fl, c', t, n, vals + [v]) && c'.store == c.store
  {
    hide NullsHold, FixedHolds, CellBytes, SlotAt, Shows;
    NullsKept(c.nullBits, n, vals, v);
    FixedGrows(fl, c.store, c.data, n, vals, v);
    var cell := FixedCell(fl, c.store, wv, v);
    c' := c.(data := PutSlot(c.data, c.store.width, row, cell));
  }

  lemma {:induction false} NumberRange(fl: FloatOps, v: WireValue)
    requires IsNumber(v) && ValidValue(v) && fl.Valid()
    ensures -0x8000_0000_0000_0000 <= SignedOf(v) <= 0x7fff_ffff_ffff_ffff
    ensures UnsignedOf(fl, v) < 0x1_0000_0000_0000_0000
    ensures v.Integer? && v.v >= 0 ==> v.v == UnsignedOf(fl, v)
  {
    hide Pow256;
    Powers();
  }

  /** The switch over column shapes. */
  method FixedCell(fl: FloatOps, s: Store, wv: WireVal, ghost v: WireValue) returns (cell: Buffer)
    requires IsFixed(s) && IsNumber(v) && Shows(wv, v) && ValidValue(v) && fl.Valid()
    ensures cell == CellBytes(fl, s, v)
  {
    hide ToLE, ClampSigned, ClampUnsigned, ToUnsigned, InSigned, Pow256;
    match s.rep
    case RepInt =>
      NumberRange(fl, v);
      cell := PutSigned(s.width, wv.i);
    case RepUInt =>
      NumberRange(fl, v);
      var u: int := if wv.isF then fl.toUInt64(wv.d) else if wv.isU then wv.u else if wv.i <= 0 then 0 else wv.i;
      cell := PutUnsigned(s.width, u);
    case RepFloat =>
      var d := if wv.isF then wv.d else if wv.isU then fl.ofInt(wv.u) else fl.ofInt(wv.i);
      cell := ToLE(if s.width == 4 then fl.narrow(d) else d, s.width);
    case RepBool =>
      var b := if wv.isF then fl.nonzero(wv.d) else if wv.isU then wv.u != 0 else wv.i != 0;
      cell := [if b then 1 else 0];
    case RepString => cell := [];
  }

  /** putSigned: saturates at the limits of 8, 16 and 32 bits. */
  method PutSigned(w: nat, v: int) returns (cell: Buffer)
    requires w in {1, 2, 4, 8} && v <= 0x7fff_ffff_ffff_ffff && -0x8000_0000_0000_0000 <= v
    ensures cell == ToLE(ToUnsigned(ClampSigned(v, w), w), w)
  {
    hide ToLE;
    Powers();
    var x := v;
    match w {
      case 1 => x := if v < -128 then -128 else if v > 127 then 127 else v;
      case 2 => x := if v < -32768 then -32768 else if v > 32767 then 32767 else v;
      case 4 => x := if v < -0x8000_0000 then -0x8000_0000 else if v > 0x7fff_ffff then 0x7fff_ffff else v;
      case _ =>
    }
    cell := ToLE(ToUnsigned(x, w), w);
  }

  method PutUnsigned(w: nat, v: nat) returns (cell: Buffer)
    requires w in {1, 2, 4, 8} && v < 0x1_0000_0000_0000_0000
    ensures cell == ToLE(ClampUnsigned(v, w), w)
  {
    hide ToLE;
    Powers();
    var x := v;
    match w {
      case 1 => x := if v > 0xFF then 0xFF else v;
      case 2 => x := if v > 0xFFFF then 0xFFFF else v;
      case 4 => x := if v > 0xFFFF_FFFF then 0xFFFF_FFFF else v;
      case _ =>
    }
    cell := ToLE(x, w);
  }

  /** storeValue for a parsed value. */
  method StoreCell(fl: FloatOps, c: Column, row: nat, wv: WireVal, ghost v: WireValue, ghost t: byte, ghost n: nat,
      ghost vals: Row)
      returns (ok: bool, c': Column)
    requires ColumnHolds(fl, c, t, n, vals) && |vals| == row < n
    requires Shows(wv, v) && ValidValue(v) && fl.Valid()
    requires c.store.rep.RepString? ==> |c.data| + |Payload(v)| <= 0xFFFF_FFFF
    ensures ok <==> Accepts(t, v)
    ensures ok ==> ColumnHolds(fl, c', t, n, vals + [v]) && c'.store == c.store
    ensures ok && c.store.rep.RepString? ==> |c'.data| == |c.data| + |Payload(v)|
  {
    ColumnStoreIs(fl, c, t, n, vals);
    hide ColumnHolds, StoreOf;
    if wv.tag == VAL_NULL {
      c' := StoreNull(fl, c, row, t, n, vals);
      return true, c';
    }
    if c.store.rep.RepString? {
      if wv.s == None { return false, c; }
      ok, c' := StoreString(fl, c, row, wv.s.value, t, n, vals);
    } else {
      if wv.s != None { return false, c; }
      c' := StoreFixed(fl, c, row, wv, v, t, n, vals);
      return true, c';
    }
  }

  lemma {:induction false} ColumnStoreIs(fl: FloatOps, c: Column, t: byte, n: nat, vals: Row)
    requires ColumnHolds(fl, c, t, n, vals)
    ensures c.store == StoreOf(t)
  {}

  /** A string is shorter than its encoding. */
  lemma {:induction false} PayloadFits(src: Buffer, p: nat)
    requires ReadValue(src, p).Some?
    ensures p + |Payload(ReadValue(src, p).value.v)| < ReadValue(src, p).value.next <= |src|
  {
    hide KindOf, KindValue, FromBE;
  }

  // ---------------------------------------------------------------- the result object

  class EtDBResult {
    const fl: FloatOps
    var columnNames: seq<Buffer>
    var columnTypes: seq<byte>
    var columns: seq<Column>    // _columnData, _columnOffsets and _colMeta of each column
    var rowCount: nat
    ghost var filled: seq<Row>  // per column, the wire values stored so far (tagged layout)

    var rawMode: bool
    var rawStride: nat
    var rawBlock: Buffer
    var rawRowOff: seq<int>
    var rawSlotBytes: seq<int>
    var rawMat: seq<bool>       // columnar view built?

    var streamQId: int
    var streamTotalRows: int
    var streamEnded: bool
    var rowCursor: nat

    constructor (fl: FloatOps)
      requires fl.Valid()
      ensures this.fl == fl && Valid() && !rawMode && rowCount == 0 && columns == []
    {
      this.fl := fl;
      columnNames, columnTypes, columns, rowCount, filled := [], [], [], 0, [];
      rawMode, rawStride, rawBlock, rawRowOff, rawSlotBytes, rawMat := false, 0, [], [], [], [];
      streamQId, streamTotalRows, streamEnded, rowCursor := 0, 0, true, 0;
    }

    /** Column c holds the values stored so far. */
    ghost predicate Holds(c: nat)
      requires c < |columns| && c < |columnTypes| && c < |filled|
      reads this
    {
      ColumnHolds(fl, columns[c], columnTypes[c], rowCount, filled[c])
    }

    ghost predicate TagValid()
      reads this
    {
      |columns| == |filled| <= |columnTypes| && fl.Valid() &&
      forall c {:trigger Holds(c)} :: 0 <= c < |columns| ==> Holds(c)
    }

    /** No string pool is longer than the bytes consumed so far. */
    ghost predicate PoolsBelow(limit: nat)
      reads this
    {
      forall c {:trigger columns[c]} :: 0 <= c < |columns| && columns[c].store.rep.RepString? ==>
        |columns[c].data| <= limit
    }

    /** Parses one wire value into (col, row): bytes consumed, negative when the stream is
        cut, the tag unknown or the value of the wrong kind for the column. */
    method StoreValue(col: nat, row: nat, src: Buffer, p: nat) returns (adv: int)
      requires TagValid() && col < |columns| && |filled[col]| == row < rowCount && p <= |src|
      requires PoolsBelow(p) && |src| <= 0xFFFF_FFFF
      modifies this`columns, this`filled
      ensures TagValid() && |columns| == old(|columns|)
      ensures adv < 0 <==> ReadValue(src, p).None? || !Accepts(columnTypes[col], ReadValue(src, p).value.v)
      ensures adv >= 0 ==> p + adv == ReadValue(src, p).value.next && PoolsBelow(p + adv) &&
                           filled == old(filled[col := filled[col] + [ReadValue(src, p).value.v]])
    {
      hide ColumnHolds, ReadValue, Shows, StoreOf, ValidValue, Accepts, Payload;
      var wv;
      adv, wv := ParseWireValue(src, p);
      if adv < 0 { return -1; }
      ghost var v, vals := ReadValue(src, p).value.v, filled[col];
      assert Holds(col);
      PayloadFits(src, p);
      ReadValueValid(src, p);
      var ok, c := StoreCell(fl, columns[col], row, wv, v, columnTypes[col], rowCount, vals);
      if !ok { return -1; }
      columns := columns[col := c];
      filled := filled[col := vals + [v]];
      forall k | 0 <= k < |columns| ensures Holds(k) { if k != col { assert old(Holds(k)); } }
    }

    /** setupColumns: room for n rows, nothing stored. */
    method SetupColumns(n: nat)
      requires fl.Valid()
      modifies this`columns, this`rowCount, this`filled
      ensures TagValid() && rowCount == n && PoolsBelow(0) && |columns| == |columnTypes|
      ensures filled == seq(|columnTypes|, _ => [])
    {
      hide ColumnHolds;
      rowCount, columns := n, [];
      for ci := 0 to |columnTypes|
        invariant |columns| == ci && rowCount == n
        invariant forall c {:trigger columns[c]} :: 0 <= c < ci ==>
          ColumnHolds(fl, columns[c], columnTypes[c], n, []) &&
            (columns[c].store.rep.RepString? ==> columns[c].data == [])
      {
        var c := EmptyColumn(fl, columnTypes[ci], n);
        columns := columns + [c];
      }
      filled := seq(|columnTypes|, _ => []);
      forall c | 0 <= c < |columns| ensures Holds(c) {
        assert ColumnHolds(fl, columns[c], columnTypes[c], n, []);
      }
    }

    /** The cells received so far, one row after the other: column c of row r. */
    ghost predicate Transposed(rows: seq<Row>)
      reads this
    {
      forall c {:trigger filled[c]} :: 0 <= c < |filled| ==> ColumnOf(filled[c], rows, c)
    }

    /** One row of the wire stream, cell by cell into the columns. */
    method ReadTagRow(row: nat, src: Buffer, p: nat) returns (ok: bool, next: nat)
      requires TagValid() && row < rowCount && p <= |src| <= 0xFFFF_FFFF && PoolsBelow(p)
      requires |columns| == |columnTypes| && forall c {:trigger filled[c]} :: 0 <= c < |filled| ==> |filled[c]| == row
      modifies this`columns, this`filled
      ensures TagValid() && |filled| == old(|filled|)
      ensures ok <==> ReadRow(src, p, columnTypes, []).Some?
      ensures ok ==> next == ReadRow(src, p, columnTypes, []).value.next && p <= next <= |src| && PoolsBelow(next)
      ensures ok ==> forall c {:trigger filled[c]} :: 0 <= c < |filled| ==>
                       filled[c] == old(filled)[c] + [ReadRow(src, p, columnTypes, []).value.row[c]]
    {
      hide ReadValue, Accepts, Holds;
      ghost var got: Row := [];
      var d := p;
      for ci := 0 to |columns|
        invariant TagValid() && |got| == ci && |filled| == |columns| == old(|filled|) && p <= d <= |src| &&
          PoolsBelow(d)
        invariant ReadRow(src, d, columnTypes, got) == ReadRow(src, p, columnTypes, [])
        invariant forall c {:trigger filled[c]} :: 0 <= c < |filled| ==>
          filled[c] == old(filled)[c] + if c < ci then [got[c]] else []
      {
        assert filled[ci] == old(filled)[ci];
        var adv := StoreValue(ci, row, src, d);
        if adv < 0 { return false, d; }
        got := got + [ReadValue(src, d).value.v];
        d := d + adv;
      }
      return true, d;
    }

    /** The whole tagged row area. */
    method ReadTagRows(n: nat, src: Buffer, p: nat) returns (ok: bool)
      requires fl.Valid() && p <= |src| <= 0xFFFF_FFFF
      modifies this`columns, this`rowCount, this`filled
      ensures TagValid() && rowCount == n && |columns| == |columnTypes|
      ensures ok <==> ReadRows(src, p, columnTypes, n, []).Some?
      ensures ok ==> Transposed(ReadRows(src, p, columnTypes, n, []).value.rows)
    {
      hide ReadRow, Holds;
      SetupColumns(n);
      ghost var rows: seq<Row> := [];
      var d := p;
      for ri := 0 to n
        invariant TagValid() && |columns| == |columnTypes| && rowCount == n && |rows| == ri && p <= d <= |src| &&
          PoolsBelow(d)
        invariant ReadRows(src, d, columnTypes, n, rows) == ReadRows(src, p, columnTypes, n, [])
        invariant Transposed(rows)
      {
        ghost var row := ReadRow(src, d, columnTypes, []);
        ghost var before := filled;
        var next;
        ok, next := ReadTagRow(ri, src, d);
        if !ok { return false; }
        RowAdded(before, filled, rows, row.value.row);
        rows := rows + [row.value.row];
        d := next;
      }
      return true;
    }

    method ResetStorage()
      requires fl.Valid()
      modifies this`columnNames, this`columnTypes, this`columns, this`rowCount, this`filled
      modifies this`rawMode, this`rawStride, this`rawBlock, this`rawRowOff, this`rawSlotBytes, this`rawMat
      ensures TagValid() && !rawMode && rowCount == 0 && columnNames == [] && columnTypes == [] && columns == []
    {
      hide ColumnHolds;
      columnNames, columnTypes, columns, rowCount, filled := [], [], [], 0, [];
      rawMode, rawStride, rawBlock, rawRowOff, rawSlotBytes, rawMat := false, 0, [], [], [], [];
    }

    ghost predicate StreamIs(s: Stream)
      reads this
    {
      streamQId == s.qId && streamTotalRows == s.total && streamEnded == s.ended && rowCursor == 0
    }

    method ReadTagFields(src: Buffer, p: nat, n: nat) returns (ok: bool, next: nat)
      requires columnNames == [] && columnTypes == [] && p <= |src|
      modifies this`columnNames, this`columnTypes
      ensures ok <==> ReadFields(src, p, n, []).Some?
      ensures ok ==> var f := ReadFields(src, p, n, []).value;
                     next == f.next <= |src| && columnNames == Names(f.fields) && columnTypes == Types(f.fields)
    {
      hide UIntAt;
      ghost var fields: seq<Field> := [];
      var d: nat := p;
      for ci := 0 to n
        invariant |fields| == ci && d <= |src| && columnNames == Names(fields) && columnTypes == Types(fields)
        invariant ReadFields(src, d, n, fields) == ReadFields(src, p, n, [])
      {
        if |src| - d < 2 { return false, d; }
        var nameLen := UIntAt(src, d, 2);
        d := d + 2;
        if |src| - d < nameLen + 1 { return false, d; }
        columnNames := columnNames + [src[d..d + nameLen]];
        columnTypes := columnTypes + [src[d + nameLen]];
        fields := fields + [Field(src[d..d + nameLen], src[d + nameLen])];
        d := d + nameLen + 1;
      }
      return true, d;
    }

    // ---------------------------------------------------------------- raw blocks

    ghost predicate RawShape()
      reads this
    {
      fl.Valid() && |columns| == |columnTypes| == |rawRowOff| == |rawSlotBytes| == |rawMat| &&
      |rawBlock| == SlotAt(rawStride, rowCount) && forall c {:trigger columns[c]} :: 0 <= c < |columns| ==> RawMeta(c)
    }

    ghost predicate RawMeta(c: nat)
      requires c < |columns| && c < |columnTypes|
      reads this
    {
      columns[c].store == StoreOf(columnTypes[c]) && NullsHold(columns[c].nullBits, rowCount, [])
    }

    /** The slots of a column, or of one cell, lie inside the raw block; the code takes the
        server's word for it. */
    predicate Readable(c: nat)
      requires c < |columnTypes| && c < |rawRowOff| && c < |rawSlotBytes|
      reads this
    {
      SlotsIn(rawBlock, rawStride, rawRowOff[c], SlotWidth(columnTypes[c], rawSlotBytes[c]), rowCount)
    }

    predicate CellReadable(row: nat, c: nat)
      requires c < |columnTypes| && c < |rawRowOff| && c < |rawSlotBytes|
      reads this
    {
      SlotIn(rawBlock, rawStride, row, rawRowOff[c], SlotWidth(columnTypes[c], rawSlotBytes[c]))
    }

    lemma {:induction false} ReadableCell(row: nat, c: nat)
      requires c < |columnTypes| && c < |rawRowOff| && c < |rawSlotBytes| && row < rowCount && Readable(c)
      ensures CellReadable(row, c)
    {}

    lemma {:induction false} CellsReadable(c: nat)
      requires c < |columnTypes| && c < |rawRowOff| && c < |rawSlotBytes| && rowCount > 0
      requires forall r :: 0 <= r < rowCount ==> CellReadable(r, c)
      ensures Readable(c)
    {
      hide SlotIn, SlotWidth;
      assert CellReadable(0, c);
      NonNegative(rawBlock, rawStride, 0, rawRowOff[c], SlotWidth(columnTypes[c], rawSlotBytes[c]));
      forall r | 0 <= r < rowCount
        ensures SlotIn(rawBlock, rawStride, r, rawRowOff[c], SlotWidth(columnTypes[c], rawSlotBytes[c]))
      {
        assert CellReadable(r, c);
      }
    }

    /** The columnar view of column c agrees with the row images. */
    ghost predicate ViewHolds(c: nat)
      requires c < |columns| && c < |columnTypes| && c < |rawRowOff| && c < |rawSlotBytes|
      reads this
    {
      Readable(c) && columns[c].store == StoreOf(columnTypes[c]) &&
      if columns[c].store.rep.RepString?
      then StringsHold(columns[c].data, columns[c].offsets, rowCount,
                       RawStrings(rawBlock, rawStride, rawRowOff[c], rawSlotBytes[c], rowCount))
      else FixedView(columns[c].data, columns[c].store.width, rawBlock, rawStride, rawRowOff[c], rowCount)
    }

    ghost predicate RawValid()
      reads this
    {
      RawShape() && forall c {:trigger rawMat[c]} :: 0 <= c < |rawMat| && rawMat[c] ==> ViewHolds(c)
    }

    ghost predicate Valid()
      reads this
    {
      fl.Valid() && if rawMode then RawValid() else TagValid() && forall c {:trigger filled[c]} :: 0 <= c < |filled| ==>
        |filled[c]| == rowCount
    }

    /** The state shows exactly what the message says. */
    ghost predicate Received(m: Message)
      reads this
    {
      match m
      case Tagged(stream, fields, rows) =>
        !rawMode && columnNames == Names(fields) && columnTypes == Types(fields) && |columns| == |fields| &&
        rowCount == |rows| && Transposed(rows) && StreamIs(stream)
      case Raw(stream, fields, stride, numRows, block) =>
        rawMode && columnNames == RawNames(fields) && columnTypes == RawTypes(fields) && |columns| == |fields| &&
        rawSlotBytes == SlotSizes(fields) && rawRowOff == RowOffsets(fields) && rawStride == stride &&
        rowCount == numRows && rawBlock == block && StreamIs(stream)
    }

    /** A whole response message; `behind` stands for the memory after it. */
    method Deserialize(buf: Buffer, behind: nat -> byte) returns (ok: bool)
      requires Valid() && |buf| <= INT_MAX
      modifies this
      ensures Valid()
      ensures ok <==> ReadMessage(buf, behind).Some?
      ensures ok ==> Received(ReadMessage(buf, behind).value)
      ensures !ok ==> rowCount == 0 || (rowCount == old(rowCount) && columns == old(columns) && rawMode == old(rawMode))
    {
      hide ReadHead, ReadData, DataOf, RawValid, TagValid;
      var h := ReadHead(buf);
      if h.None? { return false; }
      ok := DeserializeData(DataOf(buf, h.value.dataLen, behind), h.value);
    }

    /** The data area: streaming prefix, layout byte, payload. */
    method DeserializeData(data: Buffer, h: Head) returns (ok: bool)
      requires Valid() && |data| <= INT_MAX
      modifies this
      ensures Valid()
      ensures ok <==> ReadData(data, h).Some?
      ensures ok ==> Received(ReadData(data, h).value)
      ensures !ok ==> rowCount == 0
    {
      hide ReadTagged, ReadRaw, ReadStream, StreamEnd, RawValid, Holds, Names, Types, RawNames, RawTypes;
      ResetStorage();
      var stream, p := ReadStream(data), StreamEnd(data);
      streamQId, streamTotalRows, streamEnded, rowCursor := stream.qId, stream.total, stream.ended, 0;
      if p >= |data| { return false; }
      if data[p] == LAYOUT_RAW_BLOCK {
        ok := DeserializeRaw(data, p + 1, h);
      } else if data[p] == LAYOUT_TAG_ROWS {
        ok := DeserializeTagged(data, p + 1, h);
      } else {
        return false;
      }
    }

    method DeserializeTagged(data: Buffer, p: nat, h: Head) returns (ok: bool)
      requires TagValid() && !rawMode && rowCount == 0 && columns == [] && columnNames == [] && columnTypes == []
      requires p <= |data| <= 0x7fff_ffff && StreamIs(ReadStream(data))
      modifies this
      ensures Valid() && StreamIs(ReadStream(data))
      ensures ok <==> ReadTagged(data, p, h).Some?
      ensures ok ==> Received(ReadTagged(data, p, h).value)
      ensures !ok ==> rowCount == 0
    {
      hide ReadFields, ReadRows, ReadStream, Holds;
      var next;
      ok, next := ReadTagFields(data, p, h.numCols);
      if !ok { return false; }
      ok := ReadTagRows(h.numRows, data, next);
      if !ok { ResetStorage(); }
    }

    method DeserializeRaw(data: Buffer, p: nat, h: Head) returns (ok: bool)
      requires TagValid() && !rawMode && rowCount == 0 && columns == [] && columnNames == [] && columnTypes == []
      requires p <= |data| <= 0x7fff_ffff && StreamIs(ReadStream(data))
      modifies this
      ensures Valid() && StreamIs(ReadStream(data))
      ensures ok <==> ReadRaw(data, p, h).Some?
      ensures ok ==> Received(ReadRaw(data, p, h).value)
      ensures !ok ==> rowCount == 0
    {
      hide ReadRawFields, ReadStream, IntAt, SlotAt, Holds;
      if |data| - p < 4 || h.numCols == 0 { return false; }
      var stride := IntAt(data, p, 4);
      if stride <= 0 { return false; }
      var next;
      ok, next := ParseRawFields(data, p + 4, h.numCols);
      if !ok { return false; }
      var need := SlotAt(stride, h.numRows);
      if |data| - next < need { ResetStorage(); return false; }
      SetupRaw(stride, data[next..next + need], h.numRows);
    }

    method ParseRawFields(src: Buffer, p: nat, n: nat) returns (ok: bool, next: nat)
      requires columnNames == [] && columnTypes == [] && p <= |src|
      modifies this`columnNames, this`columnTypes, this`rawRowOff, this`rawSlotBytes
      ensures ok <==> ReadRawFields(src, p, n, []).Some?
      ensures ok ==> var f := ReadRawFields(src, p, n, []).value;
                     next == f.next <= |src| && columnNames == RawNames(f.fields) &&
                       columnTypes == RawTypes(f.fields) &&
                     rawSlotBytes == SlotSizes(f.fields) && rawRowOff == RowOffsets(f.fields)
    {
      hide UIntAt, IntAt;
      rawSlotBytes, rawRowOff := [], [];
      ghost var fields: seq<RawField> := [];
      var d: nat := p;
      for ci := 0 to n
        invariant |fields| == ci && d <= |src| && columnNames == RawNames(fields) && columnTypes == RawTypes(fields)
        invariant rawSlotBytes == SlotSizes(fields) && rawRowOff == RowOffsets(fields)
        invariant ReadRawFields(src, d, n, fields) == ReadRawFields(src, p, n, [])
      {
        if |src| - d < 2 { return false, d; }
        var nameLen := UIntAt(src, d, 2);
        d := d + 2;
        if |src| - d < nameLen + 1 + 8 { return false, d; }
        fields := fields + [ReadRawField(src, d, nameLen)];
        columnNames := columnNames + [src[d..d + nameLen]];
        d := d + nameLen;
        columnTypes := columnTypes + [src[d]];
        rawSlotBytes := rawSlotBytes + [IntAt(src, d + 1, 4)];
        rawRowOff := rawRowOff + [IntAt(src, d + 5, 4)];
        d := d + 9;
      }
      return true, d;
    }

    /** The row images are kept as they are; no view is built yet. */
    method SetupRaw(stride: nat, block: Buffer, n: nat)
      requires fl.Valid() && |block| == SlotAt(stride, n) && |columnTypes| == |rawRowOff| == |rawSlotBytes|
      modifies this`columns, this`rowCount, this`rawMode, this`rawStride, this`rawBlock, this`rawMat
      ensures rawMode && RawValid() && rawStride == stride && rawBlock == block && rowCount == n
    {
      hide SlotAt, NullsHold;
      rawMode, rawStride, rawBlock, rowCount := true, stride, block, n;
      rawMat := seq(|columnTypes|, _ => false);
      columns := RawColumns(columnTypes, n);
      forall c | 0 <= c < |columns| ensures RawMeta(c) { assert columns[c].store == StoreOf(columnTypes[c]); }
    }

    /** Builds the columnar view of a raw column on first use. */
    method MaterializeRawCol(col: int) returns (ok: bool)
      requires rawMode && RawValid() && (0 <= col < |columns| ==> Readable(col))
      modifies this`columns, this`rawMat
      ensures RawValid() && |columns| == old(|columns|)
      ensures ok <==> 0 <= col < |columns|
      ensures forall c {:trigger columns[c]} :: 0 <= c < |columns| ==> columns[c].store == old(columns)[c].store
      ensures ok ==> rawMat[col] && ViewHolds(col)
      ensures ok && old(rawMat[col]) ==> columns == old(columns)
      ensures forall c {:trigger columns[c]} :: 0 <= c < |columns| && c != col ==>
        columns[c] == old(columns)[c] && rawMat[c] == old(rawMat)[c]
    {
      hide StringsHold, FixedView, SlotAt, RawStrings;
      if col < 0 || col >= |rawSlotBytes| { return false; }
      if rawMat[col] { return true; }
      assert RawMeta(col);
      var c := columns[col];
      if c.store.rep.RepString? {
        var pool, offs := PoolView(rawBlock, rawStride, rawRowOff[col], rawSlotBytes[col], rowCount);
        c := c.(data := pool, offsets := offs);
      } else {
        var data := CopyView(c.store.width, rawBlock, rawStride, rawRowOff[col], rowCount);
        c := c.(data := data, offsets := []);
      }
      columns := columns[col := c];
      rawMat := rawMat[col := true];
      forall k | 0 <= k < |rawMat| && rawMat[k] ensures ViewHolds(k) { if k != col { assert old(ViewHolds(k)); } }
      forall k | 0 <= k < |columns| ensures RawMeta(k) { if k != col { assert old(RawMeta(k)); } }
      return true;
    }

    // ---------------------------------------------------------------- accessors

    predicate InRange(row: int, col: int)
      reads this
    {
      0 <= row < rowCount && 0 <= col < |columns|
    }

    /** Column col of the batch is string-typed. */
    predicate IsStringCol(col: int)
      requires 0 <= col < |columns|
      reads this
    {
      columns[col].store.rep.RepString?
    }

    /** NULL test by bitmap; out of range reads as NULL. */
    method IsNull(row: int, col: int) returns (r: bool)
      requires Valid()
      ensures !InRange(row, col) ==> r
      ensures InRange(row, col) && rawMode ==> !r
      ensures InRange(row, col) && !rawMode ==> (r <==> filled[col][row].Null?)
    {
      hide StringsHold, FixedHolds, NullBit, ViewHolds;
      if row < 0 || row >= rowCount || col < 0 || col >= |columns| { return true; }
      assert rawMode ==> RawMeta(col);
      assert !rawMode ==> Holds(col) && |filled[col]| == rowCount;
      var bits := columns[col].nullBits;
      if row / 8 >= |bits| { return true; }
      r := NullBit(bits, row);
    }

    /** The row image bytes of one cell. */
    function RawCell(row: nat, col: nat): Buffer
      requires rawMode && RawValid() && InRange(row, col) && CellReadable(row, col)
      reads this
    {
      RawSlot(rawBlock, rawStride, row, rawRowOff[col], SlotWidth(columnTypes[col], rawSlotBytes[col]))
    }

    /** Zero-copy string view; empty for NULL, for other columns and out of range. */
    method StringValue(row: int, col: int) returns (s: Buffer)
      requires Valid() && (rawMode && InRange(row, col) && IsStringCol(col) ==> CellReadable(row, col))
      ensures !InRange(row, col) || !IsStringCol(col) ==> s == []
      ensures InRange(row, col) && IsStringCol(col) ==>
        s == if rawMode then Trim(RawCell(row, col)) else Payload(filled[col][row])
    {
      hide StringsHold, FixedHolds, NullsHold, Slot, RawSlot;
      if row < 0 || row >= rowCount || col < 0 || col >= |columns| { return []; }
      if !columns[col].store.rep.RepString? { return []; }
      var absent := IsNull(row, col);
      if absent { return []; }
      if rawMode {
        assert RawMeta(col);
        var cell := RawCell(row, col);
        var n := TrimmedLength(cell);
        return cell[..n];
      }
      assert Holds(col) && |filled[col]| == rowCount;
      var c := columns[col];
      StringAt(c.data, c.offsets, rowCount, filled[col], row);
      return c.data[c.offsets[row]..c.offsets[row + 1]];
    }

    /** Every cell of a tagged batch is what its wire value has to become; every cell of a raw
        batch is its slot decoded by type; anything else is NULL. */
    method Get(row: int, col: int) returns (v: Value)
      requires Valid() && (rawMode && InRange(row, col) ==> CellReadable(row, col))
      ensures !InRange(row, col) ==> v == VNull
      ensures InRange(row, col) && rawMode ==> v == RawSlotValue(fl, columnTypes[col], RawCell(row, col))
      ensures InRange(row, col) && !rawMode ==>
                Accepts(columnTypes[col], filled[col][row]) &&
                v == Expected(fl, StoreOf(columnTypes[col]), filled[col][row])
    {
      if row < 0 || row >= rowCount || col < 0 || col >= |columns| { return VNull; }
      if rawMode { return RawSlotValue(fl, columnTypes[col], RawCell(row, col)); }
      v := GetTagged(row, col);
    }

    method GetTagged(row: nat, col: nat) returns (v: Value)
      requires Valid() && !rawMode && InRange(row, col)
      ensures Accepts(columnTypes[col], filled[col][row]) &&
              v == Expected(fl, StoreOf(columnTypes[col]), filled[col][row])
    {
      hide StringsHold, FixedHolds, NullsHold, Slot, SlotAt, CellValue, StoreOf;
      var absent := IsNull(row, col);
      ghost var wire := filled[col][row];
      assert Holds(col) && |filled[col]| == rowCount;
      assert ValidValue(wire) && Accepts(columnTypes[col], wire);
      if absent { return VNull; }
      var c := columns[col];
      if c.store.rep.RepString? {
        var s := StringValue(row, col);
        assert wire.Str? && Payload(wire) == wire.bytes;
        return VStr(s);
      }
      FixedAt(fl, c.store, c.data, rowCount, filled[col], row);
      CellReadsBack(fl, c.store, wire);
      return CellValue(fl, c.store, Slot(c.data, c.store.width, row));
    }

    /** The bytes of one row of a fixed-size column array are the cell's. */
    ghost predicate SlotIs(col: nat, row: nat, s: Buffer)
      requires Valid() && InRange(row, col) && !IsStringCol(col) && (rawMode ==> CellReadable(row, col))
      reads this
    {
      if rawMode then s == RawCell(row, col)
      else IsFixed(columns[col].store) && s == CellBytes(fl, columns[col].store, filled[col][row])
    }

    ghost predicate ArrayIs(col: nat, data: Buffer)
      requires Valid() && col < |columns| && !IsStringCol(col) && (rawMode ==> Readable(col))
      reads this
    {
      var w := columns[col].store.width;
      forall r {:trigger SlotAt(w, r)} :: 0 <= r < rowCount ==>
        SlotAt(w, r) + w <= |data| && SlotIs(col, r, Slot(data, w, r))
    }

    lemma {:induction false} TaggedArray(col: nat)
      requires !rawMode && Valid() && col < |columns| && !IsStringCol(col)
      ensures ArrayIs(col, columns[col].data) && (columns[col].data == [] <==> rowCount == 0)
    {
      hide CellBytes, Slot, SlotAt;
      assert Holds(col) && |filled[col]| == rowCount;
      var c := columns[col];
      RowsTakeRoom(c.store.width, rowCount);
      forall r | 0 <= r < rowCount
        ensures SlotAt(c.store.width, r) + c.store.width <= |c.data| && SlotIs(col, r, Slot(c.data, c.store.width, r))
      {
        FixedAt(fl, c.store, c.data, rowCount, filled[col], r);
      }
    }

    lemma {:induction false} RawArray(col: nat)
      requires rawMode && Valid() && col < |columns| && !IsStringCol(col) && ViewHolds(col)
      ensures ArrayIs(col, columns[col].data) && (columns[col].data == [] <==> rowCount == 0)
    {
      hide RawSlot, Slot, SlotAt;
      assert RawMeta(col);
      var data, w := columns[col].data, columns[col].store.width;
      RowsTakeRoom(w, rowCount);
      forall r | 0 <= r < rowCount ensures SlotAt(w, r) + w <= |data| && SlotIs(col, r, Slot(data, w, r)) {
        ReadableCell(r, col);
        assert Slot(data, w, r) == RawSlot(rawBlock, rawStride, r, rawRowOff[col], w);
      }
    }

    /** column<T>(): the column's array when shape and width match what the caller asks for. */
    method ColumnRaw(col: int, rep: Rep, width: nat) returns (data: Option<Buffer>)
      requires Valid() && (rawMode && 0 <= col < |columns| ==> Readable(col))
      modifies this`columns, this`rawMat
      ensures Valid() && |columns| == old(|columns|) && (rawMode && 0 <= col < |columns| ==> Readable(col))
      ensures data.Some? <==>
              0 <= col < |columns| && columns[col].store == Store(rep, width) && !rep.RepString? && rowCount > 0
      ensures data.Some? ==> ArrayIs(col, data.value)
    {
      hide ArrayIs, ViewHolds, ColumnHolds;
      if col < 0 || col >= |columns| { return None; }
      if rawMode { var _ := MaterializeRawCol(col); }
      var c := columns[col];
      if c.store != Store(rep, width) { return None; }
      if !rep.RepString? {
        if rawMode { RawArray(col); } else { TaggedArray(col); }
      }
      if rep.RepString? || |c.data| == 0 { return None; }
      return Some(c.data);
    }

    /** In a raw batch the array element and the row view of a cell are the same value exactly
        for the known column types. */
    lemma {:induction false} RawViewsAgree(row: nat, col: nat, data: Buffer)
      requires rawMode && Valid() && InRange(row, col) && !IsStringCol(col) && Readable(col) && ArrayIs(col, data)
      ensures var s := columns[col].store;
              SlotAt(s.width, row) + s.width <= |data| && IsFixed(s) &&
              (CellValue(fl, s, Slot(data, s.width, row)) == RawSlotValue(fl, columnTypes[col], RawCell(row, col)) <==>
               columnTypes[col] <= 13)
    {
      hide RawSlot, Slot, SlotAt, RawCell, CellValue, RawSlotValue;
      assert RawMeta(col);
      var s := columns[col].store;
      assert SlotAt(s.width, row) + s.width <= |data| && SlotIs(col, row, Slot(data, s.width, row));
      RowViewIsColumnView(fl, columnTypes[col], RawCell(row, col));
    }

    /** columnStringData and columnStringOffsets: one pool cut into one string per row. */
    ghost predicate PoolIs(col: nat, data: Buffer, offs: seq<nat>)
      requires Valid() && col < |columns| && IsStringCol(col) && (rawMode ==> Readable(col))
      reads this
    {
      |offs| == rowCount + 1 && offs[0] == 0 && offs[rowCount] == |data| &&
      forall r {:trigger offs[r]} :: 0 <= r < rowCount ==>
        offs[r] <= offs[r + 1] <= |data| &&
        data[offs[r]..offs[r + 1]] == if rawMode then Trim(RawCell(r, col)) else Payload(filled[col][r])
    }

    method ColumnStrings(col: int) returns (r: Option<(Buffer, seq<nat>)>)
      requires Valid() && (rawMode && 0 <= col < |columns| && IsStringCol(col) ==> Readable(col))
      modifies this`columns, this`rawMat
      ensures Valid() && |columns| == old(|columns|) &&
        (rawMode && 0 <= col < |columns| && IsStringCol(col) ==> Readable(col))
      ensures r.Some? <==> 0 <= col < |columns| && IsStringCol(col)
      ensures r.Some? ==> PoolIs(col, r.value.0, r.value.1)
    {
      hide PoolIs, ViewHolds, ColumnHolds;
      if col < 0 || col >= |columns| { return None; }
      if !columns[col].store.rep.RepString? { return None; }
      if rawMode { var _ := MaterializeRawCol(col); assert RawMeta(col); }
      if rawMode { RawPool(col); } else { TaggedPool(col); }
      return Some((columns[col].data, columns[col].offsets));
    }

    lemma {:induction false} TaggedStrings(col: nat)
      requires !rawMode && Valid() && col < |columns| && IsStringCol(col)
      ensures |filled[col]| == rowCount && StringsHold(columns[col].data, columns[col].offsets, rowCount, filled[col])
    {
      hide StringsHold, NullsHold;
      assert Holds(col) && |filled[col]| == rowCount;
    }

    lemma {:induction false} TaggedPool(col: nat)
      requires !rawMode && Valid() && col < |columns| && IsStringCol(col)
      ensures PoolIs(col, columns[col].data, columns[col].offsets)
    {
      TaggedStrings(col);
      hide StringsHold, ColumnHolds, Holds, Payload;
      var c := columns[col];
      PoolEnds(c.data, c.offsets, rowCount, filled[col]);
      var offs := c.offsets;
      forall r {:trigger offs[r]} | 0 <= r < rowCount
        ensures offs[r] <= offs[r + 1] <= |c.data|
        ensures c.data[offs[r]..offs[r + 1]] == Payload(filled[col][r])
      {
        StringAt(c.data, c.offsets, rowCount, filled[col], r);
      }
    }

    lemma {:induction false} RawPool(col: nat)
      requires rawMode && Valid() && col < |columns| && IsStringCol(col) && ViewHolds(col)
      ensures PoolIs(col, columns[col].data, columns[col].offsets)
    {
      hide StringsHold, RawStrings, SlotAt, RawSlot, Trim, RawCell;
      var c := columns[col];
      PoolEnds(c.data, c.offsets, rowCount,
        RawStrings(rawBlock, rawStride, rawRowOff[col], rawSlotBytes[col], rowCount));
      var offs := c.offsets;
      forall r {:trigger offs[r]} | 0 <= r < rowCount
        ensures offs[r] <= offs[r + 1] <= |c.data|
        ensures c.data[offs[r]..offs[r + 1]] == Trim(RawCell(r, col))
      {
        RawPoolRow(col, r);
      }
    }

    lemma {:induction false} RawPoolRow(col: nat, r: nat)
      requires rawMode && Valid() && InRange(r, col) && IsStringCol(col) && ViewHolds(col)
      ensures var c := columns[col];
              |c.offsets| == rowCount + 1 && c.offsets[r] <= c.offsets[r + 1] <= |c.data| &&
              c.data[c.offsets[r]..c.offsets[r + 1]] == Trim(RawCell(r, col))
    {
      hide StringsHold, RawStrings, SlotAt, RawSlot, Trim;
      var c := columns[col];
      RawPoolCut(c.data, c.offsets, rawBlock, rawStride, rawRowOff[col], rawSlotBytes[col], rowCount, r);
    }
  }

  lemma {:induction false} NonNegative(block: Buffer, stride: nat, r: nat, off: int, n: int)
    requires SlotIn(block, stride, r, off, n)
    ensures n >= 0
  {}

  lemma {:induction false} RowsTakeRoom(w: nat, rows: nat)
    ensures w > 0 ==> (SlotAt(w, rows) == 0 <==> rows == 0)
  {
    SlotZero(w);
    if rows > 0 { SlotInside(w, 0, rows); }
  }

  lemma {:induction false} RawPoolCut(data: Buffer, offs: seq<nat>, block: Buffer, stride: nat, off: int, n: nat,
      rows: nat, r: nat)
    requires SlotsIn(block, stride, off, n, rows) && r < rows
    requires StringsHold(data, offs, rows, RawStrings(block, stride, off, n, rows))
    ensures |offs| == rows + 1 && offs[r] <= offs[r + 1] <= |data|
    ensures data[offs[r]..offs[r + 1]] == Trim(RawSlot(block, stride, r, off, n))
  {
    hide SlotAt, RawSlot, Trim, RawStrings;
    RawStringAt(block, stride, off, n, rows, r);
    StringAt(data, offs, rows, RawStrings(block, stride, off, n, rows), r);
  }

  /** Row by row, the slot of a fixed-size column is a copy of the row image. */
  ghost predicate FixedView(data: Buffer, w: nat, block: Buffer, stride: nat, off: int, rows: nat) {
    |data| == SlotAt(w, rows) && ViewRows(data, w, block, stride, off, rows)
  }

  ghost predicate ViewRows(data: Buffer, w: nat, block: Buffer, stride: nat, off: int, rows: nat) {
    forall r {:trigger SlotAt(w, r)} :: 0 <= r < rows ==>
      SlotAt(w, r) + w <= |data| && SlotIn(block, stride, r, off, w) &&
      Slot(data, w, r) == RawSlot(block, stride, r, off, w)
  }

  lemma {:induction false} PoolEnds(data: Buffer, offsets: seq<nat>, n: nat, vals: Row)
    requires StringsHold(data, offsets, n, vals) && |vals| == n
    ensures |offsets| == n + 1 && offsets[0] == 0 && offsets[n] == |data|
  {
    assert vals[..0] == [] && vals[..n] == vals;
  }

  lemma {:induction false} FixedAt(fl: FloatOps, s: Store, data: Buffer, n: nat, vals: Row, r: nat)
    requires IsFixed(s) && FixedHolds(fl, s, data, n, vals) && r < |vals|
    ensures SlotAt(s.width, r) + s.width <= |data| && Slot(data, s.width, r) == CellBytes(fl, s, vals[r])
  {}

  method CopyView(w: nat, block: Buffer, stride: nat, off: int, rows: nat) returns (data: Buffer)
    requires SlotsIn(block, stride, off, w, rows)
    ensures FixedView(data, w, block, stride, off, rows)
  {
    hide SlotAt;
    data := seq(SlotAt(w, rows), _ => 0);
    for r := 0 to rows
      invariant |data| == SlotAt(w, rows) && ViewRows(data, w, block, stride, off, r)
    {
      SlotInside(w, r, rows);
      ghost var before := data;
      data := PutSlot(data, w, r, RawSlot(block, stride, r, off, w));
      forall q | 0 <= q <= r
        ensures SlotAt(w, q) + w <= |data| && SlotIn(block, stride, q, off, w)
        ensures Slot(data, w, q) == RawSlot(block, stride, q, off, w)
      {
        PutSlotReads(before, w, r, RawSlot(block, stride, r, off, w), q);
      }
    }
  }

  /** Byte pool and prefix offsets of a raw string column. */
  method PoolView(block: Buffer, stride: nat, off: int, slot: nat, rows: nat) returns (pool: Buffer, offs: seq<nat>)
    requires SlotsIn(block, stride, off, slot, rows)
    ensures StringsHold(pool, offs, rows, RawStrings(block, stride, off, slot, rows))
  {
    hide SlotAt, Trim, Pool;
    pool, offs := [], seq(rows + 1, _ => 0);
    ghost var vals: Row := [];
    EmptyPool();
    for r := 0 to rows
      invariant SlotsIn(block, stride, off, slot, r) && vals == RawStrings(block, stride, off, slot, r)
      invariant StringsHold(pool, offs, rows, vals)
    {
      var s := RawSlot(block, stride, r, off, slot);
      var n := TrimmedLength(s);
      StringsGrow(pool, offs, rows, vals, Str(s[..n]));
      vals := vals + [Str(s[..n])];
      pool := pool + s[..n];
      offs := offs[r + 1 := |pool|];
    }
  }

  lemma {:induction false} EmptyPool()
    ensures Pool([]) == []
  {}

  /** The scan back over the zero padding. */
  method TrimmedLength(s: Buffer) returns (n: nat)
    ensures n <= |s| && s[..n] == Trim(s)
  {
    n := |s|;
    while n > 0 && s[n - 1] == 0
      invariant n <= |s| && Trim(s[..n]) == Trim(s)
    {
      assert s[..n][..n - 1] == s[..n - 1];
      n := n - 1;
    }
  }

  /** Nothing checks that the slots of a raw batch lie inside the block: here 8 bytes are
      declared in a block of one. */
  method SlotOutsideBlock(fl: FloatOps) returns (result: EtDBResult)
    requires fl.Valid()
    ensures result.Valid() && result.rawMode && result.InRange(0, 0)
    ensures |result.columnTypes| == |result.rawRowOff| == |result.rawSlotBytes| == 1 && !result.CellReadable(0, 0)
  {
    hide NarrowRow, ReadMessage;
    result := new EtDBResult(fl);
    NarrowRowAccepted(_ => 0);
    NarrowHead();
    var ok := result.Deserialize(NarrowRow(), _ => 0);
    assert SlotAt(1, 0) == 0;
  }

  /** Any table of typed cells and NULLs, written by the server, received and read back cell
      by cell: NULLs and strings come back as they were, numbers clamped to their column. */
  method QueryRoundTrip(fl: FloatOps, stream: Option<Stream>, fields: seq<Field>, rows: seq<Row>, behind: nat -> byte)
      returns (values: seq<seq<Value>>)
    requires fl.Valid() && Writable(stream, fields, rows) && |WriteData(stream, fields, rows)| <= 0x7fff_ffff - HEAD
    ensures |values| == |rows| && forall r :: 0 <= r < |rows| ==> CellsAre(fl, Types(fields), rows[r], values[r])
  {
    hide WriteData, WriteMessage, ReadMessage, ValidRow, Types, CellsAre;
    var result := new EtDBResult(fl);
    MessageReadsBack(stream, fields, rows, behind);
    WrittenSize(stream, fields, rows);
    var ok := result.Deserialize(WriteMessage(stream, fields, rows), behind);
    values := ReadBackRows(result, fields, rows);
  }

  method ReadBackRows(result: EtDBResult, ghost fields: seq<Field>, ghost rows: seq<Row>)
      returns (values: seq<seq<Value>>)
    requires result.Valid() && !result.rawMode && |rows| == result.rowCount && result.columnTypes == Types(fields)
    requires |result.columns| == |fields| && result.Transposed(rows)
    requires forall r :: 0 <= r < |rows| ==> ValidRow(Types(fields), rows[r])
    ensures |values| == |rows| && forall r :: 0 <= r < |rows| ==> CellsAre(result.fl, Types(fields), rows[r], values[r])
  {
    hide CellsAre, Types;
    values := [];
    for r := 0 to result.rowCount
      invariant |values| == r && forall k :: 0 <= k < r ==> CellsAre(result.fl, Types(fields), rows[k], values[k])
    {
      assert ValidRow(Types(fields), rows[r]);
      var row := ReadBackRow(result, r, Types(fields), rows);
      values := values + [row];
    }
  }

  lemma {:induction false} WrittenSize(stream: Option<Stream>, fields: seq<Field>, rows: seq<Row>)
    requires Writable(stream, fields, rows) && |WriteData(stream, fields, rows)| < 0x8000_0000
    ensures |WriteMessage(stream, fields, rows)| == HEAD + |WriteData(stream, fields, rows)|
  {
    hide WriteData;
  }

  ghost predicate CellsAre(fl: FloatOps, types: seq<byte>, row: Row, values: seq<Value>) {
    |values| == |row| == |types| && forall c {:trigger values[c]} :: 0 <= c < |row| ==>
      CellIs(fl, types[c], row[c], values[c])
  }

  ghost predicate CellIs(fl: FloatOps, t: byte, wire: WireValue, value: Value) {
    Accepts(t, wire) && value == Expected(fl, StoreOf(t), wire)
  }

  method ReadBackRow(result: EtDBResult, r: nat, ghost types: seq<byte>, ghost rows: seq<Row>)
      returns (values: seq<Value>)
    requires result.Valid() && !result.rawMode && r < |rows| == result.rowCount && result.columnTypes == types
    requires |result.columns| == |types| == |rows[r]| && result.Transposed(rows)
    ensures CellsAre(result.fl, types, rows[r], values)
  {
    hide Expected, StoreOf;
    values := [];
    for c := 0 to |result.columns|
      invariant |values| == c
      invariant forall k {:trigger values[k]} :: 0 <= k < c ==> CellIs(result.fl, types[k], rows[r][k], values[k])
    {
      var v := result.Get(r, c);
      assert ColumnOf(result.filled[c], rows, c);
      assert result.filled[c][r] == rows[r][c];
      assert CellIs(result.fl, types[c], rows[r][c], v);
      values := values + [v];
    }
  }

  function Names(fields: seq<Field>): (names: seq<Buffer>)
    ensures |names| == |fields|
  {
    seq(|fields|, i requires 0 <= i < |fields| => fields[i].name)
  }

  lemma {:induction false} RowAdded(before: seq<Row>, after: seq<Row>, rows: seq<Row>, row: Row)
    requires |before| == |after| == |row|
    requires forall c {:trigger before[c]} :: 0 <= c < |before| ==> ColumnOf(before[c], rows, c)
    requires forall c {:trigger after[c]} :: 0 <= c < |after| ==> after[c] == before[c] + [row[c]]
    ensures forall c {:trigger after[c]} :: 0 <= c < |after| ==> ColumnOf(after[c], rows + [row], c)
  {
    forall c | 0 <= c < |after| ensures ColumnOf(after[c], rows + [row], c) {
      assert after[c] == before[c] + [row[c]];
      ColumnGrows(before[c], rows, row, c);
    }
  }

  lemma {:induction false} ColumnGrows(vals: Row, rows: seq<Row>, row: Row, c: nat)
    requires ColumnOf(vals, rows, c) && c < |row|
    ensures ColumnOf(vals + [row[c]], rows + [row], c)
  {
    var more, all := vals + [row[c]], rows + [row];
    forall r | 0 <= r < |all| ensures c < |all[r]| && more[r] == all[r][c] {
      if r < |rows| {
        assert all[r] == rows[r] && more[r] == vals[r];
      } else {
        assert all[r] == row && more[r] == row[c];
      }
    }
  }

  ghost predicate ColumnOf(vals: Row, rows: seq<Row>, c: nat) {
    |vals| == |rows| && forall r {:trigger vals[r]} :: 0 <= r < |rows| ==> c < |rows[r]| && vals[r] == rows[r][c]
  }

  lemma {:induction false} NoNulls(n: nat)
    ensures NullsHold(seq(NullBytes(n), _ => 0 as bv8), n, [])
  {}

  function RawNames(fields: seq<RawField>): seq<Buffer> {
    seq(|fields|, i requires 0 <= i < |fields| => fields[i].name)
  }

  function RawTypes(fields: seq<RawField>): seq<byte> { seq(|fields|, i requires 0 <= i < |fields| => fields[i].t) }

  function SlotSizes(fields: seq<RawField>): seq<int> {
    seq(|fields|, i requires 0 <= i < |fields| => fields[i].slotBytes)
  }

  function RowOffsets(fields: seq<RawField>): seq<int> {
    seq(|fields|, i requires 0 <= i < |fields| => fields[i].rowOff)
  }

  /** Column meta data of a raw batch: shapes, no NULLs, nothing built. */
  method RawColumns(types: seq<byte>, n: nat) returns (columns: seq<Column>)
    ensures |columns| == |types|
    ensures forall c {:trigger columns[c]} :: 0 <= c < |types| ==>
              columns[c].store == StoreOf(types[c]) && NullsHold(columns[c].nullBits, n, [])
  {
    hide NullsHold, StoreOf;
    columns := [];
    for ci := 0 to |types|
      invariant |columns| == ci
      invariant forall c {:trigger columns[c]} :: 0 <= c < ci ==>
        columns[c].store == StoreOf(types[c]) && NullsHold(columns[c].nullBits, n, [])
    {
      NoNulls(n);
      columns := columns + [Column(StoreOf(types[ci]), seq(NullBytes(n), _ => 0 as bv8), [], [])];
    }
  }

  method EmptyColumn(fl: FloatOps, t: byte, n: nat) returns (c: Column)
    ensures ColumnHolds(fl, c, t, n, []) && (c.store.rep.RepString? ==> c.data == [])
  {
    var s := StoreOf(t);
    var bits := seq(NullBytes(n), _ => 0 as bv8);
    if s.rep.RepString? {
      c := Column(s, bits, [], seq(n + 1, _ => 0));
    } else {
      c := Column(s, bits, seq(SlotAt(s.width, n), _ => 0 as byte), []);
    }
  }
}
