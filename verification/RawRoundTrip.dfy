/** Rows of typed cells written as raw row images, received, and read by row and by column. */
module RawRoundTrip {
  import opened Bytes
  import opened Endian
  import opened WireFormat
  import opened ColumnStore
  import opened WireMessage
  import opened ClientResult

  // ---------------------------------------------------------------- cells and row images

  /** A cell the server puts into a row image; floats are bit patterns. */
  datatype RawCell = Number(v: int) | Bits(bits: nat) | Flag(b: bool) | Text(text: Buffer)

  /** The bytes a number of a type takes, and whether it has a sign. */
  function NumberWidth(t: byte): nat {
    if t in {0, 5, 13} then 8 else if t in {4, 12} then 4 else if t in {3, 11} then 2 else 1
  }

  predicate IsSigned(t: byte) { t in {0, 2, 3, 4, 5} }

  /** The cell is one of the column's type; texts fit their slot and end in no zero byte. */
  predicate Suits(f: RawField, cell: RawCell) {
    match cell
    case Number(v) =>
      f.t in {0, 2, 3, 4, 5, 10, 11, 12, 13} &&
      if IsSigned(f.t) then InSigned(v, NumberWidth(f.t)) else 0 <= v < Pow256(NumberWidth(f.t))
    case Bits(bits) => (f.t == 6 && bits < 0x1_0000_0000) || (f.t == 7 && bits < 0x1_0000_0000_0000_0000)
    case Flag(_) => f.t == 1
    case Text(text) => f.t in {8, 9} && |text| <= f.slotBytes && (text != [] ==> text[|text| - 1] != 0)
  }

  /** The slot of a cell, in host order. */
  function SlotBytes(f: RawField, cell: RawCell): (b: Buffer)
    requires Suits(f, cell)
  {
    match cell
    case Number(v) => ToLE(if v < 0 then v + Pow256(NumberWidth(f.t)) else v, NumberWidth(f.t))
    case Bits(bits) => ToLE(bits, if f.t == 6 then 4 else 8)
    case Flag(b) => [if b then 1 else 0]
    case Text(text) => text + seq(f.slotBytes - |text|, _ => 0)
  }

  /** The row image holds the cells in the slots the descriptors name; what stands between the
      slots is left open. */
  ghost predicate ImageOf(fields: seq<RawField>, stride: nat, cells: seq<RawCell>, image: Buffer) {
    |image| == stride && |cells| == |fields| &&
    forall c :: 0 <= c < |fields| ==> SlotHolds(fields[c], cells[c], image)
  }

  ghost predicate SlotHolds(f: RawField, cell: RawCell, image: Buffer) {
    Suits(f, cell) && f.rowOff >= 0 && At(image, f.rowOff, SlotBytes(f, cell))
  }

  // ---------------------------------------------------------------- the message

  predicate ValidRawField(f: RawField) {
    |f.name| < Pow256(2) && InSigned(f.slotBytes, 4) && InSigned(f.rowOff, 4)
  }

  function WriteRawField(f: RawField): Buffer
    requires ValidRawField(f)
  {
    ToBE(|f.name|, 2) + f.name + [f.t] + ToBE(ToUnsigned(f.slotBytes, 4), 4) + ToBE(ToUnsigned(f.rowOff, 4), 4)
  }

  predicate ValidRawFields(fields: seq<RawField>) { forall c :: 0 <= c < |fields| ==> ValidRawField(fields[c]) }

  function WriteRawFields(fields: seq<RawField>): Buffer
    requires ValidRawFields(fields)
  {
    if fields == [] then [] else WriteRawField(fields[0]) + WriteRawFields(fields[1..])
  }

  function Join(images: seq<Buffer>): Buffer {
    if images == [] then [] else Join(images[..|images| - 1]) + images[|images| - 1]
  }

  predicate WritableRaw(s: Option<Stream>, fields: seq<RawField>, stride: nat, images: seq<Buffer>) {
    (s.Some? ==> InSigned(s.value.qId, 8) && InSigned(s.value.total, 8)) && ValidRawFields(fields) &&
    0 < |fields| <= MAX_COLS && |images| <= MAX_ROWS && 0 < stride <= INT_MAX &&
    forall r :: 0 <= r < |images| ==> |images[r]| == stride
  }

  function WriteRawData(s: Option<Stream>, fields: seq<RawField>, stride: nat, images: seq<Buffer>): Buffer
    requires WritableRaw(s, fields, stride, images)
  {
    WriteStream(s) + ([LAYOUT_RAW_BLOCK] + ToBE(stride, 4) + WriteRawFields(fields) + Join(images))
  }

  /** A raw response as the server writes it. */
  function WriteRawMessage(s: Option<Stream>, fields: seq<RawField>, stride: nat, images: seq<Buffer>): Buffer
    requires WritableRaw(s, fields, stride, images) && |WriteRawData(s, fields, stride, images)| <= INT_MAX
  {
    WriteHead(|fields|, |images|, |WriteRawData(s, fields, stride, images)|) + WriteRawData(s, fields, stride, images)
  }

  // ---------------------------------------------------------------- it reads back

  lemma {:induction false} RawFieldReadsBack(src: Buffer, p: nat, f: RawField)
    requires ValidRawField(f) && At(src, p, WriteRawField(f))
    ensures p + 2 + |f.name| + 9 == p + |WriteRawField(f)| <= |src| && UIntAt(src, p, 2) == |f.name|
    ensures ReadRawField(src, p + 2, |f.name|) == f
  {
    hide UIntAt, ToBE, IntAt, InSigned, Pow256;
    var n, s, o := ToBE(|f.name|, 2), ToBE(ToUnsigned(f.slotBytes, 4), 4), ToBE(ToUnsigned(f.rowOff, 4), 4);
    AtConcat(src, p, n + f.name + [f.t] + s, o);
    AtConcat(src, p, n + f.name + [f.t], s);
    AtConcat(src, p, n + f.name, [f.t]);
    AtConcat(src, p, n, f.name);
    UIntReadsBack(src, p, |f.name|, 2);
    AtSlice(src, p + 2, f.name);
    assert src[p + 2 + |f.name|] == [f.t][0];
    IntReadsBack(src, p + 2 + |f.name| + 1, f.slotBytes, 4);
    IntReadsBack(src, p + 2 + |f.name| + 5, f.rowOff, 4);
  }

  lemma {:induction false} RawFieldsReadBack(src: Buffer, p: nat, fields: seq<RawField>, k: nat)
    requires ValidRawFields(fields) && k <= |fields| && At(src, p, WriteRawFields(fields[k..]))
    ensures ReadRawFields(src, p, |fields|, fields[..k]) ==
            Some(RawFieldsRead(fields, p + |WriteRawFields(fields[k..])|))
    decreases |fields| - k
  {
    hide UIntAt, WriteRawField, ValidRawField, ReadRawField;
    if k == |fields| {
      assert fields[..k] == fields;
    } else {
      var f := fields[k];
      assert ValidRawField(f) && fields[k..][0] == f && fields[k..][1..] == fields[k + 1..];
      AtConcat(src, p, WriteRawField(f), WriteRawFields(fields[k + 1..]));
      RawFieldReadsBack(src, p, f);
      assert fields[..k] + [f] == fields[..k + 1];
      RawFieldsReadBack(src, p + |WriteRawField(f)|, fields, k + 1);
    }
  }

  lemma {:induction false} JoinLength(images: seq<Buffer>, stride: nat)
    requires forall r :: 0 <= r < |images| ==> |images[r]| == stride
    ensures |Join(images)| == SlotAt(stride, |images|)
    decreases |images|
  {
    hide SlotAt;
    SlotZero(stride);
    if images != [] {
      JoinLength(images[..|images| - 1], stride);
      SlotNext(stride, |images| - 1);
    }
  }

  lemma {:induction false} JoinAt(images: seq<Buffer>, stride: nat, r: nat)
    requires (forall i :: 0 <= i < |images| ==> |images[i]| == stride) && r < |images|
    ensures SlotAt(stride, r) + stride <= |Join(images)|
    ensures Join(images)[SlotAt(stride, r)..SlotAt(stride, r) + stride] == images[r]
    decreases |images|
  {
    hide SlotAt;
    var last := |images| - 1;
    JoinLength(images[..last], stride);
    if r < last {
      JoinAt(images[..last], stride, r);
      var i, j := SlotAt(stride, r), SlotAt(stride, r) + stride;
      assert Join(images)[i..j] == Join(images[..last])[i..j];
    }
  }

  lemma {:induction false} RawDataReadsBack(s: Option<Stream>, fields: seq<RawField>, stride: nat, images: seq<Buffer>,
                                            dataLen: nat)
    requires WritableRaw(s, fields, stride, images)
    ensures ReadData(WriteRawData(s, fields, stride, images), Head(|fields|, |images|, dataLen)) ==
            Some(Raw(if s.None? then ONE_SHOT else s.value, fields, stride, |images|, Join(images)))
  {
    hide WriteStream, ReadStream, StreamEnd, ReadRawFields, ReadTagged, WriteRawFields, ValidRawFields, Join, ToBE;
    hide IntAt, SlotAt;
    var f, d := WriteRawFields(fields), Join(images);
    var data, p := WriteRawData(s, fields, stride, images), |WriteStream(s)|;
    StreamReadsBack(data, s, [LAYOUT_RAW_BLOCK] + ToBE(stride, 4) + f + d);
    RawParts(data, WriteStream(s), stride, f, d);
    SmallCount(stride);
    IntReadsBack(data, p + 1, stride, 4);
    assert fields[0..] == fields && fields[..0] == [];
    RawFieldsReadBack(data, p + 5, fields, 0);
    JoinLength(images, stride);
    AtSlice(data, p + 5 + |f|, d);
  }

  lemma {:induction false} RawParts(data: Buffer, front: Buffer, stride: nat, f: Buffer, d: Buffer)
    requires data == front + ([LAYOUT_RAW_BLOCK] + ToBE(stride, 4) + f + d)
    ensures var p := |front|;
            p < |data| && data[p] == LAYOUT_RAW_BLOCK && At(data, p + 1, ToBE(stride, 4)) && At(data, p + 5, f) &&
            At(data, p + 5 + |f|, d) && p + 5 + |f| + |d| == |data|
  {
    hide ToBE;
    var w, p := ToBE(stride, 4), |front|;
    var body := [LAYOUT_RAW_BLOCK] + w + f + d;
    AtPrefix(data, front, body);
    assert data[p] == body[0];
    AtConcat(data, p, [LAYOUT_RAW_BLOCK] + w + f, d);
    AtConcat(data, p, [LAYOUT_RAW_BLOCK] + w, f);
    AtConcat(data, p, [LAYOUT_RAW_BLOCK], w);
  }

  /** Every raw response reads back: stream state, descriptors, row images. */
  lemma {:induction false} RawMessageReadsBack(s: Option<Stream>, fields: seq<RawField>, stride: nat,
                                               images: seq<Buffer>, behind: nat -> byte)
    requires WritableRaw(s, fields, stride, images) && |WriteRawData(s, fields, stride, images)| <= INT_MAX
    ensures ReadMessage(WriteRawMessage(s, fields, stride, images), behind) ==
            Some(Raw(if s.None? then ONE_SHOT else s.value, fields, stride, |images|, Join(images)))
  {
    hide WriteHead, WriteRawData, ReadHead, ReadData, ValidRawFields;
    var data, buf := WriteRawData(s, fields, stride, images), WriteRawMessage(s, fields, stride, images);
    HeadLength(|fields|, |images|, |data|);
    AtPrefix(buf, [], WriteHead(|fields|, |images|, |data|));
    HeadReadsBack(buf, |fields|, |images|, |data|);
    assert buf[HEAD..HEAD + |data|] == data;
    RawDataReadsBack(s, fields, stride, images, |data|);
  }

  // ---------------------------------------------------------------- what a slot reads as

  /** What the API hands out for a cell. */
  function ValueOf(fl: FloatOps, t: byte, cell: RawCell): Value {
    match cell
    case Number(v) => if t == 13 && v >= 0 then VUInt(v) else VInt(v)
    case Bits(bits) => VFloat(if t == 6 then fl.widen(bits) else bits)
    case Flag(b) => VBool(b)
    case Text(text) => VStr(text)
  }

  /** An element of a column array, in host order. */
  predicate ElementIs(t: byte, e: Buffer, cell: RawCell) {
    match cell
    case Number(v) => |e| == NumberWidth(t) && (if IsSigned(t) then ToSigned(FromLE(e), |e|) else FromLE(e)) == v
    case Bits(bits) => |e| == (if t == 6 then 4 else 8) && FromLE(e) == bits
    case Flag(b) => e == [if b then 1 else 0]
    case Text(_) => false
  }

  /** The shape and width a caller asks for. */
  function ArrayShape(t: byte): Store {
    if t in {0, 5} then Store(RepInt, 8)
    else if t == 4 then Store(RepInt, 4)
    else if t == 3 then Store(RepInt, 2)
    else if t == 2 then Store(RepInt, 1)
    else if t == 13 then Store(RepUInt, 8)
    else if t == 12 then Store(RepUInt, 4)
    else if t == 11 then Store(RepUInt, 2)
    else if t == 10 then Store(RepUInt, 1)
    else if t == 7 then Store(RepFloat, 8)
    else if t == 6 then Store(RepFloat, 4)
    else if t == 1 then Store(RepBool, 1)
    else Store(RepString, 0)
  }

  lemma {:induction false} SlotShape(f: RawField, cell: RawCell)
    requires Suits(f, cell)
    ensures StoreOf(f.t) == ArrayShape(f.t) && (StoreOf(f.t).rep.RepString? <==> cell.Text?)
    ensures f.t <= 13 && SlotWidth(f.t, f.slotBytes) == |SlotBytes(f, cell)|
  {}

  lemma {:induction false} NumberReads(f: RawField, cell: RawCell)
    requires Suits(f, cell) && !cell.Text?
    ensures ElementIs(f.t, SlotBytes(f, cell), cell)
  {
    hide Pow256, FromLE, ToLE;
    Powers();
    match cell
    case Number(v) =>
      LittleEndianReadsBack(if v < 0 then v + Pow256(NumberWidth(f.t)) else v, NumberWidth(f.t));
    case Bits(bits) => LittleEndianReadsBack(bits, if f.t == 6 then 4 else 8);
    case Flag(_) =>
  }

  lemma {:induction false} TrimPadded(text: Buffer, n: nat)
    requires text != [] ==> text[|text| - 1] != 0
    ensures Trim(text + seq(n, _ => 0)) == text
    decreases n
  {
    var s := text + seq(n, _ => 0);
    if n == 0 {
      assert s == text;
    } else {
      assert s[..|s| - 1] == text + seq(n - 1, _ => 0);
      TrimPadded(text, n - 1);
    }
  }

  lemma {:induction false} SlotReads(fl: FloatOps, f: RawField, cell: RawCell)
    requires Suits(f, cell)
    ensures |SlotBytes(f, cell)| == StoreOf(f.t).width || StoreOf(f.t).rep.RepString?
    ensures RawSlotValue(fl, f.t, SlotBytes(f, cell)) == ValueOf(fl, f.t, cell)
    ensures cell.Text? ==> Trim(SlotBytes(f, cell)) == cell.text
  {
    SlotShape(f, cell);
    match cell
    case Text(text) => TrimPadded(text, f.slotBytes - |text|);
    case Flag(b) =>
      assert SlotBytes(f, cell)[1..] == [] && FromLE(SlotBytes(f, cell)) == SlotBytes(f, cell)[0];
    case _ =>
      NumberReads(f, cell);
      hide ToLE, FromLE, Pow256, ToSigned;
  }

  // ---------------------------------------------------------------- the result object

  /** The batch is the given row images, and they hold the given cells. */
  ghost predicate Shows(result: EtDBResult, fields: seq<RawField>, stride: nat, rows: seq<seq<RawCell>>,
                        images: seq<Buffer>)
    reads result
  {
    result.Valid() && result.rawMode && |result.columns| == |fields| && result.rowCount == |rows| == |images| &&
    result.columnTypes == RawTypes(fields) && result.rawSlotBytes == SlotSizes(fields) &&
    result.rawRowOff == RowOffsets(fields) && result.rawStride == stride && result.rawBlock == Join(images) &&
    forall r :: 0 <= r < |rows| ==> ImageOf(fields, stride, rows[r], images[r])
  }

  /** The bytes of a cell are those written. */
  lemma {:induction false} CellShown(result: EtDBResult, fields: seq<RawField>, stride: nat, rows: seq<seq<RawCell>>,
                                     images: seq<Buffer>, r: nat, c: nat)
    requires Shows(result, fields, stride, rows, images) && r < |rows| && c < |fields|
    ensures |rows[r]| == |fields| && Suits(fields[c], rows[r][c]) && result.Valid() && result.rawMode
    ensures result.InRange(r, c) && result.CellReadable(r, c) && (result.IsStringCol(c) <==> rows[r][c].Text?)
    ensures result.RawCell(r, c) == SlotBytes(fields[c], rows[r][c])
    ensures result.columns[c].store == ArrayShape(fields[c].t) && result.columnTypes[c] == fields[c].t
  {
    hide SlotAt, SlotBytes, Suits, Join;
    assert ImageOf(fields, stride, rows[r], images[r]);
    var f, cell := fields[c], rows[r][c];
    assert SlotHolds(f, cell, images[r]);
    SlotShape(f, cell);
    assert result.RawMeta(c);
    AllStride(fields, stride, rows, images);
    JoinAt(images, stride, r);
    SliceOfRow(result.rawBlock, images[r], SlotAt(stride, r), f.rowOff, SlotBytes(f, cell));
  }

  lemma {:induction false} AllStride(fields: seq<RawField>, stride: nat, rows: seq<seq<RawCell>>, images: seq<Buffer>)
    requires |rows| == |images| && forall r :: 0 <= r < |rows| ==> ImageOf(fields, stride, rows[r], images[r])
    ensures forall r :: 0 <= r < |images| ==> |images[r]| == stride
  {
    forall r | 0 <= r < |images| ensures |images[r]| == stride { assert ImageOf(fields, stride, rows[r], images[r]); }
  }

  lemma {:induction false} SliceOfRow(block: Buffer, image: Buffer, at: nat, off: nat, b: Buffer)
    requires at + |image| <= |block| && block[at..at + |image|] == image && At(image, off, b)
    ensures at + off + |b| <= |block| && block[at + off..at + off + |b|] == b
  {
    forall k | 0 <= k < |b| ensures block[at + off + k] == b[k] { assert block[at..at + |image|][off + k] == b[k]; }
  }

  lemma {:induction false} ColumnShown(result: EtDBResult, fields: seq<RawField>, stride: nat,
                                       rows: seq<seq<RawCell>>, images: seq<Buffer>, c: nat)
    requires Shows(result, fields, stride, rows, images) && c < |fields| && rows != []
    ensures result.InRange(0, c) && c < |result.rawRowOff| && c < |result.rawSlotBytes| && c < |result.columnTypes|
    ensures result.Readable(c)
  {
    RowLength(result, fields, stride, rows, images, 0);
    hide Shows, SlotAt, Suits, SlotBytes;
    CellShown(result, fields, stride, rows, images, 0, c);
    hide EtDBResult.Valid, EtDBResult.Readable, EtDBResult.CellReadable, EtDBResult.RawCell;
    forall r | 0 <= r < result.rowCount ensures result.CellReadable(r, c) {
      CellShown(result, fields, stride, rows, images, r, c);
    }
    result.CellsReadable(c);
  }

  method ReadRow(result: EtDBResult, ghost fields: seq<RawField>, ghost stride: nat, ghost rows: seq<seq<RawCell>>,
                 ghost images: seq<Buffer>, r: nat)
      returns (values: seq<Value>, texts: seq<Buffer>)
    requires Shows(result, fields, stride, rows, images) && r < |rows|
    ensures RowReads(result.fl, fields, rows[r], values, texts)
  {
    hide Shows, ValueOf, Suits, SlotBytes, RawSlotValue, Trim;
    values, texts := [], [];
    RowLength(result, fields, stride, rows, images, r);
    for c := 0 to |result.columns|
      invariant |values| == |texts| == c
      invariant forall k :: 0 <= k < c ==> CellReads(result.fl, fields[k], rows[r][k], values[k], texts[k])
    {
      CellShown(result, fields, stride, rows, images, r, c);
      SlotReads(result.fl, fields[c], rows[r][c]);
      var v := result.Get(r, c);
      var s := result.StringValue(r, c);
      values, texts := values + [v], texts + [s];
    }
  }

  lemma {:induction false} RowLength(result: EtDBResult, fields: seq<RawField>, stride: nat, rows: seq<seq<RawCell>>,
                                     images: seq<Buffer>, r: nat)
    requires Shows(result, fields, stride, rows, images) && r < |rows|
    ensures result.Valid() && |result.columns| == |fields| == |rows[r]| && result.rowCount == |rows|
  {
    assert ImageOf(fields, stride, rows[r], images[r]);
  }

  predicate CellReads(fl: FloatOps, f: RawField, cell: RawCell, value: Value, text: Buffer) {
    value == ValueOf(fl, f.t, cell) && text == if cell.Text? then cell.text else []
  }

  predicate RowReads(fl: FloatOps, fields: seq<RawField>, cells: seq<RawCell>, values: seq<Value>, texts: seq<Buffer>) {
    |cells| == |fields| == |values| == |texts| &&
    forall c :: 0 <= c < |fields| ==> CellReads(fl, fields[c], cells[c], values[c], texts[c])
  }

  // ---------------------------------------------------------------- column by column

  /** A column array of the written numbers, one element behind the other. */
  predicate ArrayReads(f: RawField, column: seq<RawCell>, data: Buffer) {
    forall r :: 0 <= r < |column| ==> ElementAt(f, data, r, column[r])
  }

  predicate ElementAt(f: RawField, data: Buffer, r: nat, cell: RawCell) {
    var w := ArrayShape(f.t).width;
    SlotAt(w, r) + w <= |data| && ElementIs(f.t, Slot(data, w, r), cell)
  }

  /** A pool cut into the written texts. */
  predicate PoolReads(column: seq<RawCell>, pool: Buffer, offs: seq<nat>) {
    |offs| == |column| + 1 && offs[0] == 0 && offs[|column|] == |pool| &&
    forall r :: 0 <= r < |column| ==> TextAt(pool, offs, r, column[r])
  }

  predicate TextAt(pool: Buffer, offs: seq<nat>, r: nat, cell: RawCell) {
    r + 1 < |offs| && offs[r] <= offs[r + 1] <= |pool| && cell.Text? && pool[offs[r]..offs[r + 1]] == cell.text
  }

  ghost function ColumnOf(rows: seq<seq<RawCell>>, c: nat): (column: seq<RawCell>)
    requires forall r :: 0 <= r < |rows| ==> c < |rows[r]|
    ensures |column| == |rows|
  {
    seq(|rows|, r requires 0 <= r < |rows| => rows[r][c])
  }

  /** Either kind of column. */
  ghost predicate ColumnReads(f: RawField, column: seq<RawCell>, data: Option<Buffer>,
                              pool: Option<(Buffer, seq<nat>)>) {
    if f.t in {8, 9} then data.None? && pool.Some? && PoolReads(column, pool.value.0, pool.value.1)
    else pool.None? && data.Some? && ArrayReads(f, column, data.value)
  }

  lemma {:induction false} ColumnIs(f: RawField, column: seq<RawCell>, data: Option<Buffer>,
                                    pool: Option<(Buffer, seq<nat>)>)
    requires data.Some? <==> f.t !in {8, 9}
    requires pool.Some? <==> f.t in {8, 9}
    requires data.Some? ==> ArrayReads(f, column, data.value)
    requires pool.Some? ==> PoolReads(column, pool.value.0, pool.value.1)
    ensures ColumnReads(f, column, data, pool)
  {}

  method ReadColumn(result: EtDBResult, t: byte, ghost fields: seq<RawField>, ghost stride: nat,
                    ghost rows: seq<seq<RawCell>>, ghost images: seq<Buffer>, c: nat)
      returns (data: Option<Buffer>, pool: Option<(Buffer, seq<nat>)>)
    requires Shows(result, fields, stride, rows, images) && c < |fields| && t == fields[c].t && rows != []
    modifies result`columns, result`rawMat
    ensures Shows(result, fields, stride, rows, images)
    ensures forall r :: 0 <= r < |rows| ==> c < |rows[r]|
    ensures ColumnReads(fields[c], ColumnOf(rows, c), data, pool)
  {
    hide SlotBytes, Suits, ArrayReads, PoolReads, Join;
    AllRows(result, fields, stride, rows, images);
    ColumnShown(result, fields, stride, rows, images, c);
    CellShown(result, fields, stride, rows, images, 0, c);
    ShapeOf(fields[c], rows[0][c]);
    data := result.ColumnRaw(c, ArrayShape(t).rep, ArrayShape(t).width);
    if data.Some? { ArrayHolds(result, fields, stride, rows, images, c, data.value); }
    ColumnShown(result, fields, stride, rows, images, c);
    CellShown(result, fields, stride, rows, images, 0, c);
    pool := result.ColumnStrings(c);
    if pool.Some? { PoolHolds(result, fields, stride, rows, images, c, pool.value.0, pool.value.1); }
    ColumnIs(fields[c], ColumnOf(rows, c), data, pool);
  }

  lemma {:induction false} ShapeOf(f: RawField, cell: RawCell)
    requires Suits(f, cell)
    ensures cell.Text? <==> f.t in {8, 9}
    ensures ArrayShape(f.t).rep.RepString? <==> cell.Text?
  {}

  lemma {:induction false} AllRows(result: EtDBResult, fields: seq<RawField>, stride: nat, rows: seq<seq<RawCell>>,
                                   images: seq<Buffer>)
    requires Shows(result, fields, stride, rows, images)
    ensures forall r :: 0 <= r < |rows| ==> |rows[r]| == |fields|
  {
    forall r | 0 <= r < |rows| ensures |rows[r]| == |fields| { assert ImageOf(fields, stride, rows[r], images[r]); }
  }

  lemma {:induction false} ArrayHolds(result: EtDBResult, fields: seq<RawField>, stride: nat, rows: seq<seq<RawCell>>,
                                      images: seq<Buffer>, c: nat, data: Buffer)
    requires Shows(result, fields, stride, rows, images) && c < |fields| && rows != []
    requires result.InRange(0, c) && !result.IsStringCol(c) && result.Readable(c) && result.ArrayIs(c, data)
    ensures forall r :: 0 <= r < |rows| ==> c < |rows[r]|
    ensures ArrayReads(fields[c], ColumnOf(rows, c), data)
  {
    hide Shows, ElementAt, EtDBResult.ArrayIs;
    AllRows(result, fields, stride, rows, images);
    forall r | 0 <= r < |rows| ensures ElementAt(fields[c], data, r, rows[r][c]) {
      ElementShown(result, fields, stride, rows, images, c, data, r);
    }
  }

  lemma {:induction false} ElementShown(result: EtDBResult, fields: seq<RawField>, stride: nat,
                                        rows: seq<seq<RawCell>>, images: seq<Buffer>, c: nat, data: Buffer, r: nat)
    requires Shows(result, fields, stride, rows, images) && c < |fields| && r < |rows|
    requires result.InRange(0, c) && !result.IsStringCol(c) && result.Readable(c) && result.ArrayIs(c, data)
    ensures |rows[r]| == |fields| && ElementAt(fields[c], data, r, rows[r][c])
  {
    RowLength(result, fields, stride, rows, images, r);
    CellShown(result, fields, stride, rows, images, r, c);
    hide Shows, SlotBytes, Suits, ElementIs, Slot, SlotAt;
    NumberReads(fields[c], rows[r][c]);
    assert result.SlotIs(c, r, Slot(data, result.columns[c].store.width, r));
  }

  lemma {:induction false} PoolHolds(result: EtDBResult, fields: seq<RawField>, stride: nat, rows: seq<seq<RawCell>>,
                                     images: seq<Buffer>, c: nat, pool: Buffer, offs: seq<nat>)
    requires Shows(result, fields, stride, rows, images) && c < |fields| && rows != []
    requires result.InRange(0, c) && result.IsStringCol(c) && result.Readable(c) && result.PoolIs(c, pool, offs)
    ensures forall r :: 0 <= r < |rows| ==> c < |rows[r]|
    ensures PoolReads(ColumnOf(rows, c), pool, offs)
  {
    RowLength(result, fields, stride, rows, images, 0);
    PoolShape(result, c, pool, offs);
    hide Shows, TextAt, EtDBResult.PoolIs;
    AllRows(result, fields, stride, rows, images);
    forall r | 0 <= r < |rows| ensures TextAt(pool, offs, r, rows[r][c]) {
      TextShown(result, fields, stride, rows, images, c, pool, offs, r);
    }
  }

  lemma {:induction false} PoolShape(result: EtDBResult, c: nat, pool: Buffer, offs: seq<nat>)
    requires result.Valid() && c < |result.columns| && result.IsStringCol(c) && (result.rawMode ==> result.Readable(c))
    requires result.PoolIs(c, pool, offs)
    ensures |offs| == result.rowCount + 1 && offs[0] == 0 && offs[result.rowCount] == |pool|
  {}

  lemma {:induction false} TextShown(result: EtDBResult, fields: seq<RawField>, stride: nat, rows: seq<seq<RawCell>>,
                                     images: seq<Buffer>, c: nat, pool: Buffer, offs: seq<nat>, r: nat)
    requires Shows(result, fields, stride, rows, images) && c < |fields| && r < |rows|
    requires result.InRange(0, c) && result.IsStringCol(c) && result.Readable(c) && result.PoolIs(c, pool, offs)
    ensures |rows[r]| == |fields| && TextAt(pool, offs, r, rows[r][c])
  {
    RowLength(result, fields, stride, rows, images, r);
    CellShown(result, fields, stride, rows, images, r, c);
    hide Shows, SlotBytes, Suits, Trim;
    SlotReads(result.fl, fields[c], rows[r][c]);
    assert offs[r] <= offs[r + 1];
  }

  // ---------------------------------------------------------------- the round trip

  /** Any table of typed cells, written as raw row images with any placement of the slots,
      received, and read cell by cell and column by column, gives back what was written. */
  method RawQueryRoundTrip(fl: FloatOps, stream: Option<Stream>, fields: seq<RawField>, stride: nat,
                           ghost rows: seq<seq<RawCell>>, images: seq<Buffer>, behind: nat -> byte)
      returns (values: seq<seq<Value>>, texts: seq<seq<Buffer>>, arrays: seq<Option<Buffer>>,
               pools: seq<Option<(Buffer, seq<nat>)>>)
    requires fl.Valid() && WritableRaw(stream, fields, stride, images) && rows != [] && |rows| == |images|
    requires |WriteRawData(stream, fields, stride, images)| <= INT_MAX - HEAD
    requires forall r :: 0 <= r < |rows| ==> ImageOf(fields, stride, rows[r], images[r])
    ensures |values| == |texts| == |rows| && |arrays| == |pools| == |fields|
    ensures forall r :: 0 <= r < |rows| ==> RowReads(fl, fields, rows[r], values[r], texts[r])
    ensures forall r :: 0 <= r < |rows| ==> |rows[r]| == |fields|
    ensures forall c :: 0 <= c < |fields| ==> ColumnReads(fields[c], ColumnOf(rows, c), arrays[c], pools[c])
  {
    hide WriteRawData, WriteRawMessage, ReadMessage, ImageOf, Shows, RowReads, ColumnReads, WritableRaw;
    var result := new EtDBResult(fl);
    RawMessageReadsBack(stream, fields, stride, images, behind);
    RawSize(stream, fields, stride, images);
    var ok := result.Deserialize(WriteRawMessage(stream, fields, stride, images), behind);
    assert Shows(result, fields, stride, rows, images) by {
      ReceivedShows(result, stream, fields, stride, rows, images);
    }
    AllRows(result, fields, stride, rows, images);
    values, texts := [], [];
    for r := 0 to |images|
      invariant |values| == |texts| == r && Shows(result, fields, stride, rows, images) && result.fl == fl
      invariant forall k :: 0 <= k < r ==> RowReads(fl, fields, rows[k], values[k], texts[k])
    {
      var v, s := ReadRow(result, fields, stride, rows, images, r);
      values, texts := values + [v], texts + [s];
    }
    arrays, pools := [], [];
    for c := 0 to |fields|
      invariant |arrays| == |pools| == c && Shows(result, fields, stride, rows, images) && fresh(result)
      invariant forall k :: 0 <= k < c ==> ColumnReads(fields[k], ColumnOf(rows, k), arrays[k], pools[k])
    {
      var data, pool := ReadColumn(result, fields[c].t, fields, stride, rows, images, c);
      arrays, pools := arrays + [data], pools + [pool];
    }
  }

  lemma {:induction false} RawSize(s: Option<Stream>, fields: seq<RawField>, stride: nat, images: seq<Buffer>)
    requires WritableRaw(s, fields, stride, images) && |WriteRawData(s, fields, stride, images)| <= INT_MAX
    ensures |WriteRawMessage(s, fields, stride, images)| == HEAD + |WriteRawData(s, fields, stride, images)|
  {
    hide WriteRawData;
  }

  lemma {:induction false} ReceivedShows(result: EtDBResult, s: Option<Stream>, fields: seq<RawField>, stride: nat,
                                         rows: seq<seq<RawCell>>, images: seq<Buffer>)
    requires result.Valid() && |rows| == |images|
    requires result.Received(Raw(if s.None? then ONE_SHOT else s.value, fields, stride, |images|, Join(images)))
    requires forall r :: 0 <= r < |rows| ==> ImageOf(fields, stride, rows[r], images[r])
    ensures Shows(result, fields, stride, rows, images)
  {
    hide ImageOf, Join, EtDBResult.Valid;
  }
}
