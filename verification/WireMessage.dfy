/** The response message: headers, the optional streaming prefix, and both payload layouts. */
module WireMessage {
  import opened Bytes
  import opened Endian
  import opened WireFormat

  /** A column descriptor of the tagged layout. */
  datatype Field = Field(name: Buffer, t: byte)

  /** A column descriptor of the raw layout: slot width and offset inside a row. */
  datatype RawField = RawField(name: Buffer, t: byte, slotBytes: int, rowOff: int)

  datatype Stream = Stream(qId: int, total: int, ended: bool)

  datatype Message =
    | Tagged(stream: Stream, fields: seq<Field>, rows: seq<Row>)
    | Raw(stream: Stream, rawFields: seq<RawField>, stride: nat, numRows: nat, block: Buffer)

  const HEAD := 20            // SMsgHead and the fixed part of SQueryRsp
  const STREAM_META := 24
  const STREAM_MAGIC := 0x5354524D
  const LAYOUT_TAG_ROWS: byte := 0
  const LAYOUT_RAW_BLOCK: byte := 1
  const MAX_COLS := 4096
  const MAX_ROWS := 1000000
  const INT_MAX := 0x7fff_ffff

  const ONE_SHOT := Stream(0, 0, true)

  // ---------------------------------------------------------------- reading

  datatype Head = Head(numCols: nat, numRows: nat, dataLen: nat)

  /** A sum of two 32-bit numbers that are not negative, in 32 bits. */
  function Sum32(a: nat, b: nat): int { if a + b > INT_MAX then a + b - 0x1_0000_0000 else a + b }

  /** The counts are inside the accepted limits. */
  predicate CountsInRange(buf: Buffer) {
    |buf| >= 20 && 0 <= IntAt(buf, 8, 4) <= 4096 && 0 <= IntAt(buf, 12, 4) <= 1000000 && 0 <= IntAt(buf, 16, 4)
  }

  /** The counts and the length of the data; the check that it is all there adds in 32 bits. */
  function ReadHead(buf: Buffer): (h: Option<Head>)
    ensures h.Some? ==> h.value.dataLen <= INT_MAX && |buf| >= HEAD
  {
    if |buf| < HEAD then None
    else
      var numCols, numRows, dataLen := IntAt(buf, 8, 4), IntAt(buf, 12, 4), IntAt(buf, 16, 4);
      IntRange(buf, 16);
      if numCols < 0 || numCols > MAX_COLS || numRows < 0 || numRows > MAX_ROWS then None
      else if dataLen < 0 || Sum32(HEAD, dataLen) > |buf| then None
      else Some(Head(numCols, numRows, dataLen))
  }

  lemma {:induction false} IntRange(src: Buffer, p: nat)
    requires p + 4 <= |src|
    ensures IntAt(src, p, 4) <= INT_MAX
  {
    FromBEBound(src[p..p + 4]);
    assert Pow256(4) == 256 * Pow256(3) && Pow256(3) == 256 * Pow256(2);
  }

  /** The data area.  `behind` stands for the memory after the buffer. */
  function DataOf(buf: Buffer, dataLen: nat, behind: nat -> byte): (data: Buffer)
    requires |buf| >= HEAD
    ensures |data| == dataLen
  {
    if HEAD + dataLen <= |buf| then buf[HEAD..HEAD + dataLen]
    else buf[HEAD..] + seq(HEAD + dataLen - |buf|, i requires i >= 0 => behind(i))
  }

  /** The streaming prefix is recognised by its magic number. */
  function HasStream(data: Buffer): bool { |data| >= STREAM_META && UIntAt(data, 0, 4) == STREAM_MAGIC }

  function ReadStream(data: Buffer): Stream {
    if HasStream(data) then Stream(IntAt(data, 4, 8), IntAt(data, 12, 8), data[20] != 0) else ONE_SHOT
  }

  function StreamEnd(data: Buffer): (p: nat)
    ensures p <= |data|
  {
    if HasStream(data) then STREAM_META else 0
  }

  datatype FieldsRead = FieldsRead(fields: seq<Field>, next: nat)

  function ReadFields(src: Buffer, p: nat, n: nat, fields: seq<Field>): (r: Option<FieldsRead>)
    requires |fields| <= n && p <= |src|
    ensures r.Some? ==> |r.value.fields| == n && r.value.next <= |src|
    decreases n - |fields|
  {
    if |fields| == n then Some(FieldsRead(fields, p))
    else if p + 2 > |src| then None
    else
      var k := UIntAt(src, p, 2);
      if p + 2 + k + 1 > |src| then None
      else ReadFields(src, p + 2 + k + 1, n, fields + [Field(src[p + 2..p + 2 + k], src[p + 2 + k])])
  }

  datatype RawFieldsRead = RawFieldsRead(fields: seq<RawField>, next: nat)

  function ReadRawFields(src: Buffer, p: nat, n: nat, fields: seq<RawField>): (r: Option<RawFieldsRead>)
    requires |fields| <= n && p <= |src|
    ensures r.Some? ==> |r.value.fields| == n && r.value.next <= |src|
    decreases n - |fields|
  {
    if |fields| == n then Some(RawFieldsRead(fields, p))
    else if p + 2 > |src| then None
    else
      var k := UIntAt(src, p, 2);
      if p + 2 + k + 9 > |src| then None
      else ReadRawFields(src, p + 2 + k + 9, n, fields + [ReadRawField(src, p + 2, k)])
  }

  function ReadRawField(src: Buffer, p: nat, k: nat): RawField
    requires p + k + 9 <= |src|
  {
    RawField(src[p..p + k], src[p + k], IntAt(src, p + k + 1, 4), IntAt(src, p + k + 5, 4))
  }

  function Types(fields: seq<Field>): (types: seq<byte>)
    ensures |types| == |fields|
  {
    seq(|fields|, i requires 0 <= i < |fields| => fields[i].t)
  }

  function ReadTagged(data: Buffer, p: nat, h: Head): Option<Message>
    requires p <= |data|
  {
    var f := ReadFields(data, p, h.numCols, []);
    if f.None? then None
    else
      var r := ReadRows(data, f.value.next, Types(f.value.fields), h.numRows, []);
      if r.None? then None else Some(Tagged(ReadStream(data), f.value.fields, r.value.rows))
  }

  function ReadRaw(data: Buffer, p: nat, h: Head): Option<Message>
    requires p <= |data|
  {
    if p + 4 > |data| || h.numCols == 0 then None
    else if IntAt(data, p, 4) <= 0 then None
    else
      var f := ReadRawFields(data, p + 4, h.numCols, []);
      if f.None? then None else ReadBlock(data, f.value, IntAt(data, p, 4), h.numRows)
  }

  /** The row images, when they are all there. */
  function ReadBlock(data: Buffer, f: RawFieldsRead, stride: nat, rows: nat): Option<Message>
    requires f.next <= |data|
  {
    var need := SlotAt(stride, rows);
    if f.next + need > |data| then None
    else Some(Raw(ReadStream(data), f.fields, stride, rows, data[f.next..f.next + need]))
  }

  function ReadData(data: Buffer, h: Head): Option<Message> {
    var p := StreamEnd(data);
    if p >= |data| then None
    else if data[p] == LAYOUT_RAW_BLOCK then ReadRaw(data, p + 1, h)
    else if data[p] == LAYOUT_TAG_ROWS then ReadTagged(data, p + 1, h)
    else None
  }

  /** The whole message, as it is read when `behind` follows the buffer in memory. */
  function ReadMessage(buf: Buffer, behind: nat -> byte): Option<Message> {
    var h := ReadHead(buf);
    if h.None? then None else ReadData(DataOf(buf, h.value.dataLen, behind), h.value)
  }

  // ---------------------------------------------------------------- the length check

  /** The length check refuses exactly the messages whose data is not all there, if and only
      if the announced length leaves room for the head. */
  lemma {:induction false} LengthCheckIff(buf: Buffer)
    requires CountsInRange(buf) && |buf| <= INT_MAX
    ensures (ReadHead(buf).Some? <==> 20 + IntAt(buf, 16, 4) <= |buf|) <==> IntAt(buf, 16, 4) <= 0x7fff_ffff - 20
  {
    hide IntAt;
    IntRange(buf, 16);
  }

  /** Other counts are refused. */
  lemma {:induction false} CountsRefused(buf: Buffer)
    requires !CountsInRange(buf)
    ensures ReadHead(buf).None?
  {
    hide IntAt;
  }

  /** Below that length what is read does not depend on the memory behind the buffer. */
  lemma {:induction false} BehindIsUnread(buf: Buffer, behind: nat -> byte, other: nat -> byte)
    requires |buf| <= INT_MAX && (|buf| >= HEAD ==> IntAt(buf, 16, 4) <= INT_MAX - HEAD)
    ensures ReadMessage(buf, behind) == ReadMessage(buf, other)
  {
    hide IntAt, ReadData;
  }

  /** 21 bytes that announce 2^31 - 1 bytes of data. */
  function Overlong(): Buffer {
    [0, 0, 0, 0, 0, 0, 0, 0] + [0, 0, 0, 0] + [0, 0, 0, 0] + [127, 255, 255, 255] + [0]
  }

  /** They are accepted, whatever the memory behind them holds. */
  lemma {:induction false} OverlongAccepted(behind: nat -> byte)
    ensures |Overlong()| == 21 && ReadMessage(Overlong(), behind) == Some(Tagged(ONE_SHOT, [], []))
  {
    hide IntAt, DataOf, HasStream;
    OverlongHead();
    var data := DataOf(Overlong(), INT_MAX, behind);
    assert data[0] == LAYOUT_TAG_ROWS by { OverlongData(behind); }
    NoMagic(data);
    var none: seq<Field> := [];
    assert Types(none) == [];
    assert ReadFields(data, 1, 0, none) == Some(FieldsRead(none, 1));
  }

  lemma {:induction false} OverlongData(behind: nat -> byte)
    ensures DataOf(Overlong(), INT_MAX, behind)[0] == LAYOUT_TAG_ROWS
  {}

  lemma {:induction false} OverlongHead()
    ensures ReadHead(Overlong()) == Some(Head(0, 0, INT_MAX))
  {
    hide IntAt;
    var buf := Overlong();
    assert buf[8..12] == [0, 0, 0, 0] && buf[12..16] == [0, 0, 0, 0] && buf[16..20] == [127, 255, 255, 255];
    SmallNumber(buf, 8, 0);
    SmallNumber(buf, 12, 0);
    LargestNumber(buf, 16);
  }

  lemma {:induction false} LargestNumber(src: Buffer, p: nat)
    requires p + 4 <= |src| && src[p..p + 4] == [127, 255, 255, 255]
    ensures IntAt(src, p, 4) == INT_MAX
  {
    var w := src[p..p + 4];
    assert w[..3][..2][..1] == [127] && FromBE([127]) == 127;
    assert FromBE(w[..3][..2]) == FromBE(w[..3][..2][..1]) * 256 + w[1];
    assert FromBE(w[..3]) == FromBE(w[..3][..2]) * 256 + w[2];
    assert FromBE(w) == FromBE(w[..3]) * 256 + w[3];
    SmallCount(INT_MAX);
  }

  // ---------------------------------------------------------------- writing

  predicate ValidField(f: Field) { |f.name| < Pow256(2) }

  function WriteField(f: Field): Buffer { ToBE(|f.name|, 2) + f.name + [f.t] }

  function WriteFields(fields: seq<Field>): Buffer {
    if fields == [] then [] else WriteField(fields[0]) + WriteFields(fields[1..])
  }

  function WriteStream(s: Option<Stream>): Buffer
    requires s.Some? ==> InSigned(s.value.qId, 8) && InSigned(s.value.total, 8)
  {
    if s.None? then []
    else ToBE(STREAM_MAGIC, 4) + ToBE(ToUnsigned(s.value.qId, 8), 8) + ToBE(ToUnsigned(s.value.total, 8), 8) +
         [if s.value.ended then 1 else 0, 0, 0, 0]
  }

  predicate Writable(s: Option<Stream>, fields: seq<Field>, rows: seq<Row>) {
    (s.Some? ==> InSigned(s.value.qId, 8) && InSigned(s.value.total, 8)) &&
    |fields| <= MAX_COLS && |rows| <= MAX_ROWS &&
    (forall c :: 0 <= c < |fields| ==> ValidField(fields[c])) &&
    (forall r :: 0 <= r < |rows| ==> ValidRow(Types(fields), rows[r]))
  }

  function WriteData(s: Option<Stream>, fields: seq<Field>, rows: seq<Row>): Buffer
    requires Writable(s, fields, rows)
  {
    WriteStream(s) + ([LAYOUT_TAG_ROWS] + WriteFields(fields) + EncodeRows(Types(fields), rows))
  }

  function WriteHead(numCols: nat, numRows: nat, dataLen: nat): Buffer
    requires numCols < 0x8000_0000 && numRows < 0x8000_0000 && dataLen < 0x8000_0000
  {
    ToBE(0, 8) + ToBE(numCols, 4) + ToBE(numRows, 4) + ToBE(dataLen, 4)
  }

  /** A tagged response as the server writes it. */
  function WriteMessage(s: Option<Stream>, fields: seq<Field>, rows: seq<Row>): Buffer
    requires Writable(s, fields, rows) && |WriteData(s, fields, rows)| < 0x8000_0000
  {
    WriteHead(|fields|, |rows|, |WriteData(s, fields, rows)|) + WriteData(s, fields, rows)
  }

  // ---------------------------------------------------------------- what is written reads back

  lemma {:induction false} FieldReadsBack(src: Buffer, p: nat, f: Field)
    requires ValidField(f) && At(src, p, WriteField(f))
    ensures p + 2 + |f.name| + 1 == p + |WriteField(f)| <= |src| && UIntAt(src, p, 2) == |f.name|
    ensures Field(src[p + 2..p + 2 + |f.name|], src[p + 2 + |f.name|]) == f
  {
    hide UIntAt, ToBE;
    AtConcat(src, p, ToBE(|f.name|, 2) + f.name, [f.t]);
    AtConcat(src, p, ToBE(|f.name|, 2), f.name);
    UIntReadsBack(src, p, |f.name|, 2);
    AtSlice(src, p + 2, f.name);
    assert src[p + 2 + |f.name|] == [f.t][0];
  }

  lemma {:induction false} FieldsReadBack(src: Buffer, p: nat, fields: seq<Field>, k: nat)
    requires forall c :: 0 <= c < |fields| ==> ValidField(fields[c])
    requires k <= |fields| && At(src, p, WriteFields(fields[k..]))
    ensures ReadFields(src, p, |fields|, fields[..k]) == Some(FieldsRead(fields, p + |WriteFields(fields[k..])|))
    decreases |fields| - k
  {
    hide UIntAt, WriteField, ValidField;
    if k == |fields| {
      assert fields[..k] == fields;
    } else {
      var f := fields[k];
      assert fields[k..][0] == f && fields[k..][1..] == fields[k + 1..];
      AtConcat(src, p, WriteField(f), WriteFields(fields[k + 1..]));
      FieldReadsBack(src, p, f);
      assert fields[..k] + [f] == fields[..k + 1];
      FieldsReadBack(src, p + |WriteField(f)|, fields, k + 1);
    }
  }

  lemma {:induction false} HeadReadsBack(buf: Buffer, numCols: nat, numRows: nat, dataLen: nat)
    requires numCols <= MAX_COLS && numRows <= MAX_ROWS && dataLen < 0x8000_0000
    requires At(buf, 0, WriteHead(numCols, numRows, dataLen)) && |buf| == HEAD + dataLen
    ensures ReadHead(buf) == Some(Head(numCols, numRows, dataLen))
  {
    hide IntAt, ToBE, Pow256;
    SmallCount(numCols);
    SmallCount(numRows);
    SmallCount(dataLen);
    AtConcat(buf, 0, ToBE(0, 8) + ToBE(numCols, 4) + ToBE(numRows, 4), ToBE(dataLen, 4));
    AtConcat(buf, 0, ToBE(0, 8) + ToBE(numCols, 4), ToBE(numRows, 4));
    AtConcat(buf, 0, ToBE(0, 8), ToBE(numCols, 4));
    IntReadsBack(buf, 8, numCols, 4);
    IntReadsBack(buf, 12, numRows, 4);
    IntReadsBack(buf, 16, dataLen, 4);
  }

  lemma {:induction false} SmallCount(n: nat)
    requires n < 0x8000_0000
    ensures InSigned(n, 4) && ToUnsigned(n, 4) == n
  {
    assert Pow256(4) == 256 * Pow256(3) && Pow256(3) == 256 * Pow256(2);
  }

  /** The prefix is seen exactly when it was written: a layout byte never looks like it. */
  lemma {:induction false} StreamReadsBack(data: Buffer, s: Option<Stream>, body: Buffer)
    requires s.Some? ==> InSigned(s.value.qId, 8) && InSigned(s.value.total, 8)
    requires data == WriteStream(s) + body && body != [] && body[0] in {LAYOUT_TAG_ROWS, LAYOUT_RAW_BLOCK}
    ensures StreamEnd(data) == |WriteStream(s)|
    ensures ReadStream(data) == if s.None? then ONE_SHOT else s.value
  {
    hide IntAt, ToBE, Pow256, InSigned;
    if s.None? {
      NoMagic(data);
    } else {
      var q, t := ToBE(ToUnsigned(s.value.qId, 8), 8), ToBE(ToUnsigned(s.value.total, 8), 8);
      var e: Buffer := [if s.value.ended then 1 else 0, 0, 0, 0];
      AtPrefix(data, [], WriteStream(s));
      AtConcat(data, 0, ToBE(STREAM_MAGIC, 4) + q + t, e);
      AtConcat(data, 0, ToBE(STREAM_MAGIC, 4) + q, t);
      AtConcat(data, 0, ToBE(STREAM_MAGIC, 4), q);
      SmallCount(STREAM_MAGIC);
      UIntReadsBack(data, 0, STREAM_MAGIC, 4);
      IntReadsBack(data, 4, s.value.qId, 8);
      IntReadsBack(data, 12, s.value.total, 8);
      assert data[20] == e[0];
    }
  }

  /** The prefix is 24 bytes and starts with STRM. */
  lemma {:induction false} StreamPrefix(s: Stream)
    requires InSigned(s.qId, 8) && InSigned(s.total, 8)
    ensures |WriteStream(Some(s))| == 24 && WriteStream(Some(s))[..4] == [0x53, 0x54, 0x52, 0x4D]
  {
    hide InSigned, ToUnsigned;
    assert ToBE(STREAM_MAGIC, 4) == ToBE(0x535452, 3) + [0x4D];
    assert ToBE(0x535452, 3) == ToBE(0x5354, 2) + [0x52];
    assert ToBE(0x5354, 2) == ToBE(0x53, 1) + [0x54];
    assert ToBE(0x53, 1) == ToBE(0, 0) + [0x53];
  }

  lemma {:induction false} NoMagic(data: Buffer)
    requires data != [] && data[0] in {LAYOUT_TAG_ROWS, LAYOUT_RAW_BLOCK}
    ensures !HasStream(data)
  {
    if |data| >= 4 {
      var w := data[0..4];
      assert w[..3][..2][..1] == [data[0]] && FromBE([data[0]]) == data[0];
      assert FromBE(w) == FromBE(w[..3]) * 256 + w[3];
      assert FromBE(w[..3]) == FromBE(w[..3][..2]) * 256 + w[2];
      assert FromBE(w[..3][..2]) == FromBE(w[..3][..2][..1]) * 256 + w[1];
    }
  }

  lemma {:induction false} DataReadsBack(s: Option<Stream>, fields: seq<Field>, rows: seq<Row>, dataLen: nat)
    requires Writable(s, fields, rows)
    ensures ReadData(WriteData(s, fields, rows), Head(|fields|, |rows|, dataLen)) ==
            Some(Tagged(if s.None? then ONE_SHOT else s.value, fields, rows))
  {
    hide WriteStream, ReadStream, StreamEnd, ReadFields, ReadRows, ReadRaw, WriteFields, EncodeRows, Types, ValidField,
      ValidRow;
    var f, r := WriteFields(fields), EncodeRows(Types(fields), rows);
    var body, data := [LAYOUT_TAG_ROWS] + f + r, WriteData(s, fields, rows);
    StreamReadsBack(data, s, body);
    var p := |WriteStream(s)|;
    AtPrefix(data, WriteStream(s), body);
    assert data[p] == body[0];
    AtConcat(data, p, [LAYOUT_TAG_ROWS] + f, r);
    AtConcat(data, p, [LAYOUT_TAG_ROWS], f);
    assert fields[0..] == fields && fields[..0] == [] && rows[0..] == rows && rows[..0] == [];
    FieldsReadBack(data, p + 1, fields, 0);
    RowsReadBack(data, p + 1 + |f|, Types(fields), rows, 0);
  }

  /** Every tagged response reads back: the stream state, the columns, every cell. */
  lemma {:induction false} MessageReadsBack(s: Option<Stream>, fields: seq<Field>, rows: seq<Row>, behind: nat -> byte)
    requires Writable(s, fields, rows) && |WriteData(s, fields, rows)| < 0x8000_0000
    ensures ReadMessage(WriteMessage(s, fields, rows), behind) ==
            Some(Tagged(if s.None? then ONE_SHOT else s.value, fields, rows))
  {
    hide WriteHead, WriteData, ReadHead, ReadData, Writable;
    var data, buf := WriteData(s, fields, rows), WriteMessage(s, fields, rows);
    Limits(s, fields, rows);
    HeadLength(|fields|, |rows|, |data|);
    AtPrefix(buf, [], WriteHead(|fields|, |rows|, |data|));
    HeadReadsBack(buf, |fields|, |rows|, |data|);
    assert buf[HEAD..HEAD + |data|] == data;
    DataReadsBack(s, fields, rows, |data|);
  }

  lemma {:induction false} Limits(s: Option<Stream>, fields: seq<Field>, rows: seq<Row>)
    requires Writable(s, fields, rows)
    ensures |fields| <= MAX_COLS && |rows| <= MAX_ROWS
  {}

  lemma {:induction false} HeadLength(numCols: nat, numRows: nat, dataLen: nat)
    requires numCols < 0x8000_0000 && numRows < 0x8000_0000 && dataLen < 0x8000_0000
    ensures |WriteHead(numCols, numRows, dataLen)| == HEAD
  {}

  // ---------------------------------------------------------------- what is not checked

  /** One BIGINT column of 8 bytes in rows of one byte. */
  function NarrowRow(): Buffer {
    [0, 0, 0, 0, 0, 0, 0, 0] + [0, 0, 0, 1] + [0, 0, 0, 1] + [0, 0, 0, 17] + NarrowData()
  }

  function NarrowData(): Buffer { [1] + [0, 0, 0, 1] + [0, 0] + [5] + [0, 0, 0, 8] + [0, 0, 0, 0] + [0] }

  lemma {:induction false} SmallNumber(src: Buffer, p: nat, b: byte)
    requires p + 4 <= |src| && src[p..p + 4] == [0, 0, 0, b] && b < 128
    ensures IntAt(src, p, 4) == b
  {
    var w := src[p..p + 4];
    assert w[..3][..2][..1] == [0] && FromBE([0]) == 0;
    assert FromBE(w[..3][..2]) == FromBE(w[..3][..2][..1]) * 256 + w[1];
    assert FromBE(w[..3]) == FromBE(w[..3][..2]) * 256 + w[2];
    assert FromBE(w) == FromBE(w[..3]) * 256 + w[3];
    SmallCount(b);
  }

  lemma {:induction false} NarrowHead()
    ensures |NarrowRow()| == 37 && ReadHead(NarrowRow()) == Some(Head(1, 1, 17)) &&
      NarrowRow()[HEAD..37] == NarrowData()
  {
    hide IntAt;
    var buf := NarrowRow();
    assert buf[8..12] == [0, 0, 0, 1] && buf[12..16] == [0, 0, 0, 1] && buf[16..20] == [0, 0, 0, 17];
    SmallNumber(buf, 8, 1);
    SmallNumber(buf, 12, 1);
    SmallNumber(buf, 16, 17);
  }

  /** The slot descriptors of a raw batch are taken as they come: this message is accepted. */
  lemma {:induction false} NarrowRowAccepted(behind: nat -> byte)
    ensures ReadMessage(NarrowRow(), behind) == Some(Raw(ONE_SHOT, [RawField([], 5, 8, 0)], 1, 1, [0]))
  {
    hide IntAt, ReadHead, NarrowRow, UIntAt;
    NarrowHead();
    var data := NarrowData();
    assert data[1..5] == [0, 0, 0, 1] && data[8..12] == [0, 0, 0, 8] && data[12..16] == [0, 0, 0, 0];
    SmallNumber(data, 1, 1);
    SmallNumber(data, 8, 8);
    SmallNumber(data, 12, 0);
    NoName(data, 5);
    assert ReadRawField(data, 7, 0) == RawField([], 5, 8, 0);
    var none: seq<RawField> := [];
    assert none + [RawField([], 5, 8, 0)] == [RawField([], 5, 8, 0)];
    assert ReadRawFields(data, 16, 1, [RawField([], 5, 8, 0)]) == Some(RawFieldsRead([RawField([], 5, 8, 0)], 16));
    assert ReadRawFields(data, 5, 1, []) == Some(RawFieldsRead([RawField([], 5, 8, 0)], 16));
    assert SlotAt(1, 1) == 1 && data[16..17] == [0];
  }

  lemma {:induction false} NoName(src: Buffer, p: nat)
    requires p + 2 <= |src| && src[p..p + 2] == [0, 0]
    ensures UIntAt(src, p, 2) == 0
  {
    var w := src[p..p + 2];
    assert w[..1] == [0] && FromBE([0]) == 0;
    assert FromBE(w) == FromBE(w[..1]) * 256 + w[1];
  }
}
