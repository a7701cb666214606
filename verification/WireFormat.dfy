/** Wire v2 of query responses: tagged values, rows, column descriptors, and the writer and
    reader of a response message with row-tag payload. */
module WireFormat {
  import opened Bytes
  import opened Endian

  // ---------------------------------------------------------------- values

  /** A value as the server sends it.  An integer keeps the tag that fixes its width. */
  datatype WireValue = Null | Bool(b: bool) | Integer(tag: byte, v: int) | Float(bits: nat) | Str(bytes: Buffer)

  const VAL_NULL: byte := 0
  const VAL_INT: byte := 1
  const VAL_FLOAT: byte := 2
  const VAL_STRING: byte := 3
  const VAL_BOOL: byte := 4
  const VAL_UINT64: byte := 5
  const VAL_TINYINT: byte := 6
  const VAL_SHORT: byte := 7
  const VAL_BIGINT: byte := 8
  const VAL_UTINYINT: byte := 9
  const VAL_USHORT: byte := 10
  const VAL_UINT32: byte := 11

  datatype Kind = Kind(width: nat, signed: bool)

  function KindOf(tag: byte): (k: Option<Kind>)
    ensures k.Some? ==> k.value.width in {1, 2, 4, 8}
  {
    match tag
    case VAL_TINYINT => Some(Kind(1, true))
    case VAL_UTINYINT => Some(Kind(1, false))
    case VAL_SHORT => Some(Kind(2, true))
    case VAL_USHORT => Some(Kind(2, false))
    case VAL_INT => Some(Kind(4, true))
    case VAL_UINT32 => Some(Kind(4, false))
    case VAL_BIGINT => Some(Kind(8, true))
    case VAL_UINT64 => Some(Kind(8, false))
    case _ => None
  }

  /** The values a field of that kind can hold. */
  predicate InKind(v: int, k: Kind) {
    if k.signed then InSigned(v, k.width) else 0 <= v < Pow256(k.width)
  }

  predicate ValidValue(v: WireValue) {
    match v
    case Null => true
    case Bool(_) => true
    case Integer(tag, n) => KindOf(tag).Some? && InKind(n, KindOf(tag).value)
    case Float(bits) => bits < Pow256(8)
    case Str(bytes) => |bytes| < Pow256(4)
  }

  function KindBytes(v: int, k: Kind): (s: Buffer)
    requires InKind(v, k)
    ensures |s| == k.width
  {
    ToBE(if k.signed then ToUnsigned(v, k.width) else v, k.width)
  }

  function KindValue(s: Buffer, signed: bool): int {
    if signed then ToSigned(FromBE(s), |s|) else FromBE(s)
  }

  function Encode(v: WireValue): (s: Buffer)
    requires ValidValue(v)
    ensures s != []
  {
    match v
    case Null => [VAL_NULL]
    case Bool(b) => [VAL_BOOL, if b then 1 else 0]
    case Integer(tag, n) => [tag] + KindBytes(n, KindOf(tag).value)
    case Float(bits) => [VAL_FLOAT] + ToBE(bits, 8)
    case Str(bytes) => [VAL_STRING] + ToBE(|bytes|, 4) + bytes
  }

  /** The bytes of every value as the protocol lists them. */
  lemma {:induction false} EncodedBytes(v: WireValue)
    requires ValidValue(v)
    ensures var s := Encode(v);
            match v
            case Null => s == [0]
            case Bool(b) => s == [4, if b then 1 else 0]
            case Integer(tag, n) =>
              s[0] == tag && (n < 0 ==> tag in {1, 6, 7, 8}) &&
              |s| == 1 + (if tag in {6, 9} then 1 else if tag in {7, 10} then 2 else if tag in {1, 11} then 4 else 8) &&
              tag in {1, 5, 6, 7, 8, 9, 10, 11} && FromBE(s[1..]) == if n < 0 then n + Pow256(|s| - 1) else n
            case Float(bits) => s[0] == 2 && |s| == 9 && FromBE(s[1..]) == bits
            case Str(bytes) => s[0] == 3 && |s| == 5 + |bytes| && FromBE(s[1..5]) == |bytes| && s[5..] == bytes
  {
    hide ToBE, FromBE, Pow256;
    var s := Encode(v);
    match v
    case Null =>
    case Bool(_) =>
    case Integer(tag, n) =>
      var k := KindOf(tag).value;
      assert s[1..] == KindBytes(n, k);
      BigEndianReadsBack(if k.signed then ToUnsigned(n, k.width) else n, k.width);
    case Float(bits) =>
      assert s[1..] == ToBE(bits, 8);
      BigEndianReadsBack(bits, 8);
    case Str(bytes) =>
      assert s[1..5] == ToBE(|bytes|, 4) && s[5..] == bytes;
      BigEndianReadsBack(|bytes|, 4);
  }

  /** The integers each tag carries. */
  lemma {:induction false} TagRanges(n: int)
    ensures ValidValue(Integer(6, n)) <==> -0x80 <= n < 0x80
    ensures ValidValue(Integer(9, n)) <==> 0 <= n < 0x100
    ensures ValidValue(Integer(7, n)) <==> -0x8000 <= n < 0x8000
    ensures ValidValue(Integer(10, n)) <==> 0 <= n < 0x1_0000
    ensures ValidValue(Integer(1, n)) <==> -0x8000_0000 <= n < 0x8000_0000
    ensures ValidValue(Integer(11, n)) <==> 0 <= n < 0x1_0000_0000
    ensures ValidValue(Integer(8, n)) <==> -0x8000_0000_0000_0000 <= n < 0x8000_0000_0000_0000
    ensures ValidValue(Integer(5, n)) <==> 0 <= n < 0x1_0000_0000_0000_0000
  {
    hide Pow256;
    Powers();
  }

  datatype Read = Read(v: WireValue, next: nat)

  /** The value at index p and the index after it; None for a cut or an unknown value. */
  function ReadValue(src: Buffer, p: nat): (r: Option<Read>)
    ensures r.Some? ==> p < r.value.next <= |src|
  {
    if p >= |src| then None
    else
      match src[p]
      case VAL_NULL => Some(Read(Null, p + 1))
      case VAL_BOOL => if p + 2 > |src| then None else Some(Read(Bool(src[p + 1] != 0), p + 2))
      case VAL_FLOAT => if p + 9 > |src| then None else Some(Read(Float(FromBE(src[p + 1..p + 9])), p + 9))
      case VAL_STRING => ReadString(src, p)
      case tag =>
        match KindOf(tag)
        case None => None
        case Some(k) =>
          if p + 1 + k.width > |src| then None
          else Some(Read(Integer(tag, KindValue(src[p + 1..p + 1 + k.width], k.signed)), p + 1 + k.width))
  }

  function ReadString(src: Buffer, p: nat): (r: Option<Read>)
    requires p < |src|
    ensures r.Some? ==> p + 5 <= r.value.next <= |src|
  {
    if p + 5 > |src| then None
    else
      var n := FromBE(src[p + 1..p + 5]);
      if |src| - p - 5 < n then None else Some(Read(Str(src[p + 5..p + 5 + n]), p + 5 + n))
  }

  lemma {:induction false} KindReadsBack(v: int, k: Kind)
    requires InKind(v, k)
    ensures KindValue(KindBytes(v, k), k.signed) == v
  {
    BigEndianReadsBack(if k.signed then ToUnsigned(v, k.width) else v, k.width);
  }

  /** A written value reads back. */
  lemma {:induction false} ValueReadsBack(src: Buffer, p: nat, v: WireValue)
    requires ValidValue(v) && At(src, p, Encode(v))
    ensures ReadValue(src, p) == Some(Read(v, p + |Encode(v)|))
  {
    hide ToBE, FromBE, KindValue, KindBytes, Pow256, InSigned;
    assert src[p] == Encode(v)[0];
    match v
    case Null =>
    case Bool(b) => assert src[p + 1] == Encode(v)[1];
    case Integer(tag, n) => IntegerReadsBack(src, p, tag, n);
    case Float(bits) =>
      AtConcat(src, p, [VAL_FLOAT], ToBE(bits, 8));
      AtSlice(src, p + 1, ToBE(bits, 8));
      BigEndianReadsBack(bits, 8);
    case Str(bytes) =>
      AtConcat(src, p, [VAL_STRING] + ToBE(|bytes|, 4), bytes);
      AtConcat(src, p, [VAL_STRING], ToBE(|bytes|, 4));
      AtSlice(src, p + 1, ToBE(|bytes|, 4));
      AtSlice(src, p + 5, bytes);
      BigEndianReadsBack(|bytes|, 4);
  }

  lemma {:induction false} IntegerReadsBack(src: Buffer, p: nat, tag: byte, n: int)
    requires ValidValue(Integer(tag, n)) && At(src, p, Encode(Integer(tag, n)))
    ensures ReadValue(src, p) == Some(Read(Integer(tag, n), p + |Encode(Integer(tag, n))|))
  {
    hide ToBE, FromBE, KindValue, KindBytes, Pow256, InSigned;
    var k := KindOf(tag).value;
    assert src[p] == Encode(Integer(tag, n))[0];
    AtConcat(src, p, [tag], KindBytes(n, k));
    AtSlice(src, p + 1, KindBytes(n, k));
    KindReadsBack(n, k);
  }

  lemma {:induction false} KindValueValid(s: Buffer, k: Kind)
    requires |s| == k.width > 0
    ensures InKind(KindValue(s, k.signed), k)
  {
    hide FromBE;
    FromBEBound(s);
    assert Pow256(|s|) == 2 * (128 * Pow256(|s| - 1));
  }

  /** Whatever is read is a value its tag can carry. */
  lemma {:induction false} ReadValueValid(src: Buffer, p: nat)
    requires ReadValue(src, p).Some?
    ensures ValidValue(ReadValue(src, p).value.v)
  {
    hide FromBE, KindValue, Pow256, InKind;
    match src[p]
    case VAL_NULL =>
    case VAL_BOOL =>
    case VAL_FLOAT => FromBEBound(src[p + 1..p + 9]);
    case VAL_STRING => FromBEBound(src[p + 1..p + 5]);
    case tag =>
      var k := KindOf(tag).value;
      KindValueValid(src[p + 1..p + 1 + k.width], k);
  }

  // ---------------------------------------------------------------- column shapes

  datatype Rep = RepInt | RepUInt | RepFloat | RepBool | RepString

  datatype Store = Store(rep: Rep, width: nat)

  /** How a column of a wire type is stored: signed, unsigned, float, bool or string. */
  function StoreOf(t: byte): (s: Store)
    ensures s.rep.RepString? <==> t == 8 || t == 9
    ensures s.width in {0, 1, 2, 4, 8} && (s.width == 0 <==> s.rep.RepString?)
    ensures s.rep.RepBool? ==> s.width == 1
    ensures s.rep.RepFloat? ==> s.width == 4 || s.width == 8
  {
    match t
    case 1 => Store(RepBool, 1)
    case 2 => Store(RepInt, 1)
    case 10 => Store(RepUInt, 1)
    case 3 => Store(RepInt, 2)
    case 11 => Store(RepUInt, 2)
    case 4 => Store(RepInt, 4)
    case 12 => Store(RepUInt, 4)
    case 13 => Store(RepUInt, 8)
    case 6 => Store(RepFloat, 4)
    case 7 => Store(RepFloat, 8)
    case 8 => Store(RepString, 0)
    case 9 => Store(RepString, 0)
    case _ => Store(RepInt, 8)
  }

  /** Strings go into string columns, everything else into fixed-size ones; NULL anywhere. */
  predicate Accepts(t: byte, v: WireValue) {
    v.Null? || (v.Str? <==> StoreOf(t).rep.RepString?)
  }

  // ---------------------------------------------------------------- rows

  type Row = seq<WireValue>

  predicate ValidRow(types: seq<byte>, row: Row) {
    |row| == |types| && forall c :: 0 <= c < |row| ==> ValidValue(row[c]) && Accepts(types[c], row[c])
  }

  function EncodeRow(row: Row): Buffer
    requires forall c :: 0 <= c < |row| ==> ValidValue(row[c])
  {
    if row == [] then [] else Encode(row[0]) + EncodeRow(row[1..])
  }

  function EncodeRows(types: seq<byte>, rows: seq<Row>): Buffer
    requires forall r :: 0 <= r < |rows| ==> ValidRow(types, rows[r])
  {
    if rows == [] then []
    else
      assert ValidRow(types, rows[0]);
      EncodeRow(rows[0]) + EncodeRows(types, rows[1..])
  }

  datatype RowRead = RowRead(row: Row, next: nat)

  /** The rest of a row whose first cells are already read. */
  function ReadRow(src: Buffer, p: nat, types: seq<byte>, row: Row): (r: Option<RowRead>)
    requires |row| <= |types|
    ensures r.Some? ==> |r.value.row| == |types| && p <= r.value.next
    decreases |types| - |row|
  {
    if |row| == |types| then Some(RowRead(row, p))
    else
      var got := ReadValue(src, p);
      if got.None? || !Accepts(types[|row|], got.value.v) then None
      else ReadRow(src, got.value.next, types, row + [got.value.v])
  }

  datatype RowsRead = RowsRead(rows: seq<Row>, next: nat)

  function ReadRows(src: Buffer, p: nat, types: seq<byte>, n: nat, rows: seq<Row>): (r: Option<RowsRead>)
    requires |rows| <= n
    ensures r.Some? ==> |r.value.rows| == n
    decreases n - |rows|
  {
    if |rows| == n then Some(RowsRead(rows, p))
    else
      var got := ReadRow(src, p, types, []);
      if got.None? then None else ReadRows(src, got.value.next, types, n, rows + [got.value.row])
  }

  lemma {:induction false} RowReadsBack(src: Buffer, p: nat, types: seq<byte>, row: Row, k: nat)
    requires ValidRow(types, row) && k <= |row| && At(src, p, EncodeRow(row[k..]))
    ensures ReadRow(src, p, types, row[..k]) == Some(RowRead(row, p + |EncodeRow(row[k..])|))
    decreases |row| - k
  {
    hide ValidValue, Encode, ReadValue, Accepts;
    if k == |row| {
      assert row[..k] == row;
    } else {
      var v := row[k];
      assert row[k..][0] == v && row[k..][1..] == row[k + 1..];
      AtConcat(src, p, Encode(v), EncodeRow(row[k + 1..]));
      ValueReadsBack(src, p, v);
      assert row[..k] + [v] == row[..k + 1];
      RowReadsBack(src, p + |Encode(v)|, types, row, k + 1);
    }
  }

  lemma {:induction false} RowsReadBack(src: Buffer, p: nat, types: seq<byte>, rows: seq<Row>, k: nat)
    requires forall r :: 0 <= r < |rows| ==> ValidRow(types, rows[r])
    requires k <= |rows| && At(src, p, EncodeRows(types, rows[k..]))
    ensures ReadRows(src, p, types, |rows|, rows[..k]) == Some(RowsRead(rows, p + |EncodeRows(types, rows[k..])|))
    decreases |rows| - k
  {
    hide ValidRow, EncodeRow, ReadRow;
    if k == |rows| {
      assert rows[..k] == rows;
    } else {
      var row := rows[k];
      assert rows[k..][0] == row && rows[k..][1..] == rows[k + 1..];
      assert ValidRow(types, row);
      RowCells(types, row);
      AtConcat(src, p, EncodeRow(row), EncodeRows(types, rows[k + 1..]));
      assert row[0..] == row && row[..0] == [];
      RowReadsBack(src, p, types, row, 0);
      assert rows[..k] + [row] == rows[..k + 1];
      RowsReadBack(src, p + |EncodeRow(row)|, types, rows, k + 1);
    }
  }

  lemma {:induction false} RowCells(types: seq<byte>, row: Row)
    requires ValidRow(types, row)
    ensures |row| == |types| && forall c :: 0 <= c < |row| ==> ValidValue(row[c])
  {}
}
