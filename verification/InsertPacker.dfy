/** The VALUES packer: row groups scanned and serialised straight into the message buffer. */
module InsertPacker {
  import opened Bytes
  import opened Endian
  import opened InsertNumbers
  import opened InsertScanner

  // ---------------------------------------------------------------- columns and their slots

  datatype Col = Col(t: byte, bytes: int)

  function ColSize(c: Col): (n: nat)
    ensures n > 0
  {
    match c.t
    case 4 => 4
    case 12 => 4
    case 6 => 4
    case 3 => 2
    case 11 => 2
    case 2 => 1
    case 10 => 1
    case 1 => 1
    case 8 => if c.bytes > 0 then c.bytes else 8
    case 9 => if c.bytes > 0 then c.bytes else 8
    case _ => 8
  }

  type Schema = s: seq<Col> | s == [] || s[0].t == 0 witness []

  /** Slot size of value number vi; values beyond the known columns take 8 bytes. */
  function SizeOf(schema: Schema, vi: nat): (n: nat)
    ensures n > 0 && (vi == 0 ==> n == 8)
  {
    if vi < |schema| then ColSize(schema[vi]) else 8
  }

  function RowSize(schema: Schema, k: nat): (n: nat)
    ensures k > 0 ==> n >= 8
  {
    if k == 0 then 0 else RowSize(schema, k - 1) + SizeOf(schema, k - 1)
  }

  /** Text to floating-point bit patterns, left to the host. */
  datatype FloatText = FloatText(toFloat: string -> nat, toDouble: string -> nat)

  function UInt64Of(s: string): nat {
    var m := Min(Magnitude(s), UINT64_MAX);
    if IsNegative(s) && m > 0 then UINT64_MAX + 1 - m else m
  }

  /** The low w bytes of a two's-complement number, big-endian. */
  function WrapBE(v: int, w: nat): (b: Buffer)
    ensures |b| == w
  {
    ToBE(v % Pow256(w), w)
  }

  function Chars(s: string): (b: Buffer)
    ensures |b| == |s|
  {
    seq(|s|, i requires 0 <= i < |s| => (s[i] as int) % 256)
  }

  /** A fixed slot: cut to size, padded with zeros. */
  function SlotOf(b: Buffer, n: nat): (s: Buffer)
    ensures |s| == n
  {
    if |b| >= n then b[..n] else b + seq(n - |b|, _ => 0)
  }

  /** The bytes value number vi takes in its row. */
  function CellImage(ft: FloatText, schema: Schema, vi: nat, text: string): (b: Buffer)
    ensures |b| == SizeOf(schema, vi)
  {
    if vi == 0 then WrapBE(if IsTsText(text) then Int64Of(text) else 0, 8)
    else
      match if vi < |schema| then schema[vi].t else 5
      case 4 => WrapBE(Int64Of(text), 4)
      case 12 => WrapBE(UInt64Of(text), 4)
      case 6 => WrapBE(ft.toFloat(text), 4)
      case 7 => WrapBE(ft.toDouble(text), 8)
      case 5 => WrapBE(Int64Of(text), 8)
      case 13 => WrapBE(UInt64Of(text), 8)
      case 3 => WrapBE(Int64Of(text), 2)
      case 11 => WrapBE(UInt64Of(text), 2)
      case 2 => WrapBE(Int64Of(text), 1)
      case 10 => WrapBE(UInt64Of(text), 1)
      case 1 => WrapBE(Int64Of(text), 1)
      case 8 => SlotOf(Chars(text), SizeOf(schema, vi))
      case 9 => SlotOf(Chars(text), SizeOf(schema, vi))
      case _ => WrapBE(ft.toDouble(text), 8)
  }

  type Texts = seq<string>

  function RowImage(ft: FloatText, schema: Schema, texts: Texts): (b: Buffer)
    ensures |b| == RowSize(schema, |texts|)
  {
    if texts == [] then []
    else
      var k := |texts| - 1;
      RowImage(ft, schema, texts[..k]) + CellImage(ft, schema, k, texts[k])
  }

  function Images(ft: FloatText, schema: Schema, rows: seq<Texts>): Buffer {
    if rows == [] then [] else Images(ft, schema, rows[..|rows| - 1]) + RowImage(ft, schema, rows[|rows| - 1])
  }

  // ---------------------------------------------------------------- what a VALUES text means

  datatype Group = Group(texts: Texts, next: nat)

  /** The rest of one row group; it also ends, keeping what it has, with the text. */
  function ReadGroup(s: string, g: nat, texts: Texts): (r: Group)
    requires g <= |s|
    ensures g <= r.next <= |s| && texts <= r.texts
    decreases |s| - g
  {
    match Token(s, g)
    case Eof => Group(texts, |s|)
    case Value(sep, next, text) =>
      if sep == ')' then Group(texts + [text], next) else ReadGroup(s, next, texts + [text])
  }

  /** Spaces and commas between groups. */
  function SkipGap(s: string, i: nat): (j: nat)
    requires i <= |s|
    ensures i <= j <= |s|
    decreases |s| - i
  {
    if i < |s| && (IsSpace(s[i]) || s[i] == ',') then SkipGap(s, i + 1) else i
  }

  datatype Outcome = Rows(rows: seq<Texts>) | Inconsistent

  /** All row groups from g on; the first row fixes the number of columns. */
  function ReadGroups(s: string, g: nat, rows: seq<Texts>): Outcome
    requires g <= |s|
    decreases |s| - g
  {
    if g >= |s| || s[g] != '(' then Rows(rows)
    else
      var group := ReadGroup(s, g + 1, []);
      if rows != [] && |group.texts| != |rows[0]| then Inconsistent
      else if group.texts == [] then Rows(rows)
      else ReadGroups(s, SkipGap(s, group.next), rows + [group.texts])
  }

  // ---------------------------------------------------------------- storing one value

  /** The switch over column types, through the span converters. */
  method ValueBytes(ft: FloatText, schema: Schema, vi: nat, text: string) returns (b: Buffer)
    ensures b == CellImage(ft, schema, vi, text)
  {
    hide Int64Of, UInt64Of, ToBE, Chars;
    if vi == 0 {
      var ts := FastTsParse(text);
      return WrapBE(ts, 8);
    }
    var t := if vi < |schema| then schema[vi].t else 5;
    if t in {1, 2, 3, 4, 5} {
      var v := FastAtoi64(text);
      assert v == Int64Of(text) by { SignedText(text, v); }
      b := WrapBE(v, if t <= 2 then 1 else if t == 3 then 2 else if t == 4 then 4 else 8);
    } else if t in {10, 11, 12, 13} {
      var v := FastAtou64(text);
      assert v == UInt64Of(text) by { UnsignedText(text, v); }
      b := WrapBE(v, if t == 10 then 1 else if t == 11 then 2 else if t == 12 then 4 else 8);
    } else if t == 6 {
      b := WrapBE(ft.toFloat(text), 4);
    } else if t == 8 || t == 9 {
      b := SlotOf(Chars(text), SizeOf(schema, vi));
    } else {
      b := WrapBE(ft.toDouble(text), 8);
    }
  }

  lemma {:induction false} SignedText(s: string, v: int)
    requires v == if IsNegative(s) then 0 - Min(Magnitude(s), INT64_MAX + 1) else Min(Magnitude(s), INT64_MAX)
    ensures v == Int64Of(s)
  {
    hide Magnitude, IsNegative;
  }

  lemma {:induction false} UnsignedText(s: string, v: nat)
    requires var m := Min(Magnitude(s), UINT64_MAX); v == if IsNegative(s) && m > 0 then UINT64_MAX + 1 - m else m
    ensures v == UInt64Of(s)
  {
    hide Magnitude, IsNegative;
  }

  /** Bytes into the message buffer. */
  method Put(data: array<byte>, at: nat, b: Buffer)
    requires at + |b| <= data.Length
    modifies data
    ensures data[..at + |b|] == old(data[..at]) + b
  {
    for i := 0 to |b|
      invariant forall k :: 0 <= k < at ==> data[k] == old(data[k])
      invariant forall k :: 0 <= k < i ==> data[at + k] == b[k]
    {
      data[at + i] := b[i];
    }
  }

  // ---------------------------------------------------------------- the packing loops

  lemma {:induction false} RowSizeGrows(schema: Schema, a: nat, b: nat)
    requires a <= b
    ensures RowSize(schema, a) <= RowSize(schema, b)
    decreases b
  {
    if a < b { RowSizeGrows(schema, a, b - 1); }
  }

  lemma {:induction false} RowImageGrows(ft: FloatText, schema: Schema, texts: Texts, text: string)
    ensures RowImage(ft, schema, texts + [text]) == RowImage(ft, schema, texts) + CellImage(ft, schema, |texts|, text)
  {
    assert (texts + [text])[..|texts|] == texts;
  }

  /** storeInsertValue: the next value of a row, right behind the ones before. */
  method StoreInsertValue(ft: FloatText, schema: Schema, vp: string, data: array<byte>, at: nat, vi: nat,
                          ghost texts: Texts, ghost front: Buffer)
    requires vi == |texts| && at + SizeOf(schema, vi) <= data.Length
    requires data[..at] == front + RowImage(ft, schema, texts)
    modifies data
    ensures data[..at + SizeOf(schema, vi)] == front + RowImage(ft, schema, texts + [vp])
  {
    hide CellImage, SizeOf, RowImage, RowSize;
    var b := ValueBytes(ft, schema, vi, vp);
    Put(data, at, b);
    RowImageGrows(ft, schema, texts, vp);
    assert front + RowImage(ft, schema, texts) + b == front + (RowImage(ft, schema, texts) + b);
  }

  /** One row group, serialised at `base`; stops when a value does not fit. */
  method PackRow(ft: FloatText, schema: Schema, s: string, start: nat, data: array<byte>, base: nat)
      returns (fits: bool, g: nat, colCount: nat)
    requires start <= |s| && base <= data.Length
    modifies data
    ensures fits ==> g == ReadGroup(s, start, []).next && colCount == |ReadGroup(s, start, []).texts|
    ensures fits ==> base + RowSize(schema, colCount) <= data.Length &&
                     data[..base + RowSize(schema, colCount)] ==
                       old(data[..base]) + RowImage(ft, schema, ReadGroup(s, start, []).texts)
    ensures !fits ==> base + RowSize(schema, |ReadGroup(s, start, []).texts|) > data.Length
  {
    hide CellImage, Token, SizeOf, RowImage;
    ghost var texts: Texts := [];
    var rowOff := 0;
    g, colCount := start, 0;
    assert data[..base] == old(data[..base]) + RowImage(ft, schema, []) by { EmptyRow(ft, schema); }
    while g < |s|
      invariant start <= g <= |s| && colCount == |texts| && ReadGroup(s, g, texts) == ReadGroup(s, start, [])
      invariant rowOff == RowSize(schema, colCount) && base + rowOff <= data.Length
      invariant data[..base + rowOff] == old(data[..base]) + RowImage(ft, schema, texts)
      decreases |s| - g
    {
      var sep, next, vp := NextValue(s, g);
      if sep == None { break; }
      var cb := SizeOf(schema, colCount);
      ghost var more := texts + [vp];
      assert RowSize(schema, |more|) == rowOff + cb;
      assert more <= ReadGroup(s, g, texts).texts;
      RowSizeGrows(schema, |more|, |ReadGroup(s, g, texts).texts|);
      if rowOff + cb > data.Length - base { return false, g, colCount; }
      StoreInsertValue(ft, schema, vp, data, base + rowOff, colCount, texts, old(data[..base]));
      texts := more;
      rowOff, colCount, g := rowOff + cb, colCount + 1, next;
      if sep == Some(')') { return true, g, colCount; }
    }
    return true, |s|, colCount;
  }

  lemma {:induction false} EmptyRow(ft: FloatText, schema: Schema)
    ensures RowImage(ft, schema, []) == []
  {}

  /** One call of the scanner, with the text its span stands for: the state machine's value
      exactly when the value is simple or empty. */
  method NextValue(s: string, g: nat) returns (sep: Option<char>, next: nat, vp: string)
    requires g <= |s|
    ensures Token(s, g) == Eof ==> sep == None
    ensures Token(s, g).Value? ==> sep == Some(Token(s, g).sep) && next == Token(s, g).next && vp == Token(s, g).text
    ensures Legacy(s, g).Value? ==> (vp == Legacy(s, g).text <==> Simple(s, g) || Legacy(s, g).text == "")
  {
    hide Scan, Simple;
    var span, scratch;
    sep, next, span, scratch := ScanInsertValue(s, g);
    vp := if span.Text? && sep != None then s[span.start..span.start + span.len] else "";
  }

  datatype Status = Packed | TooLarge | BadCount | NoValues

  /** Rows of one width. */
  ghost predicate Uniform(rows: seq<Texts>, k: nat) {
    forall r {:trigger rows[r]} :: 0 <= r < |rows| ==> |rows[r]| == k
  }

  lemma {:induction false} ImagesGrow(ft: FloatText, schema: Schema, rows: seq<Texts>, row: Texts)
    ensures Images(ft, schema, rows + [row]) == Images(ft, schema, rows) + RowImage(ft, schema, row)
  {
    assert (rows + [row])[..|rows|] == rows;
  }

  /** Later groups only add rows, all as wide as the first. */
  lemma {:induction false} GroupsExtend(s: string, g: nat, rows: seq<Texts>)
    requires g <= |s|
    requires rows != [] ==> Uniform(rows, |rows[0]|) && rows[0] != []
    ensures var o := ReadGroups(s, g, rows);
            o.Rows? ==> rows <= o.rows && (o.rows != [] ==> Uniform(o.rows, |o.rows[0]|) && o.rows[0] != [])
    decreases |s| - g
  {
    hide ReadGroup;
    if g < |s| && s[g] == '(' {
      var group := ReadGroup(s, g + 1, []);
      if (rows == [] || |group.texts| == |rows[0]|) && group.texts != [] {
        GroupsExtend(s, SkipGap(s, group.next), rows + [group.texts]);
      }
    }
  }

  /** Bytes of all rows. */
  function TotalSize(schema: Schema, rows: seq<Texts>): nat {
    if rows == [] then 0 else SlotAt(RowSize(schema, |rows[0]|), |rows|)
  }

  /** The whole VALUES part.  It is packed exactly when the groups are consistent, there is a
      row, and all rows fit; then the buffer holds their images one after the other. */
  method PackValues(ft: FloatText, schema: Schema, s: string, start: nat, data: array<byte>)
      returns (status: Status, numRows: nat, rowBytes: nat)
    requires start <= |s|
    modifies data
    ensures var o := ReadGroups(s, start, []);
            match status
            case Packed => o.Rows? && o.rows != [] && numRows == |o.rows| && rowBytes == RowSize(schema, |o.rows[0]|) &&
                           SlotAt(rowBytes, numRows) <= data.Length &&
                             data[..SlotAt(rowBytes, numRows)] == Images(ft, schema, o.rows)
            case TooLarge => o.Rows? ==> TotalSize(schema, o.rows) > data.Length
            case BadCount => o == Inconsistent
            case NoValues => o == Rows([])
    ensures status == Packed && data.Length < 0x2_0000 ==> numRows < 16384
  {
    hide ReadGroup, RowSize, Images, SlotAt, RowImage, SkipGap;
    ghost var rows: seq<Texts> := [];
    var g, totalCols := start, 0;
    numRows, rowBytes := 0, 0;
    NoImages(ft, schema);
    SlotZero(0);
    while g < |s| && s[g] == '('
      invariant start <= g <= |s| && ReadGroups(s, g, rows) == ReadGroups(s, start, []) && numRows == |rows|
      invariant if rows == [] then totalCols == 0 && rowBytes == 0
                else totalCols == |rows[0]| > 0 && rowBytes == RowSize(schema, totalCols) && Uniform(rows, totalCols)
      invariant SlotAt(rowBytes, numRows) <= data.Length &&
        data[..SlotAt(rowBytes, numRows)] == Images(ft, schema, rows)
      decreases |s| - g
    {
      ghost var group := ReadGroup(s, g + 1, []);
      var base := SlotAt(rowBytes, numRows);
      var fits, next, colCount := PackRow(ft, schema, s, g + 1, data, base);
      if !fits {
        OverflowIsReal(schema, s, g, rows, data.Length);
        return TooLarge, numRows, rowBytes;
      }
      if totalCols == 0 {
        totalCols := colCount;
        if totalCols > 0 { rowBytes := RowSize(schema, totalCols); }
      } else if colCount != totalCols {
        return BadCount, numRows, rowBytes;
      }
      if colCount == 0 { break; }
      ImagesGrow(ft, schema, rows, group.texts);
      SlotZero(rowBytes);
      SlotNext(rowBytes, numRows);
      rows := rows + [group.texts];
      numRows := numRows + 1;
      g := SkipGap(s, next);
    }
    if numRows == 0 { return NoValues, 0, rowBytes; }
    status := Packed;
    if data.Length < 0x2_0000 { RowsAreFew(schema, totalCols, numRows, data.Length); }
  }

  lemma {:induction false} NoImages(ft: FloatText, schema: Schema)
    ensures Images(ft, schema, []) == []
  {}

  /** The row that did not fit is one of the rows, so all of them together do not. */
  lemma {:induction false} OverflowIsReal(schema: Schema, s: string, g: nat, rows: seq<Texts>, room: nat)
    requires g < |s| && s[g] == '('
    requires rows != [] ==> Uniform(rows, |rows[0]|) && rows[0] != []
    requires var k := |ReadGroup(s, g + 1, []).texts|;
             SlotAt(if rows == [] then 0 else RowSize(schema, |rows[0]|), |rows|) + RowSize(schema, k) > room
    ensures var o := ReadGroups(s, g, rows); o.Rows? ==> TotalSize(schema, o.rows) > room
  {
    hide ReadGroup, RowSize, SkipGap, SlotAt, TotalSize;
    var group := ReadGroup(s, g + 1, []);
    NoRoomTaken(schema);
    if (rows == [] || |group.texts| == |rows[0]|) && group.texts != [] {
      var more := rows + [group.texts];
      GroupsExtend(s, SkipGap(s, group.next), more);
      assert ReadGroups(s, g, rows) == ReadGroups(s, SkipGap(s, group.next), more);
      var o := ReadGroups(s, SkipGap(s, group.next), more);
      if o.Rows? {
        OneMoreRow(schema, rows, group.texts);
        TotalGrows(schema, more, o.rows);
      }
    }
  }

  lemma {:induction false} NoRoomTaken(schema: Schema)
    ensures RowSize(schema, 0) == 0 && SlotAt(0, 0) == 0
  {}

  lemma {:induction false} OneMoreRow(schema: Schema, rows: seq<Texts>, row: Texts)
    requires rows != [] ==> |row| == |rows[0]|
    ensures TotalSize(schema, rows + [row]) ==
            SlotAt(if rows == [] then 0 else RowSize(schema, |rows[0]|), |rows|) + RowSize(schema, |row|)
  {
    hide RowSize, SlotAt;
    SlotZero(0);
    SlotZero(RowSize(schema, |row|));
    SlotNext(RowSize(schema, |row|), |rows|);
  }

  lemma {:induction false} TotalGrows(schema: Schema, rows: seq<Texts>, all: seq<Texts>)
    requires rows != [] && rows <= all
    ensures TotalSize(schema, rows) <= TotalSize(schema, all)
  {
    SlotGrows(RowSize(schema, |rows[0]|), |rows|, |all|);
  }

  lemma {:induction false} SlotGrows(w: nat, a: nat, b: nat)
    requires a <= b
    ensures SlotAt(w, a) <= SlotAt(w, b)
  {
    if a < b { SlotInside(w, a, b); }
  }

  /** Eight bytes of timestamp bound the number of rows. */
  lemma {:induction false} RowsAreFew(schema: Schema, k: nat, n: nat, room: nat)
    requires k > 0 && SlotAt(RowSize(schema, k), n) <= room < 0x2_0000
    ensures n < 16384
  {
    if n >= 16384 { EightPerRow(RowSize(schema, k), n); }
  }

  lemma {:induction false} EightPerRow(w: nat, n: nat)
    requires w >= 8
    ensures SlotAt(w, n) >= 8 * n
  {
    hide SlotAt;
    if n == 0 { SlotZero(w); } else { SlotNext(w, n - 1); EightPerRow(w, n - 1); }
  }
}
