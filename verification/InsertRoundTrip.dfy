/** Integers, decimals and quoted texts printed as VALUES groups with any white space, then
    packed. */
module InsertRoundTrip {
  import opened Bytes
  import opened Endian
  import opened InsertNumbers
  import opened InsertScanner
  import opened InsertPacker

  // ---------------------------------------------------------------- printing a matrix

  /** One value with spaces around it: an integer, any other bare token, or a text in quotes,
      which may have spaces inside them. */
  datatype Cell =
    | Number(before: string, v: int, after: string)
    | Bare(before: string, token: string, after: string)
    | Quoted(before: string, quote: char, lead: string, text: string, trail: string, after: string)

  /** One row group and what separates it from the next. */
  datatype Line = Line(cells: seq<Cell>, gap: string)

  /** The white space of the C locale. */
  predicate IsWhite(c: char) { c in {' ', '\t', '\n', '\U{0B}', '\U{0C}', '\r'} }

  predicate AllWhite(s: string) { forall i :: 0 <= i < |s| ==> IsWhite(s[i]) }

  /** It is what the scanner skips. */
  lemma {:induction false} WhiteIsSpace()
    ensures forall c {:trigger IsWhite(c)} {:trigger IsSpace(c)} :: IsWhite(c) <==> IsSpace(c)
    ensures forall s {:trigger AllWhite(s)} {:trigger AllSpace(s)} :: AllWhite(s) <==> AllSpace(s)
  {
    forall c ensures IsWhite(c) <==> IsSpace(c) {}
    forall s ensures AllWhite(s) <==> AllSpace(s) {
      forall i | 0 <= i < |s| ensures IsWhite(s[i]) <==> IsSpace(s[i]) {}
    }
  }

  predicate GoodCell(c: Cell) {
    AllWhite(c.before) && AllWhite(c.after) &&
    match c
    case Number(_, _, _) => true
    case Bare(_, token, _) => token != "" && Plain(token)
    case Quoted(_, quote, lead, text, trail, _) =>
      quote in {'\'', '"'} && AllWhite(lead) && AllWhite(trail) && quote !in text &&
      (text != "" ==> !IsWhite(text[0]) && !IsWhite(text[|text| - 1]))
  }

  predicate Plain(s: string) { forall k :: 0 <= k < |s| ==> !IsSpace(s[k]) && !IsQuote(s[k]) && !IsSep(s[k]) }

  /** What the value is, without spaces and quotes. */
  function CellText(c: Cell): string {
    match c
    case Number(_, v, _) => Decimal(v)
    case Bare(_, token, _) => token
    case Quoted(_, _, _, text, _, _) => text
  }

  function PrintValue(c: Cell): string {
    if c.Quoted? then [c.quote] + (c.lead + c.text + c.trail) + [c.quote] else CellText(c)
  }

  predicate GoodGap(gap: string) { forall i :: 0 <= i < |gap| ==> IsWhite(gap[i]) || gap[i] == ',' }

  predicate GoodLine(line: Line) {
    line.cells != [] && (forall i :: 0 <= i < |line.cells| ==> GoodCell(line.cells[i])) && GoodGap(line.gap)
  }

  function PrintCell(c: Cell, sep: char): string { c.before + PrintValue(c) + c.after + [sep] }

  function PrintCells(cells: seq<Cell>): (s: string)
    requires cells != []
    ensures s != []
  {
    if |cells| == 1 then PrintCell(cells[0], ')') else PrintCell(cells[0], ',') + PrintCells(cells[1..])
  }

  function PrintLine(line: Line): (s: string)
    requires line.cells != []
    ensures s != [] && s[0] == '('
  {
    "(" + PrintCells(line.cells) + line.gap
  }

  function Print(lines: seq<Line>): (s: string)
    requires forall r :: 0 <= r < |lines| ==> GoodLine(lines[r])
    ensures lines != [] ==> s != [] && s[0] == '('
  {
    if lines == [] then ""
    else
      assert GoodLine(lines[0]);
      PrintLine(lines[0]) + Print(lines[1..])
  }

  function CellTexts(cells: seq<Cell>): (texts: Texts)
    ensures |texts| == |cells|
  {
    seq(|cells|, i requires 0 <= i < |cells| => CellText(cells[i]))
  }

  function LineTexts(lines: seq<Line>): (rows: seq<Texts>)
    ensures |rows| == |lines|
  {
    seq(|lines|, i requires 0 <= i < |lines| => CellTexts(lines[i].cells))
  }

  // ---------------------------------------------------------------- scanning it

  lemma {:induction false} FindsBreak(s: string, v: nat, e: nat)
    requires PlainRun(s, v, e) && e < |s| && (IsSep(s[e]) || IsQuote(s[e]))
    ensures FindBreak(s, v) == e
  {}

  lemma {:induction false} DecimalIsPlain(v: int)
    ensures Plain(Decimal(v))
  {
    assert IsTsText(Decimal(v));
  }

  /** A printed value is a simple one: it scans to what it is. */
  lemma {:induction false} CellScans(s: string, p: nat, c: Cell, sep: char)
    requires GoodCell(c) && IsSep(sep) && At(s, p, PrintCell(c, sep))
    ensures Token(s, p) == Value(sep, p + |PrintCell(c, sep)|, CellText(c))
  {
    if c.Quoted? { QuotedScans(s, p, c, sep); } else { BareScans(s, p, c, sep); }
  }

  lemma {:induction false} BareScans(s: string, p: nat, c: Cell, sep: char)
    requires GoodCell(c) && IsSep(sep) && At(s, p, PrintCell(c, sep)) && !c.Quoted?
    ensures Token(s, p) == Value(sep, p + |PrintCell(c, sep)|, CellText(c))
  {
    WhiteIsSpace();
    hide Scan, Trim, Decimal;
    var d := CellText(c);
    var v, e := p + |c.before|, p + |c.before| + |d| + |c.after|;
    if c.Number? { DecimalIsPlain(c.v); }
    assert d != [] && Plain(d);
    AtConcat(s, p, c.before + d + c.after, [sep]);
    AtConcat(s, p, c.before + d, c.after);
    AtConcat(s, p, c.before, d);
    assert s[e] == [sep][0];
    CellRuns(s, p, c.before, d, c.after);
    assert s[v] == d[0];
    SkipsTo(s, p, v);
    SkipsTo(s, v, v);
    FindsBreak(s, v, e);
    LegacySkips(s, p);
    BareRun(s, v, e);
    TrimmedSlice(s, v, e, v, v + |d|);
    AtSlice(s, v, d);
  }

  lemma {:induction false} CellRuns(s: string, p: nat, before: string, d: string, after: string)
    requires At(s, p, before) && At(s, p + |before|, d) && At(s, p + |before| + |d|, after)
    requires AllSpace(before) && AllSpace(after) && d != [] && Plain(d)
    ensures var v := p + |before|; var e := v + |d| + |after|;
            e <= |s| && PlainRun(s, v, e) && (forall k :: p <= k < v ==> IsSpace(s[k])) &&
            (forall k :: v + |d| <= k < e ==> IsSpace(s[k])) && !IsSpace(s[v + |d| - 1])
  {
    var v := p + |before|;
    var e := v + |d| + |after|;
    forall k | p <= k < v ensures IsSpace(s[k]) { assert s[k] == before[k - p]; }
    forall k | v <= k < v + |d| ensures s[k] == d[k - v] { assert s[v + (k - v)] == d[k - v]; }
    forall k | v + |d| <= k < e ensures IsSpace(s[k]) { assert s[k] == after[k - v - |d|]; }
  }

  /** A text in quotes, with spaces inside and outside, scans to the text. */
  lemma {:induction false} QuotedScans(s: string, p: nat, c: Cell, sep: char)
    requires GoodCell(c) && IsSep(sep) && At(s, p, PrintCell(c, sep)) && c.Quoted?
    ensures Token(s, p) == Value(sep, p + |PrintCell(c, sep)|, c.text)
  {
    WhiteIsSpace();
    hide Scan, Trim, At, Legacy, PrintCell, SkipSpaces, FindQuote, Simple, AllSpace;
    var inside := c.lead + c.text + c.trail;
    var v, ce := p + |c.before|, p + |c.before| + 1 + |inside|;
    QuotedParts(s, p, c, inside, sep);
    QuotedLegacy(s, p, v, ce, ce + 1 + |c.after|);
    TrimsInside(c, inside);
  }

  lemma {:induction false} TrimsInside(c: Cell, inside: string)
    requires GoodCell(c) && c.Quoted? && inside == c.lead + c.text + c.trail
    ensures Trim(inside) == c.text
  {
    WhiteIsSpace();
    hide Trim;
    TrimUnique(inside, |c.lead|, |c.lead| + |c.text|);
  }

  lemma {:induction false} QuotedLegacy(s: string, p: nat, v: nat, ce: nat, a: nat)
    requires p <= v < ce < a < |s| && IsQuote(s[v]) && s[ce] == s[v] && IsSep(s[a])
    requires (forall k :: p <= k < v ==> IsSpace(s[k])) && (forall k :: v < k < ce ==> s[k] != s[v])
    requires forall k :: ce < k < a ==> IsSpace(s[k])
    ensures Simple(s, p) && Legacy(s, p) == Value(s[a], a + 1, Trim(s[v + 1..ce]))
  {
    hide Trim, Legacy;
    SkipsTo(s, p, v);
    FindsQuote(s, v + 1, ce, s[v]);
    SkipsTo(s, ce + 1, a);
    LegacySkips(s, p);
    CleanQuoted(s, v, ce, a);
  }

  lemma {:induction false} FindsQuote(s: string, i: nat, j: nat, q: char)
    requires i <= j < |s| && s[j] == q && forall k :: i <= k < j ==> s[k] != q
    ensures FindQuote(s, i, q) == j
  {}

  lemma {:induction false} QuotedParts(s: string, p: nat, c: Cell, inside: string, sep: char)
    requires GoodCell(c) && At(s, p, PrintCell(c, sep)) && c.Quoted? && inside == c.lead + c.text + c.trail
    ensures var v, ce := p + |c.before|, p + |c.before| + 1 + |inside|;
            var a := ce + 1 + |c.after|;
            a < |s| && s[a] == sep && s[v] == c.quote == s[ce] && s[v + 1..ce] == inside &&
            a + 1 == p + |PrintCell(c, sep)| &&
            (forall k :: p <= k < v ==> IsSpace(s[k])) && (forall k :: v < k < ce ==> s[k] != c.quote) &&
            (forall k :: ce < k < a ==> IsSpace(s[k]))
  {
    WhiteIsSpace();
    var v, ce := p + |c.before|, p + |c.before| + 1 + |inside|;
    var a := ce + 1 + |c.after|;
    QuotedPieces(s, p, c, inside, sep);
    AtSlice(s, v + 1, inside);
    forall k | p <= k < v ensures IsSpace(s[k]) { assert s[k] == c.before[k - p]; }
    forall k | v < k < ce ensures s[k] != c.quote { assert s[k] == inside[k - v - 1]; NotInside(c, k - v - 1); }
    forall k | ce < k < a ensures IsSpace(s[k]) { assert s[k] == c.after[k - ce - 1]; }
    assert s[a] == [sep][0] && s[v] == [c.quote][0] && s[ce] == [c.quote][0];
  }

  lemma {:induction false} NotInside(c: Cell, k: nat)
    requires GoodCell(c) && c.Quoted? && k < |c.lead + c.text + c.trail|
    ensures (c.lead + c.text + c.trail)[k] != c.quote
  {
    WhiteIsSpace();
    var n := |c.lead|;
    if k < n {
      assert (c.lead + c.text + c.trail)[k] == c.lead[k];
    } else if k < n + |c.text| {
      assert (c.lead + c.text + c.trail)[k] == c.text[k - n];
    } else {
      assert (c.lead + c.text + c.trail)[k] == c.trail[k - n - |c.text|];
    }
  }

  lemma {:induction false} QuotedPieces(s: string, p: nat, c: Cell, inside: string, sep: char)
    requires At(s, p, PrintCell(c, sep)) && c.Quoted? && inside == c.lead + c.text + c.trail
    ensures var v, ce := p + |c.before|, p + |c.before| + 1 + |inside|;
            At(s, p, c.before) && At(s, v, [c.quote]) && At(s, v + 1, inside) && At(s, ce, [c.quote]) &&
            At(s, ce + 1, c.after) && At(s, ce + 1 + |c.after|, [sep])
  {
    var q := [c.quote];
    AtConcat(s, p, c.before + (q + inside + q) + c.after, [sep]);
    AtConcat(s, p, c.before + (q + inside + q), c.after);
    AtConcat(s, p, c.before, q + inside + q);
    AtConcat(s, p + |c.before|, q + inside, q);
    AtConcat(s, p + |c.before|, q, inside);
  }

  lemma {:induction false} CellsScan(s: string, g: nat, cells: seq<Cell>, texts: Texts)
    requires cells != [] && (forall i :: 0 <= i < |cells| ==> GoodCell(cells[i])) && At(s, g, PrintCells(cells))
    ensures ReadGroup(s, g, texts) == Group(texts + CellTexts(cells), g + |PrintCells(cells)|)
    decreases |cells|
  {
    hide Token, PrintCell, GoodCell, CellText;
    var d := CellText(cells[0]);
    if |cells| == 1 {
      CellScans(s, g, cells[0], ')');
      assert texts + CellTexts(cells) == texts + [d];
    } else {
      var first := PrintCell(cells[0], ',');
      AtConcat(s, g, first, PrintCells(cells[1..]));
      CellScans(s, g, cells[0], ',');
      CellsScan(s, g + |first|, cells[1..], texts + [d]);
      assert texts + [d] + CellTexts(cells[1..]) == texts + CellTexts(cells);
      assert ReadGroup(s, g, texts) == ReadGroup(s, g + |first|, texts + [d]);
    }
  }

  lemma {:induction false} GapSkips(s: string, i: nat, j: nat)
    requires i <= j <= |s| && (forall k :: i <= k < j ==> IsSpace(s[k]) || s[k] == ',')
    requires j < |s| ==> s[j] == '('
    ensures SkipGap(s, i) == j
    decreases j - i
  {
    if i < j { GapSkips(s, i + 1, j); }
  }

  /** Every line of the matrix is a row of its printed integers. */
  lemma {:induction false} LinesScan(s: string, g: nat, lines: seq<Line>, rows: seq<Texts>, k: nat)
    requires (forall r :: 0 <= r < |lines| ==> GoodLine(lines[r]) && |lines[r].cells| == k)
    requires (forall r :: 0 <= r < |rows| ==> |rows[r]| == k)
    requires g + |Print(lines)| == |s| && At(s, g, Print(lines))
    ensures ReadGroups(s, g, rows) == Rows(rows + LineTexts(lines))
    decreases |lines|
  {
    hide PrintCells, ReadGroup, CellTexts, GoodCell, Token, SkipGap;
    if lines == [] {
      assert rows + LineTexts(lines) == rows;
    } else {
      var line, rest := lines[0], Print(lines[1..]);
      var n := g + 1 + |PrintCells(line.cells)|;
      LineParts(s, g, line, rest);
      CellsScan(s, g + 1, line.cells, []);
      assert [] + CellTexts(line.cells) == CellTexts(line.cells);
      GapSkips(s, n, n + |line.gap|);
      LinesScan(s, n + |line.gap|, lines[1..], rows + [CellTexts(line.cells)], k);
      assert rows + [CellTexts(line.cells)] + LineTexts(lines[1..]) == rows + LineTexts(lines);
      assert ReadGroups(s, g, rows) == ReadGroups(s, n + |line.gap|, rows + [CellTexts(line.cells)]);
    }
  }

  lemma {:induction false} LineParts(s: string, g: nat, line: Line, rest: string)
    requires GoodLine(line) && At(s, g, PrintLine(line) + rest) && g + |PrintLine(line) + rest| == |s|
    requires rest != [] ==> rest[0] == '('
    ensures var n := g + 1 + |PrintCells(line.cells)|;
            g < |s| && s[g] == '(' && At(s, g + 1, PrintCells(line.cells)) && n + |line.gap| <= |s| &&
            (forall k :: n <= k < n + |line.gap| ==> IsSpace(s[k]) || s[k] == ',') &&
            (n + |line.gap| < |s| ==> s[n + |line.gap|] == '(') && At(s, n + |line.gap|, rest)
  {
    WhiteIsSpace();
    hide PrintCells;
    AtConcat(s, g, PrintLine(line), rest);
    AtConcat(s, g, "(" + PrintCells(line.cells), line.gap);
    AtConcat(s, g, "(", PrintCells(line.cells));
    var n := g + 1 + |PrintCells(line.cells)|;
    assert s[g] == "("[0];
    forall k | n <= k < n + |line.gap| ensures IsSpace(s[k]) || s[k] == ',' { assert s[k] == line.gap[k - n]; }
    if rest != [] { assert s[n + |line.gap|] == rest[0]; }
  }

  // ---------------------------------------------------------------- the packed bytes

  /** Whether the slot of column vi is read as a signed number; None for columns that do not
      hold integers. */
  function SlotSign(schema: Schema, vi: nat): Option<bool> {
    var t := if vi == 0 || vi >= |schema| then 5 else schema[vi].t;
    if t in {1, 2, 3, 4, 5} then Some(true) else if t in {10, 11, 12, 13} then Some(false) else None
  }

  /** The integers a slot can hold. */
  predicate InSlot(schema: Schema, vi: nat, v: int) {
    match SlotSign(schema, vi)
    case None => false
    case Some(signed) => if signed then InSigned(v, SizeOf(schema, vi)) else 0 <= v < Pow256(SizeOf(schema, vi))
  }

  function SlotValue(schema: Schema, vi: nat, b: Buffer): int {
    if SlotSign(schema, vi) == Some(true) then ToSigned(FromBE(b), |b|) else FromBE(b)
  }

  lemma {:induction false} DecimalUnsigned(v: nat)
    requires v <= UINT64_MAX
    ensures UInt64Of(Decimal(v)) == v
  {
    var s := Decimal(v);
    DigitsValueOf(v);
    assert IsDigit(s[0]);
    SkipAllDigits(s, 0);
  }

  lemma {:induction false} WrapReadsBack(v: int, w: nat)
    requires w > 0 && (InSigned(v, w) || 0 <= v < Pow256(w))
    ensures FromBE(WrapBE(v, w)) == if v < 0 then v + Pow256(w) else v
  {
    hide Pow256, FromBE, ToBE;
    ModOnce(v, Pow256(w));
    BigEndianReadsBack(v % Pow256(w), w);
  }

  lemma {:induction false} ModOnce(v: int, span: int)
    requires -span <= v < span
    ensures v % span == if v < 0 then v + span else v
  {
    if v < 0 { assert v == -1 * span + (v + span); }
  }

  lemma {:induction false} NumberImage(ft: FloatText, schema: Schema, vi: nat, v: int)
    requires InSlot(schema, vi, v)
    ensures CellImage(ft, schema, vi, Decimal(v)) == WrapBE(v, SizeOf(schema, vi))
  {
    hide WrapBE, Int64Of, UInt64Of, Decimal, Pow256;
    Powers();
    if SlotSign(schema, vi) == Some(true) { DecimalParses(v); } else { DecimalUnsigned(v); }
  }

  /** An in-range integer, printed and packed, reads back from its slot. */
  lemma {:induction false} CellPacks(ft: FloatText, schema: Schema, vi: nat, v: int)
    requires InSlot(schema, vi, v)
    ensures SlotValue(schema, vi, CellImage(ft, schema, vi, Decimal(v))) == v
  {
    hide FromBE, WrapBE, CellImage, Decimal, Pow256;
    NumberImage(ft, schema, vi, v);
    WrapReadsBack(v, SizeOf(schema, vi));
  }

  /** Whatever the text, an integer slot holds its saturated value cut to the slot. */
  lemma {:induction false} AnyNumberPacks(ft: FloatText, schema: Schema, vi: nat, text: string)
    requires vi > 0 && SlotSign(schema, vi).Some?
    ensures FromBE(CellImage(ft, schema, vi, text)) ==
            (if SlotSign(schema, vi) == Some(true) then Int64Of(text) else UInt64Of(text)) % Pow256(SizeOf(schema, vi))
  {
    hide FromBE, ToBE, Int64Of, UInt64Of, Pow256;
    var v := if SlotSign(schema, vi) == Some(true) then Int64Of(text) else UInt64Of(text);
    BigEndianReadsBack(v % Pow256(SizeOf(schema, vi)), SizeOf(schema, vi));
  }

  /** A slot without the zeros at its end. */
  function Unpadded(slot: Buffer): Buffer {
    if slot != [] && slot[|slot| - 1] == 0 then Unpadded(slot[..|slot| - 1]) else slot
  }

  lemma {:induction false} UnpaddedTo(slot: Buffer, n: nat)
    requires n <= |slot| && (forall i :: n <= i < |slot| ==> slot[i] == 0) && (n > 0 ==> slot[n - 1] != 0)
    ensures Unpadded(slot) == slot[..n]
    decreases |slot|
  {
    if |slot| > n {
      UnpaddedTo(slot[..|slot| - 1], n);
      assert slot[..|slot| - 1][..n] == slot[..n];
    } else {
      assert slot[..n] == slot;
    }
  }

  /** The slot starts with the text's bytes, cut at the slot, and is zero behind them; a text
      that fits and does not end in a zero byte is the slot without its padding. */
  predicate TextStored(slot: Buffer, text: string) {
    (forall i :: 0 <= i < |slot| ==> slot[i] == if i < |text| then text[i] as int % 256 else 0) &&
    (|text| <= |slot| && (text != "" ==> text[|text| - 1] as int % 256 != 0) ==>
       |Unpadded(slot)| == |text| && forall i :: 0 <= i < |text| ==> Unpadded(slot)[i] == text[i] as int % 256)
  }

  lemma {:induction false} TextPacks(ft: FloatText, schema: Schema, vi: nat, text: string)
    requires 0 < vi < |schema| && schema[vi].t in {8, 9}
    ensures TextStored(CellImage(ft, schema, vi, text), text)
  {
    var slot := CellImage(ft, schema, vi, text);
    assert forall i :: 0 <= i < |slot| ==> slot[i] == if i < |text| then text[i] as int % 256 else 0;
    if |text| <= |slot| && (text != "" ==> text[|text| - 1] as int % 256 != 0) { UnpaddedTo(slot, |text|); }
  }

  /** The host's bit pattern of a decimal, big-endian. */
  lemma {:induction false} FloatPacks(ft: FloatText, schema: Schema, vi: nat, text: string)
    requires 0 < vi < |schema| && schema[vi].t in {6, 7}
    ensures var b := CellImage(ft, schema, vi, text);
            if schema[vi].t == 6 then |b| == 4 && FromBE(b) == ft.toFloat(text) % 0x1_0000_0000
            else |b| == 8 && FromBE(b) == ft.toDouble(text) % 0x1_0000_0000_0000_0000
  {
    hide FromBE, ToBE, Pow256;
    Powers();
    BigEndianReadsBack(ft.toFloat(text) % Pow256(4), 4);
    BigEndianReadsBack(ft.toDouble(text) % Pow256(8), 8);
  }

  // ---------------------------------------------------------------- the whole matrix

  lemma {:induction false} RowImageAt(ft: FloatText, schema: Schema, texts: Texts, c: nat)
    requires c < |texts|
    ensures RowSize(schema, c) + SizeOf(schema, c) <= RowSize(schema, |texts|)
    ensures RowImage(ft, schema, texts)[RowSize(schema, c)..RowSize(schema, c) + SizeOf(schema, c)] ==
            CellImage(ft, schema, c, texts[c])
    decreases |texts|
  {
    hide CellImage, SizeOf, RowSize, RowImage;
    var k := |texts| - 1;
    var front, cell := RowImage(ft, schema, texts[..k]), CellImage(ft, schema, k, texts[k]);
    NextSlot(schema, k);
    LastImage(ft, schema, texts);
    if c < k {
      RowImageAt(ft, schema, texts[..k], c);
      SliceOfFront(front, cell, RowSize(schema, c), RowSize(schema, c) + SizeOf(schema, c));
    } else {
      SliceOfBack(front, cell);
    }
  }

  lemma {:induction false} LastImage(ft: FloatText, schema: Schema, texts: Texts)
    requires texts != []
    ensures var k := |texts| - 1;
            RowImage(ft, schema, texts) == RowImage(ft, schema, texts[..k]) + CellImage(ft, schema, k, texts[k])
  {
    hide CellImage, SizeOf, RowSize;
  }

  lemma {:induction false} SliceOfFront(a: Buffer, b: Buffer, i: nat, j: nat)
    requires i <= j <= |a|
    ensures (a + b)[i..j] == a[i..j]
  {}

  lemma {:induction false} SliceOfBack(a: Buffer, b: Buffer)
    ensures (a + b)[|a|..|a| + |b|] == b
  {}

  lemma {:induction false} NextSlot(schema: Schema, k: nat)
    ensures RowSize(schema, k + 1) == RowSize(schema, k) + SizeOf(schema, k)
  {}

  lemma {:induction false} ImagesLength(ft: FloatText, schema: Schema, rows: seq<Texts>, k: nat)
    requires Uniform(rows, k)
    ensures |Images(ft, schema, rows)| == SlotAt(RowSize(schema, k), |rows|)
    decreases |rows|
  {
    hide SlotAt, RowImage, RowSize;
    var w := RowSize(schema, k);
    SlotZero(w);
    if rows != [] {
      var last := |rows| - 1;
      assert |rows[last]| == k;
      ImagesLength(ft, schema, rows[..last], k);
      SlotNext(w, last);
    }
  }

  lemma {:induction false} ImagesAt(ft: FloatText, schema: Schema, rows: seq<Texts>, k: nat, r: nat)
    requires Uniform(rows, k) && r < |rows|
    ensures SlotAt(RowSize(schema, k), r) + RowSize(schema, k) <= |Images(ft, schema, rows)|
    ensures Images(ft, schema, rows)
              [SlotAt(RowSize(schema, k), r)..SlotAt(RowSize(schema, k), r) + RowSize(schema, k)] ==
            RowImage(ft, schema, rows[r])
    decreases |rows|
  {
    hide SlotAt, RowImage, RowSize;
    var last, w := |rows| - 1, RowSize(schema, k);
    assert |rows[last]| == k;
    var front, row := Images(ft, schema, rows[..last]), RowImage(ft, schema, rows[last]);
    ImagesLength(ft, schema, rows[..last], k);
    assert Images(ft, schema, rows) == front + row;
    hide Images;
    if r < last {
      ImagesAt(ft, schema, rows[..last], k, r);
      SliceOfFront(front, row, SlotAt(w, r), SlotAt(w, r) + w);
    } else {
      SliceOfBack(front, row);
    }
  }

  predicate Matrix(schema: Schema, lines: seq<Line>, k: nat) {
    lines != [] && forall r :: 0 <= r < |lines| ==> GoodLine(lines[r]) && RowInSlots(schema, lines[r].cells, k)
  }

  predicate RowInSlots(schema: Schema, cells: seq<Cell>, k: nat) {
    |cells| == k && forall c :: 0 <= c < k ==> Suits(schema, c, cells[c])
  }

  /** Integers in range in integer columns, decimals in floating-point columns, quoted texts in
      string columns. */
  predicate Suits(schema: Schema, c: nat, cell: Cell) {
    match cell
    case Number(_, v, _) => InSlot(schema, c, v)
    case Bare(_, _, _) => 0 < c < |schema| && schema[c].t in {6, 7}
    case Quoted(_, _, _, _, _, _) => 0 < c < |schema| && schema[c].t in {8, 9}
  }

  /** The value stored in the buffer for row r, column c. */
  predicate Stores(ft: FloatText, schema: Schema, data: Buffer, k: nat, r: nat, c: nat, cell: Cell) {
    var at := SlotAt(RowSize(schema, k), r) + RowSize(schema, c);
    at + SizeOf(schema, c) <= |data| && SlotHolds(ft, schema, c, data[at..at + SizeOf(schema, c)], cell)
  }

  predicate SlotHolds(ft: FloatText, schema: Schema, c: nat, slot: Buffer, cell: Cell) {
    match cell
    case Number(_, v, _) => SlotValue(schema, c, slot) == v
    case Bare(_, token, _) =>
      c < |schema| &&
      if schema[c].t == 6 then |slot| == 4 && FromBE(slot) == ft.toFloat(token) % 0x1_0000_0000
      else |slot| == 8 && FromBE(slot) == ft.toDouble(token) % 0x1_0000_0000_0000_0000
    case Quoted(_, _, _, text, _, _) => TextStored(slot, text)
  }

  lemma {:induction false} CellHeld(ft: FloatText, schema: Schema, c: nat, cell: Cell)
    requires Suits(schema, c, cell)
    ensures SlotHolds(ft, schema, c, CellImage(ft, schema, c, CellText(cell)), cell)
  {
    hide CellImage, InSlot, SlotValue, TextStored, Decimal;
    match cell
    case Number(_, v, _) => CellPacks(ft, schema, c, v);
    case Bare(_, token, _) => FloatPacks(ft, schema, c, token);
    case Quoted(_, _, _, text, _, _) => TextPacks(ft, schema, c, text);
  }

  lemma {:induction false} CellStored(ft: FloatText, schema: Schema, lines: seq<Line>, k: nat, data: Buffer, r: nat,
      c: nat)
    requires Matrix(schema, lines, k) && r < |lines| && c < k
    requires Images(ft, schema, LineTexts(lines)) <= data
    ensures Stores(ft, schema, data, k, r, c, lines[r].cells[c])
  {
    hide CellImage, SizeOf, Images, SlotAt, RowImage, GoodLine, Suits, RowSize, SlotHolds, CellText;
    var rows := LineTexts(lines);
    assert RowInSlots(schema, lines[r].cells, k);
    UniformLines(schema, lines, k);
    ImagesAt(ft, schema, rows, k, r);
    RowImageAt(ft, schema, rows[r], c);
    var w, cell := RowSize(schema, k), lines[r].cells[c];
    var at, off, n := SlotAt(w, r), RowSize(schema, c), SizeOf(schema, c);
    SliceOfSlice(data, Images(ft, schema, rows), at, w, off, n);
    assert rows[r][c] == CellText(cell);
    CellHeld(ft, schema, c, cell);
  }

  lemma {:induction false} UniformLines(schema: Schema, lines: seq<Line>, k: nat)
    requires Matrix(schema, lines, k)
    ensures Uniform(LineTexts(lines), k)
  {
    hide GoodLine, Suits, CellTexts;
  }

  lemma {:induction false} SliceOfSlice(data: Buffer, front: Buffer, at: nat, w: nat, off: nat, n: nat)
    requires front <= data && at + w <= |front| && off + n <= w
    ensures data[at + off..at + off + n] == front[at..at + w][off..off + n]
  {
    var a, b := data[at + off..at + off + n], front[at..at + w][off..off + n];
    assert data[..|front|] == front;
    forall i | 0 <= i < n ensures a[i] == b[i] { assert b[i] == front[at + off + i]; }
  }

  /** Any matrix of in-range integers, decimals and quoted texts, printed with any white space
      and packed, is stored exactly: row by row, each value in the slot of its column, numbers
      big-endian, texts cut or padded with zeros. */
  method InsertMatrix(ft: FloatText, schema: Schema, lines: seq<Line>, k: nat, data: array<byte>)
      returns (status: Status, numRows: nat)
    requires Matrix(schema, lines, k)
    modifies data
    ensures if SlotAt(RowSize(schema, k), |lines|) <= data.Length
            then status == Packed && numRows == |lines| else status == TooLarge
    ensures status == Packed ==> forall r, c {:trigger lines[r].cells[c]} :: 0 <= r < |lines| && 0 <= c < k ==>
              Stores(ft, schema, data[..], k, r, c, lines[r].cells[c])
  {
    hide Print, ReadGroups, Images, RowSize, SlotAt, GoodLine, Suits, CellTexts, Stores;
    var s := PrintAll(schema, lines, k);
    var rowBytes;
    status, numRows, rowBytes := PackValues(ft, schema, s, 0, data);
    UniformLines(schema, lines, k);
    ghost var rows := LineTexts(lines);
    assert rows != [] && |rows[0]| == k;
    assert TotalSize(schema, rows) == SlotAt(RowSize(schema, k), |lines|);
    if status == Packed {
      var all := SlotAt(rowBytes, numRows);
      assert data[..all] <= data[..];
      forall r, c | 0 <= r < |lines| && 0 <= c < k ensures Stores(ft, schema, data[..], k, r, c, lines[r].cells[c]) {
        CellStored(ft, schema, lines, k, data[..], r, c);
      }
    }
  }

  method PrintAll(schema: Schema, lines: seq<Line>, k: nat) returns (s: string)
    requires Matrix(schema, lines, k)
    ensures ReadGroups(s, 0, []) == Rows(LineTexts(lines))
  {
    hide GoodLine, Suits, CellTexts, LineTexts, ReadGroups, Print;
    forall r | 0 <= r < |lines| ensures GoodLine(lines[r]) && |lines[r].cells| == k {
      assert RowInSlots(schema, lines[r].cells, k);
    }
    s := Print(lines);
    AtPrefix(s, [], Print(lines));
    LinesScan(s, 0, lines, [], k);
    assert [] + LineTexts(lines) == LineTexts(lines);
  }
}
