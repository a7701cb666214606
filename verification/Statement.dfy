/** Prepared inserts: binding row by row, binding by column, and the submit message. */
module Statement {
  import opened Bytes
  import opened Endian

  // ---------------------------------------------------------------- columns and cells

  /** A bound column: its bind type (0 to 9) and the bytes it takes in a row. */
  datatype BindCol = BindCol(t: byte, slot: nat)

  predicate IsStr(t: byte) { t == 8 || t == 9 }

  function PlainWidth(t: byte): nat {
    match t
    case 0 => 8
    case 5 => 8
    case 7 => 8
    case 4 => 4
    case 6 => 4
    case 3 => 2
    case 2 => 1
    case 1 => 1
    case _ => 4
  }

  predicate GoodCol(c: BindCol) { c.t <= 9 && c.slot > 0 && (!IsStr(c.t) ==> c.slot == PlainWidth(c.t)) }

  type Cols = cols: seq<BindCol> | forall i :: 0 <= i < |cols| ==> GoodCol(cols[i]) witness []

  /** Where column k starts in a row; at the end, the row width. */
  function OffsetOf(cols: Cols, k: nat): nat
    requires k <= |cols|
  {
    if k == 0 then 0 else OffsetOf(cols, k - 1) + cols[k - 1].slot
  }

  function RowBytes(cols: Cols): nat { OffsetOf(cols, |cols|) }

  lemma {:induction false} OffsetGrows(cols: Cols, i: nat, j: nat)
    requires i <= j <= |cols|
    ensures OffsetOf(cols, i) <= OffsetOf(cols, j)
    decreases j
  {
    if i < j { OffsetGrows(cols, i, j - 1); }
  }

  /** What the caller binds: NULL, or the value's bytes in host order. */
  datatype Cell = Null | Bytes(b: Buffer)

  /** Values fill their slots; a string may have any length when bound by row. */
  predicate RowCells(cols: Cols, cells: seq<Cell>) {
    |cells| == |cols| && forall i :: 0 <= i < |cols| && cells[i].Bytes? && !IsStr(cols[i].t) ==>
      |cells[i].b| == cols[i].slot
  }

  predicate SlotCells(cols: Cols, cells: seq<Cell>) {
    |cells| == |cols| && forall i :: 0 <= i < |cols| && cells[i].Bytes? ==> |cells[i].b| == cols[i].slot
  }

  function Zeros(n: nat): (z: Buffer)
    ensures |z| == n && forall i :: 0 <= i < n ==> z[i] == 0
  {
    seq(n, _ => 0)
  }

  /** Cut to the slot or padded with zeros. */
  function Fit(b: Buffer, n: nat): (s: Buffer)
    ensures |s| == n && (|b| == n ==> s == b)
  {
    if |b| >= n then b[..n] else b + Zeros(n - |b|)
  }

  function Overwrite(buf: Buffer, at: nat, b: Buffer): (r: Buffer)
    requires at + |b| <= |buf|
    ensures |r| == |buf|
    ensures forall i :: 0 <= i < |buf| ==> r[i] == if at <= i < at + |b| then b[i - at] else buf[i]
  {
    buf[..at] + b + buf[at + |b|..]
  }

  /** Network order: the multi-byte number types are reversed, everything else is copied. */
  function ToNet(t: byte, b: Buffer): (r: Buffer)
    ensures |r| == |b|
  {
    if t in {0, 3, 4, 5, 6, 7} then Reverse(b) else b
  }

  function Reverse(b: Buffer): (r: Buffer)
    ensures |r| == |b| && forall i :: 0 <= i < |b| ==> r[i] == b[|b| - 1 - i]
  {
    seq(|b|, i requires 0 <= i < |b| => b[|b| - 1 - i])
  }

  // ---------------------------------------------------------------- the two row builders

  /** What bindParamBatch writes for one cell. */
  function NetSlot(c: BindCol, cell: Cell): (s: Buffer)
    requires cell.Bytes? ==> |cell.b| == c.slot
    ensures |s| == c.slot
  {
    match cell
    case Null => Zeros(c.slot)
    case Bytes(b) => ToNet(c.t, b)
  }

  /** A row the way bindParamBatch writes it. */
  function DirectRow(cols: Cols, cells: seq<Cell>, k: nat): (row: Buffer)
    requires SlotCells(cols, cells) && k <= |cols|
    ensures |row| == OffsetOf(cols, k)
  {
    if k == 0 then []
    else DirectRow(cols, cells, k - 1) + NetSlot(cols[k - 1], cells[k - 1])
  }

  /** The row buffer and the write offset of bindParam after k columns. */
  datatype Bound = Bound(buf: Buffer, off: nat)

  /** NULL leaves zeros and moves on by the plain width, which for a string is 4. */
  function BindCells(cols: Cols, cells: seq<Cell>, k: nat): (r: Bound)
    requires RowCells(cols, cells) && k <= |cols|
    ensures |r.buf| == RowBytes(cols)
  {
    if k == 0 then Bound(Zeros(RowBytes(cols)), 0)
    else
      var r, c := BindCells(cols, cells, k - 1), cols[k - 1];
      match cells[k - 1]
      case Null => Bound(r.buf, r.off + PlainWidth(c.t))
      case Bytes(b) =>
        if r.off + c.slot <= RowBytes(cols) then Bound(Overwrite(r.buf, r.off, Fit(b, c.slot)), r.off + c.slot) else r
  }

  /** addBatch: column by column to network order. */
  function NetRow(cols: Cols, buf: Buffer, k: nat): (row: Buffer)
    requires |buf| == RowBytes(cols) && k <= |cols|
    ensures |row| == OffsetOf(cols, k)
  {
    if k == 0 then []
    else
      OffsetGrows(cols, k, |cols|);
      NetRow(cols, buf, k - 1) + ToNet(cols[k - 1].t, buf[OffsetOf(cols, k - 1)..OffsetOf(cols, k)])
  }

  /** A row the way bindParam and addBatch build it. */
  function BoundRow(cols: Cols, cells: seq<Cell>): (row: Buffer)
    requires RowCells(cols, cells)
    ensures |row| == RowBytes(cols)
  {
    NetRow(cols, BindCells(cols, cells, |cols|).buf, |cols|)
  }

  /** Strings whose slot is not 4 bytes only as the last column. */
  predicate Aligned(cols: Cols) {
    forall i :: 0 <= i < |cols| - 1 && IsStr(cols[i].t) ==> cols[i].slot == 4
  }

  /** No NULL in any other string column. */
  predicate AlignedRow(cols: Cols, cells: seq<Cell>)
    requires |cells| == |cols|
  {
    forall i :: 0 <= i < |cols| - 1 && IsStr(cols[i].t) && cells[i] == Null ==> cols[i].slot == 4
  }

  /** Every value is bound where its slot is; only the NULLs in front of it matter. */
  predicate OnTrack(cols: Cols, cells: seq<Cell>)
    requires RowCells(cols, cells)
  {
    forall j :: 0 <= j < |cols| && cells[j].Bytes? ==> BindCells(cols, cells, j).off == OffsetOf(cols, j)
  }

  // ---------------------------------------------------------------- when they agree

  /** The bytes of a cell in the row buffer. */
  function HostSlot(c: BindCol, cell: Cell): (s: Buffer)
    ensures |s| == c.slot
  {
    match cell
    case Null => Zeros(c.slot)
    case Bytes(b) => Fit(b, c.slot)
  }

  ghost predicate SlotWritten(cols: Cols, cells: seq<Cell>, buf: Buffer, j: nat)
    requires |cells| == |cols| && j < |cols|
  {
    At(buf, OffsetOf(cols, j), HostSlot(cols[j], cells[j]))
  }

  ghost predicate ZerosFrom(buf: Buffer, off: nat) { forall i :: off <= i < |buf| ==> buf[i] == 0 }

  /** The first k slots hold their cells, everything behind is zero. */
  ghost predicate SlotsWritten(cols: Cols, cells: seq<Cell>, buf: Buffer, k: nat)
    requires |cells| == |cols| && k <= |cols|
  {
    (forall j :: 0 <= j < k ==> SlotWritten(cols, cells, buf, j)) && ZerosFrom(buf, OffsetOf(cols, k))
  }

  lemma {:induction false} NullSlotWritten(cols: Cols, cells: seq<Cell>, buf: Buffer, k: nat)
    requires |cells| == |cols| && k < |cols| && |buf| == RowBytes(cols) && cells[k] == Null
    requires SlotsWritten(cols, cells, buf, k)
    ensures SlotsWritten(cols, cells, buf, k + 1)
  {
    hide ZerosFrom, HostSlot, At;
    OffsetGrows(cols, k + 1, |cols|);
    assert OffsetOf(cols, k + 1) == OffsetOf(cols, k) + cols[k].slot;
    ZerosWritten(buf, OffsetOf(cols, k), cols[k].slot);
    assert HostSlot(cols[k], cells[k]) == Zeros(cols[k].slot) by { NullIsZeros(cols[k]); }
    assert SlotWritten(cols, cells, buf, k);
  }

  lemma {:induction false} NullIsZeros(c: BindCol)
    ensures HostSlot(c, Null) == Zeros(c.slot)
  {}

  lemma {:induction false} ZerosWritten(buf: Buffer, off: nat, n: nat)
    requires ZerosFrom(buf, off) && off + n <= |buf|
    ensures At(buf, off, Zeros(n)) && ZerosFrom(buf, off + n)
  {}

  lemma {:induction false} OverwriteAt(buf: Buffer, at: nat, b: Buffer)
    requires at + |b| <= |buf|
    ensures At(Overwrite(buf, at, b), at, b)
  {}

  lemma {:induction false} OverwriteKeeps(buf: Buffer, at: nat, b: Buffer, p: nat, w: Buffer)
    requires at + |b| <= |buf| && At(buf, p, w) && (p + |w| <= at || at + |b| <= p)
    ensures At(Overwrite(buf, at, b), p, w)
  {}

  lemma {:induction false} OverwriteZeros(buf: Buffer, at: nat, b: Buffer)
    requires at + |b| <= |buf| && ZerosFrom(buf, at)
    ensures ZerosFrom(Overwrite(buf, at, b), at + |b|)
  {}

  lemma {:induction false} ByteSlotWritten(cols: Cols, cells: seq<Cell>, buf: Buffer, k: nat)
    requires |cells| == |cols| && k < |cols| && |buf| == RowBytes(cols) && cells[k].Bytes?
    requires SlotsWritten(cols, cells, buf, k)
    ensures OffsetOf(cols, k) + cols[k].slot <= RowBytes(cols)
    ensures SlotsWritten(cols, cells, Overwrite(buf, OffsetOf(cols, k), Fit(cells[k].b, cols[k].slot)), k + 1)
  {
    hide Fit, ZerosFrom, Overwrite, At;
    OffsetGrows(cols, k + 1, |cols|);
    var at, b := OffsetOf(cols, k), Fit(cells[k].b, cols[k].slot);
    assert OffsetOf(cols, k + 1) == at + |b|;
    OverwriteAt(buf, at, b);
    OverwriteZeros(buf, at, b);
    forall j | 0 <= j < k + 1 ensures SlotWritten(cols, cells, Overwrite(buf, at, b), j) {
      if j < k {
        OffsetGrows(cols, j + 1, k);
        assert SlotWritten(cols, cells, buf, j);
        OverwriteKeeps(buf, at, b, OffsetOf(cols, j), HostSlot(cols[j], cells[j]));
      }
    }
  }

  lemma {:induction false} NothingWritten(cols: Cols, cells: seq<Cell>)
    requires RowCells(cols, cells)
    ensures SlotsWritten(cols, cells, BindCells(cols, cells, 0).buf, 0)
  {}

  lemma {:induction false} OnTrackBinds(cols: Cols, cells: seq<Cell>, k: nat)
    requires RowCells(cols, cells) && OnTrack(cols, cells) && k <= |cols|
    ensures SlotsWritten(cols, cells, BindCells(cols, cells, k).buf, k)
    decreases k
  {
    hide SlotsWritten, BindCells, OffsetOf, RowCells;
    if k == 0 {
      NothingWritten(cols, cells);
    } else {
      OnTrackBinds(cols, cells, k - 1);
      OnTrackStep(cols, cells, k - 1);
    }
  }

  lemma {:induction false} OnTrackStep(cols: Cols, cells: seq<Cell>, k: nat)
    requires RowCells(cols, cells) && k < |cols|
    requires cells[k].Bytes? ==> BindCells(cols, cells, k).off == OffsetOf(cols, k)
    requires SlotsWritten(cols, cells, BindCells(cols, cells, k).buf, k)
    ensures SlotsWritten(cols, cells, BindCells(cols, cells, k + 1).buf, k + 1)
  {
    hide SlotsWritten, Overwrite, Fit;
    var buf := BindCells(cols, cells, k).buf;
    if cells[k] == Null { NullSlotWritten(cols, cells, buf, k); } else { ByteSlotWritten(cols, cells, buf, k); }
  }

  lemma {:induction false} ZerosToNet(t: byte, n: nat)
    ensures ToNet(t, Zeros(n)) == Zeros(n)
  {}

  lemma {:induction false} WrittenIsDirect(cols: Cols, cells: seq<Cell>, buf: Buffer, k: nat)
    requires SlotCells(cols, cells) && k <= |cols| && |buf| == RowBytes(cols)
    requires SlotsWritten(cols, cells, buf, |cols|)
    ensures NetRow(cols, buf, k) == DirectRow(cols, cells, k)
    decreases k
  {
    hide ToNet, NetSlot, SlotsWritten, HostSlot;
    if k > 0 {
      WrittenIsDirect(cols, cells, buf, k - 1);
      SlotIsDirect(cols, cells, buf, k - 1);
    }
  }

  lemma {:induction false} SlotIsDirect(cols: Cols, cells: seq<Cell>, buf: Buffer, j: nat)
    requires SlotCells(cols, cells) && j < |cols| && |buf| == RowBytes(cols)
    requires SlotsWritten(cols, cells, buf, |cols|)
    ensures OffsetOf(cols, j) <= OffsetOf(cols, j + 1) <= |buf|
    ensures ToNet(cols[j].t, buf[OffsetOf(cols, j)..OffsetOf(cols, j + 1)]) ==
            NetSlot(cols[j], cells[j])
  {
    hide ToNet, Zeros, ZerosFrom;
    OffsetGrows(cols, j + 1, |cols|);
    assert SlotWritten(cols, cells, buf, j);
    AtSlice(buf, OffsetOf(cols, j), HostSlot(cols[j], cells[j]));
    ZerosToNet(cols[j].t, cols[j].slot);
  }

  /** On track, both builders give the same row, NULLs and strings included. */
  lemma {:induction false} OnTrackRowsAgree(cols: Cols, cells: seq<Cell>)
    requires SlotCells(cols, cells) && RowCells(cols, cells) && OnTrack(cols, cells)
    ensures BoundRow(cols, cells) == DirectRow(cols, cells, |cols|)
  {
    hide SlotsWritten, OnTrack;
    OnTrackBinds(cols, cells, |cols|);
    WrittenIsDirect(cols, cells, BindCells(cols, cells, |cols|).buf, |cols|);
  }

  lemma {:induction false} AlignedOffsets(cols: Cols, cells: seq<Cell>, k: nat)
    requires RowCells(cols, cells) && AlignedRow(cols, cells) && k < |cols|
    ensures BindCells(cols, cells, k).off == OffsetOf(cols, k)
    decreases k
  {
    hide Overwrite, Fit;
    if k > 0 {
      AlignedOffsets(cols, cells, k - 1);
      OffsetGrows(cols, k, |cols|);
      assert GoodCol(cols[k - 1]);
    }
  }

  /** A row without NULL in a misaligned string column is on track. */
  lemma {:induction false} AlignedIsOnTrack(cols: Cols, cells: seq<Cell>)
    requires RowCells(cols, cells) && AlignedRow(cols, cells)
    ensures OnTrack(cols, cells)
  {
    hide BindCells, OffsetOf, AlignedRow, RowCells;
    forall j | 0 <= j < |cols| ensures BindCells(cols, cells, j).off == OffsetOf(cols, j) {
      AlignedOffsets(cols, cells, j);
    }
  }

  // ---------------------------------------------------------------- when they do not

  lemma {:induction false} NetRowStep(cols: Cols, buf: Buffer, k: nat)
    requires |buf| == RowBytes(cols) && k < |cols|
    ensures OffsetOf(cols, k) <= OffsetOf(cols, k + 1) <= |buf|
    ensures NetRow(cols, buf, k + 1) ==
      NetRow(cols, buf, k) + ToNet(cols[k].t, buf[OffsetOf(cols, k)..OffsetOf(cols, k + 1)])
  {
    hide ToNet;
    OffsetGrows(cols, k + 1, |cols|);
  }

  lemma {:induction false} NetRowAt(cols: Cols, buf: Buffer, k: nat, j: nat)
    requires |buf| == RowBytes(cols) && j < k <= |cols|
    ensures OffsetOf(cols, j) <= OffsetOf(cols, j + 1) <= OffsetOf(cols, k) <= |buf|
    ensures NetRow(cols, buf, k)[OffsetOf(cols, j)..OffsetOf(cols, j + 1)] ==
            ToNet(cols[j].t, buf[OffsetOf(cols, j)..OffsetOf(cols, j + 1)])
    decreases k
  {
    hide ToNet, NetRow;
    OffsetGrows(cols, k, |cols|);
    OffsetGrows(cols, j + 1, k);
    NetRowStep(cols, buf, k - 1);
    if j < k - 1 {
      NetRowAt(cols, buf, k - 1, j);
      var a, b := OffsetOf(cols, j), OffsetOf(cols, j + 1);
      assert NetRow(cols, buf, k)[a..b] == NetRow(cols, buf, k - 1)[a..b];
    }
  }

  lemma {:induction false} DirectRowStep(cols: Cols, cells: seq<Cell>, k: nat)
    requires SlotCells(cols, cells) && k < |cols|
    ensures cells[k].Bytes? ==> |cells[k].b| == cols[k].slot
    ensures DirectRow(cols, cells, k + 1) == DirectRow(cols, cells, k) + NetSlot(cols[k], cells[k])
  {
    hide ToNet, Zeros;
  }

  function Ones(n: nat): (b: Buffer)
    ensures |b| == n && forall i :: 0 <= i < n ==> b[i] == 1
  {
    seq(n, _ => 1)
  }

  predicate SameNulls(a: seq<Cell>, b: seq<Cell>) {
    |a| == |b| && forall i :: 0 <= i < |a| ==> (a[i] == Null <==> b[i] == Null)
  }

  lemma {:induction false} OffsetByNulls(cols: Cols, a: seq<Cell>, b: seq<Cell>, k: nat)
    requires RowCells(cols, a) && RowCells(cols, b) && SameNulls(a, b) && k <= |cols|
    ensures BindCells(cols, a, k).off == BindCells(cols, b, k).off
    decreases k
  {
    hide Overwrite, Fit;
    if k > 0 { OffsetByNulls(cols, a, b, k - 1); }
  }

  /** The same NULLs, ones in column j, zeros everywhere else. */
  function OneValue(cols: Cols, cells: seq<Cell>, j: nat): (v: seq<Cell>)
    requires |cells| == |cols| && j < |cols| && cells[j].Bytes?
    ensures SlotCells(cols, v) && RowCells(cols, v) && SameNulls(cells, v) && v[j] == Bytes(Ones(cols[j].slot))
  {
    seq(|cols|, i requires 0 <= i < |cols| =>
      if cells[i] == Null then Null else Bytes(if i == j then Ones(cols[i].slot) else Zeros(cols[i].slot)))
  }

  /** The ones stand where column j is bound, or nowhere. */
  lemma {:induction false} OnlyOnes(cols: Cols, cells: seq<Cell>, j: nat, k: nat, p: nat)
    requires |cells| == |cols| && j < |cols| && cells[j].Bytes? && k <= |cols| && p < RowBytes(cols)
    requires var off := BindCells(cols, OneValue(cols, cells, j), j).off; p < off || off + cols[j].slot <= p
    ensures BindCells(cols, OneValue(cols, cells, j), k).buf[p] == 0
    decreases k
  {
    if k > 0 {
      OnlyOnes(cols, cells, j, k - 1, p);
      hide OneValue;
    }
  }

  lemma {:induction false} ToNetInjective(t: byte, a: Buffer, b: Buffer)
    requires ToNet(t, a) == ToNet(t, b)
    ensures a == b
  {
    assert |a| == |ToNet(t, a)| == |b|;
    forall i | 0 <= i < |a| ensures a[i] == b[i] {
      assert Reverse(a)[|a| - 1 - i] == a[i] && Reverse(b)[|a| - 1 - i] == b[i];
    }
  }

  /** A value bound elsewhere than in its slot: with ones there the builders differ. */
  lemma {:induction false} OffTrack(cols: Cols, cells: seq<Cell>, j: nat)
    requires RowCells(cols, cells) && j < |cols| && cells[j].Bytes?
    requires BindCells(cols, cells, j).off != OffsetOf(cols, j)
    ensures BoundRow(cols, OneValue(cols, cells, j)) != DirectRow(cols, OneValue(cols, cells, j), |cols|)
  {
    hide Zeros, Ones, Overwrite, ToNet, BindCells, DirectRow, NetRow, OneValue;
    var row := OneValue(cols, cells, j);
    var at, w, off := OffsetOf(cols, j), cols[j].slot, BindCells(cols, row, j).off;
    var buf := BindCells(cols, row, |cols|).buf;
    OffsetByNulls(cols, cells, row, j);
    OffsetGrows(cols, j + 1, |cols|);
    NetRowAt(cols, buf, |cols|, j);
    DirectSlotAt(cols, row, |cols|, j);
    var p := if off < at then at + w - 1 else at;
    OnlyOnes(cols, cells, j, |cols|, p);
    assert buf[at..at + w][p - at] == 0 && Ones(w)[p - at] == 1;
    if BoundRow(cols, row) == DirectRow(cols, row, |cols|) { ToNetInjective(cols[j].t, buf[at..at + w], Ones(w)); }
  }

  ghost predicate RowsAgree(cols: Cols, cells: seq<Cell>) {
    SlotCells(cols, cells) ==> RowCells(cols, cells) && BoundRow(cols, cells) == DirectRow(cols, cells, |cols|)
  }

  /** With NULLs in given columns the two builders give the same bytes for all values exactly
      when every value is bound where its slot is. */
  lemma {:induction false} RowsAgreeIffOnTrack(cols: Cols, nulls: seq<Cell>)
    requires RowCells(cols, nulls)
    ensures OnTrack(cols, nulls) <==> forall cells :: SameNulls(nulls, cells) ==> RowsAgree(cols, cells)
  {
    hide BindCells, BoundRow, DirectRow, OneValue;
    if OnTrack(cols, nulls) {
      forall cells | SameNulls(nulls, cells) ensures RowsAgree(cols, cells) {
        if SlotCells(cols, cells) {
          SlotCellsBind(cols, cells);
          forall j | 0 <= j < |cols| { OffsetByNulls(cols, nulls, cells, j); }
          OnTrackRowsAgree(cols, cells);
        }
      }
    } else {
      var j :| 0 <= j < |cols| && nulls[j].Bytes? && BindCells(cols, nulls, j).off != OffsetOf(cols, j);
      OffTrack(cols, nulls, j);
      assert !RowsAgree(cols, OneValue(cols, nulls, j));
    }
  }

  /** Zeros everywhere, NULL in column i. */
  function OneNull(cols: Cols, i: nat): (cells: seq<Cell>)
    requires i < |cols|
    ensures RowCells(cols, cells) && cells[i] == Null && forall k :: 0 <= k < |cols| && k != i ==> cells[k].Bytes?
  {
    seq(|cols|, k requires 0 <= k < |cols| => if k == i then Null else Bytes(Zeros(cols[k].slot)))
  }

  /** A NULL in a string column of another slot than 4 takes the next column off its track. */
  lemma {:induction false} NullShifts(cols: Cols, i: nat)
    requires i + 1 < |cols| && IsStr(cols[i].t) && cols[i].slot != 4
    ensures !OnTrack(cols, OneNull(cols, i))
  {
    var cells := OneNull(cols, i);
    hide OneNull, Overwrite, Fit;
    ValuesAdvance(cols, cells, i);
    NullAdvance(cols, cells, i);
    hide BindCells, OffsetOf;
    assert cells[i + 1].Bytes? && BindCells(cols, cells, i + 1).off != OffsetOf(cols, i + 1);
  }

  lemma {:induction false} ValuesAdvance(cols: Cols, cells: seq<Cell>, k: nat)
    requires RowCells(cols, cells) && k <= |cols| && forall i :: 0 <= i < k ==> cells[i].Bytes?
    ensures BindCells(cols, cells, k).off == OffsetOf(cols, k)
    decreases k
  {
    hide Overwrite, Fit;
    if k > 0 {
      ValuesAdvance(cols, cells, k - 1);
      OffsetGrows(cols, k, |cols|);
    }
  }

  lemma {:induction false} NullAdvance(cols: Cols, cells: seq<Cell>, k: nat)
    requires RowCells(cols, cells) && k < |cols| && cells[k] == Null && IsStr(cols[k].t)
    ensures BindCells(cols, cells, k + 1).off == BindCells(cols, cells, k).off + 4
    ensures OffsetOf(cols, k + 1) == OffsetOf(cols, k) + cols[k].slot
  {
    hide Overwrite, Fit;
  }

  /** The two builders give the same bytes for every row exactly when no string column of
      another size than 4 is followed by a column. */
  lemma {:induction false} RowsAgreeIffAligned(cols: Cols)
    ensures Aligned(cols) <==> forall cells :: RowsAgree(cols, cells)
  {
    hide BoundRow, DirectRow, OnTrack, RowsAgree;
    if Aligned(cols) {
      forall cells ensures RowsAgree(cols, cells) { AlignedRowAgrees(cols, cells); }
    } else {
      var i :| 0 <= i < |cols| - 1 && IsStr(cols[i].t) && cols[i].slot != 4;
      NullShifts(cols, i);
      RowsAgreeIffOnTrack(cols, OneNull(cols, i));
    }
  }

  /** Rows agree whenever no NULL stands in a misaligned string column before the last. */
  lemma {:induction false} AlignedRowAgrees(cols: Cols, cells: seq<Cell>)
    requires |cells| == |cols| ==> AlignedRow(cols, cells)
    ensures RowsAgree(cols, cells)
  {
    hide BoundRow, DirectRow, OnTrack;
    if SlotCells(cols, cells) {
      SlotCellsBind(cols, cells);
      AlignedIsOnTrack(cols, cells);
      OnTrackRowsAgree(cols, cells);
    }
  }

  // ---------------------------------------------------------------- what a row says on the wire

  /** A slot on the wire: the numbers of more than one byte are big-endian, bool and tinyint
      one byte, strings padded with zeros; NULL is zero. */
  ghost predicate CellSent(slot: Buffer, c: BindCol, cell: Cell) {
    |slot| == c.slot &&
    match cell
    case Null => forall i :: 0 <= i < |slot| ==> slot[i] == 0
    case Bytes(b) =>
      if c.t in {0, 5, 7} then |slot| == 8 && FromBE(slot) == FromLE(b)
      else if c.t in {4, 6} then |slot| == 4 && FromBE(slot) == FromLE(b)
      else if c.t == 3 then |slot| == 2 && FromBE(slot) == FromLE(b)
      else if c.t in {1, 2} then |slot| == 1 && slot == b
      else forall i :: 0 <= i < |slot| ==> slot[i] == if i < |b| then b[i] else 0
  }

  ghost predicate RowSent(cols: Cols, cells: seq<Cell>, row: Buffer)
    requires |cells| == |cols|
  {
    |row| == RowBytes(cols) && forall c :: 0 <= c < |cols| ==> SlotSent(cols, cells, row, c)
  }

  ghost predicate SlotSent(cols: Cols, cells: seq<Cell>, row: Buffer, c: nat)
    requires |cells| == |cols| && c < |cols|
  {
    OffsetOf(cols, c) + cols[c].slot <= |row| &&
    CellSent(row[OffsetOf(cols, c)..OffsetOf(cols, c) + cols[c].slot], cols[c], cells[c])
  }

  lemma {:induction false} ReversedReads(b: Buffer)
    ensures FromBE(Reverse(b)) == FromLE(b)
  {
    if b != [] {
      ReversedReads(b[1..]);
      assert Reverse(b)[..|b| - 1] == Reverse(b[1..]) && Reverse(b)[|b| - 1] == b[0];
    }
  }

  lemma {:induction false} NetSlotSent(c: BindCol, cell: Cell)
    requires GoodCol(c) && (cell.Bytes? && !IsStr(c.t) ==> |cell.b| == c.slot)
    ensures CellSent(ToNet(c.t, HostSlot(c, cell)), c, cell)
  {
    if cell == Null { ZerosToNet(c.t, c.slot); } else { ReversedReads(cell.b); }
  }

  /** On track, a row bound and added says what was bound. */
  lemma {:induction false} BoundRowSent(cols: Cols, cells: seq<Cell>)
    requires RowCells(cols, cells) && OnTrack(cols, cells)
    ensures RowSent(cols, cells, BoundRow(cols, cells))
  {
    assert |cells| == |cols|;
    hide BindCells, NetRow, OnTrack, SlotsWritten, SlotSent, RowCells;
    var buf := BindCells(cols, cells, |cols|).buf;
    OnTrackBinds(cols, cells, |cols|);
    forall c | 0 <= c < |cols| ensures SlotSent(cols, cells, BoundRow(cols, cells), c) {
      BoundSlotSent(cols, cells, buf, c);
    }
  }

  lemma {:induction false} BoundSlotSent(cols: Cols, cells: seq<Cell>, buf: Buffer, c: nat)
    requires RowCells(cols, cells) && c < |cols| && |buf| == RowBytes(cols)
    requires SlotsWritten(cols, cells, buf, |cols|)
    ensures SlotSent(cols, cells, NetRow(cols, buf, |cols|), c)
  {
    hide NetRow, ToNet, HostSlot, ZerosFrom, CellSent, At;
    NetRowAt(cols, buf, |cols|, c);
    assert SlotWritten(cols, cells, buf, c) && GoodCol(cols[c]);
    AtSlice(buf, OffsetOf(cols, c), HostSlot(cols[c], cells[c]));
    assert OffsetOf(cols, c + 1) == OffsetOf(cols, c) + cols[c].slot;
    NetSlotSent(cols[c], cells[c]);
  }

  /** A row of a columnar bind says what was bound. */
  lemma {:induction false} DirectRowSent(cols: Cols, cells: seq<Cell>)
    requires SlotCells(cols, cells)
    ensures RowSent(cols, cells, DirectRow(cols, cells, |cols|))
  {
    hide NetSlot, ToNet, HostSlot, CellSent, DirectRow, RowCells;
    forall c | 0 <= c < |cols| ensures SlotSent(cols, cells, DirectRow(cols, cells, |cols|), c) {
      DirectSlotAt(cols, cells, |cols|, c);
      NetSlotIs(cols, cells, c);
      NetSlotSent(cols[c], cells[c]);
    }
  }

  lemma {:induction false} NetSlotIs(cols: Cols, cells: seq<Cell>, c: nat)
    requires SlotCells(cols, cells) && c < |cols|
    ensures GoodCol(cols[c]) && (cells[c].Bytes? ==> |cells[c].b| == cols[c].slot)
    ensures NetSlot(cols[c], cells[c]) == ToNet(cols[c].t, HostSlot(cols[c], cells[c]))
  {
    if cells[c] == Null { ZerosToNet(cols[c].t, cols[c].slot); }
  }

  lemma {:induction false} DirectSlotAt(cols: Cols, cells: seq<Cell>, k: nat, j: nat)
    requires SlotCells(cols, cells) && j < k <= |cols|
    ensures cells[j].Bytes? ==> |cells[j].b| == cols[j].slot
    ensures OffsetOf(cols, j) + cols[j].slot == OffsetOf(cols, j + 1) <= OffsetOf(cols, k)
    ensures DirectRow(cols, cells, k)[OffsetOf(cols, j)..OffsetOf(cols, j + 1)] == NetSlot(cols[j], cells[j])
    decreases k
  {
    hide NetSlot, DirectRow;
    OffsetGrows(cols, j + 1, k);
    DirectRowStep(cols, cells, k - 1);
    if j < k - 1 {
      DirectSlotAt(cols, cells, k - 1, j);
      var a, b := OffsetOf(cols, j), OffsetOf(cols, j + 1);
      assert DirectRow(cols, cells, k)[a..b] == DirectRow(cols, cells, k - 1)[a..b];
    }
  }

  // ---------------------------------------------------------------- the submit block

  const BLOCK_HEADER := 28

  /** SDataBlock before its rows: schema version, table uid, data length and row count
      (16 bits), with the super-table uid, schema length and padding zero. */
  function BlockHeader(sversion: nat, uid: nat, dataLen: nat, rows: nat): (h: Buffer)
    ensures |h| == BLOCK_HEADER
  {
    ToBE(sversion, 4) + Zeros(4) + ToBE(uid, 8) + ToBE(dataLen, 4) + Zeros(4) + ToBE(rows, 2) + Zeros(2)
  }

  function Concat(rows: seq<Buffer>): Buffer {
    if rows == [] then [] else Concat(rows[..|rows| - 1]) + rows[|rows| - 1]
  }

  lemma {:induction false} ConcatGrows(rows: seq<Buffer>, row: Buffer)
    ensures Concat(rows + [row]) == Concat(rows) + row
  {
    assert (rows + [row])[..|rows|] == rows;
  }

  lemma {:induction false} ConcatLength(rows: seq<Buffer>, w: nat)
    requires forall r :: 0 <= r < |rows| ==> |rows[r]| == w
    ensures |Concat(rows)| == SlotAt(w, |rows|)
    decreases |rows|
  {
    hide SlotAt;
    SlotZero(w);
    if rows != [] {
      ConcatLength(rows[..|rows| - 1], w);
      SlotNext(w, |rows| - 1);
    }
  }

  /** The submit request around one block: total length, one block, padding. */
  function SubmitMessage(block: Buffer): Buffer { ToBE(8 + |block|, 4) + ToBE(1, 2) + Zeros(2) + block }

  function Block(sversion: nat, uid: nat, cols: Cols, rows: seq<Buffer>): Buffer {
    BlockHeader(sversion, uid, SlotAt(RowBytes(cols), |rows|), |rows|) + Concat(rows)
  }

  // ---------------------------------------------------------------- what a request says

  predicate AllZero(b: Buffer) { forall i :: 0 <= i < |b| ==> b[i] == 0 }

  /** A request of n rows of w bytes: its length, one block, the schema version, the table uid,
      the bytes and the number of rows, each big-endian, everything else in front zero. */
  ghost predicate RequestSays(m: Buffer, sversion: nat, uid: nat, w: nat, n: nat) {
    |m| == 36 + SlotAt(w, n) &&
    (|m| < 0x1_0000_0000 ==> FromBE(m[0..4]) == |m|) && FromBE(m[4..6]) == 1 && AllZero(m[6..8]) &&
    (sversion < 0x1_0000_0000 ==> FromBE(m[8..12]) == sversion) && AllZero(m[12..16]) &&
    (uid < 0x1_0000_0000_0000_0000 ==> FromBE(m[16..24]) == uid) &&
    (SlotAt(w, n) < 0x1_0000_0000 ==> FromBE(m[24..28]) == SlotAt(w, n)) && AllZero(m[28..32]) &&
    (n < 0x1_0000 ==> FromBE(m[32..34]) == n) && AllZero(m[34..36])
  }

  /** Row r of a request whose rows take w bytes. */
  function RowIn(m: Buffer, w: nat, r: nat): (row: Buffer)
    requires 36 + SlotAt(w, r) + w <= |m|
  {
    m[36 + SlotAt(w, r)..36 + SlotAt(w, r) + w]
  }

  ghost predicate RowsAre(m: Buffer, w: nat, rows: seq<Buffer>) {
    forall r :: 0 <= r < |rows| ==> RowIs(m, w, r, rows[r])
  }

  ghost predicate RowIs(m: Buffer, w: nat, r: nat, row: Buffer) {
    36 + SlotAt(w, r) + w <= |m| && RowIn(m, w, r) == row
  }

  lemma {:induction false} MessageSays(sversion: nat, uid: nat, cols: Cols, rows: seq<Buffer>)
    requires forall r :: 0 <= r < |rows| ==> |rows[r]| == RowBytes(cols)
    ensures var m := SubmitMessage(Block(sversion, uid, cols, rows));
            RequestSays(m, sversion, uid, RowBytes(cols), |rows|) && RowsAre(m, RowBytes(cols), rows)
  {
    hide SlotAt, Concat, ToBE, FromBE, RequestSays, RowIs;
    var w, block := RowBytes(cols), Block(sversion, uid, cols, rows);
    var m := SubmitMessage(block);
    BlockLength(sversion, uid, cols, rows);
    HeaderSays(sversion, uid, w, |rows|, Concat(rows));
    forall r | 0 <= r < |rows| ensures RowIs(m, w, r, rows[r]) {
      ConcatAt(rows, w, r);
      RowFollows(sversion, uid, w, |rows|, Concat(rows), r, rows[r]);
    }
  }

  lemma {:induction false} ConcatAt(rows: seq<Buffer>, w: nat, r: nat)
    requires (forall i :: 0 <= i < |rows| ==> |rows[i]| == w) && r < |rows|
    ensures SlotAt(w, r) + w <= |Concat(rows)| && Concat(rows)[SlotAt(w, r)..SlotAt(w, r) + w] == rows[r]
    decreases |rows|
  {
    hide SlotAt;
    var last := |rows| - 1;
    ConcatLength(rows[..last], w);
    if r < last {
      ConcatAt(rows[..last], w, r);
      var a, b := SlotAt(w, r), SlotAt(w, r) + w;
      assert Concat(rows)[a..b] == Concat(rows[..last])[a..b];
    }
  }

  lemma {:induction false} RowFollows(sversion: nat, uid: nat, w: nat, n: nat, data: Buffer, r: nat, row: Buffer)
    requires SlotAt(w, r) + w <= |data| && data[SlotAt(w, r)..SlotAt(w, r) + w] == row
    ensures RowIs(SubmitMessage(BlockHeader(sversion, uid, SlotAt(w, n), n) + data), w, r, row)
  {
    hide SlotAt, ToBE, BlockHeader;
    var h := BlockHeader(sversion, uid, SlotAt(w, n), n);
    var front := ToBE(8 + |h + data|, 4) + ToBE(1, 2) + Zeros(2) + h;
    assert SubmitMessage(h + data) == front + data && |front| == 36;
  }

  /** The fields of the request and of the block, one behind the other. */
  lemma {:induction false} HeaderSays(sversion: nat, uid: nat, w: nat, n: nat, data: Buffer)
    requires |data| == SlotAt(w, n)
    ensures RequestSays(SubmitMessage(BlockHeader(sversion, uid, SlotAt(w, n), n) + data), sversion, uid, w, n)
  {
    hide SlotAt, ToBE, FromBE, Zeros;
    Powers();
    var len := |data|;
    var block := BlockHeader(sversion, uid, len, n) + data;
    var m := SubmitMessage(block);
    FieldsApart(sversion, uid, len, n, data);
    assert |m| == 36 + len;
    if |m| < 0x1_0000_0000 { BigEndianReadsBack(|m|, 4); }
    BigEndianReadsBack(1, 2);
    if sversion < 0x1_0000_0000 { BigEndianReadsBack(sversion, 4); }
    if uid < 0x1_0000_0000_0000_0000 { BigEndianReadsBack(uid, 8); }
    if len < 0x1_0000_0000 { BigEndianReadsBack(len, 4); }
    if n < 0x1_0000 { BigEndianReadsBack(n, 2); }
  }

  lemma {:induction false} FieldsApart(sversion: nat, uid: nat, len: nat, n: nat, data: Buffer)
    ensures var m := SubmitMessage(BlockHeader(sversion, uid, len, n) + data);
            |m| == 36 + |data| && m[0..4] == ToBE(|m|, 4) && m[4..6] == ToBE(1, 2) && AllZero(m[6..8]) &&
            m[8..12] == ToBE(sversion, 4) && AllZero(m[12..16]) && m[16..24] == ToBE(uid, 8) &&
            m[24..28] == ToBE(len, 4) && AllZero(m[28..32]) && m[32..34] == ToBE(n, 2) && AllZero(m[34..36])
  {
    hide ToBE;
  }

  // ---------------------------------------------------------------- the statement object

  datatype StmtState = Prepared | Binding | Batched

  class EtDBStmt {
    const cols: Cols
    const uid: nat
    const sversion: nat
    const rowBuf: array<byte>
    var state: StmtState
    var batchData: Buffer
    var batchRows: nat
    ghost var rows: seq<Buffer>       // the rows of the batch in network order
    ghost var bound: seq<Cell>        // the row in the row buffer

    ghost predicate Valid()
      reads this, rowBuf
    {
      rowBuf.Length == RowBytes(cols) && batchRows == |rows| &&
      (forall r :: 0 <= r < |rows| ==> |rows[r]| == RowBytes(cols)) &&
      (if batchData == [] then rows == [] else ZeroParts(batchData) && batchData[BLOCK_HEADER..] == Concat(rows)) &&
      (state == Batched ==> batchData != []) &&
      (state == Binding ==> RowCells(cols, bound) && rowBuf[..] == BindCells(cols, bound, |cols|).buf)
    }

    /** A prepared statement: column types, slots, table and schema version are known. */
    constructor (cols: Cols, uid: nat, sversion: nat)
      ensures Valid() && state == Prepared && rows == [] && fresh(rowBuf)
      ensures this.cols == cols && this.uid == uid && this.sversion == sversion
    {
      this.cols, this.uid, this.sversion := cols, uid, sversion;
      rowBuf := new byte[RowBytes(cols)];
      state, batchData, batchRows, rows, bound := Prepared, [], 0, [], [];
    }

    /** Binds one row into the row buffer. */
    method BindParam(binds: seq<Cell>) returns (ok: bool)
      requires Valid() && (|binds| == |cols| ==> RowCells(cols, binds))
      modifies this`state, this`bound, rowBuf
      ensures Valid() && (ok <==> |binds| == |cols|)
      ensures if ok then state == Binding && bound == binds else state == old(state)
    {
      hide Concat, ZeroParts;
      if |binds| != |cols| { return false; }
      for i := 0 to rowBuf.Length
        invariant forall j :: 0 <= j < i ==> rowBuf[j] == 0
      {
        rowBuf[i] := 0;
      }
      var offset := 0;
      assert rowBuf[..] == Zeros(RowBytes(cols));
      for i := 0 to |binds|
        invariant Bound(rowBuf[..], offset) == BindCells(cols, binds, i)
      {
        offset := BindOne(cols[i], binds[i], offset);
      }
      state, bound := Binding, binds;
      return true;
    }

    /** One column into the row buffer: its bytes when they still fit, the next offset. */
    method BindOne(c: BindCol, cell: Cell, offset: nat) returns (next: nat)
      modifies rowBuf
      ensures match cell
              case Null => next == offset + PlainWidth(c.t) && rowBuf[..] == old(rowBuf[..])
              case Bytes(b) =>
                if offset + c.slot <= rowBuf.Length
                then next == offset + c.slot && rowBuf[..] == Overwrite(old(rowBuf[..]), offset, Fit(b, c.slot))
                else next == offset && rowBuf[..] == old(rowBuf[..])
    {
      hide Fit, Overwrite;
      if cell == Null { return offset + PlainWidth(c.t); }
      if offset + c.slot > rowBuf.Length { return offset; }
      var b := Fit(cell.b, c.slot);
      for i := 0 to |b|
        invariant forall j :: 0 <= j < rowBuf.Length ==>
          rowBuf[j] == if offset <= j < offset + i then b[j - offset] else old(rowBuf[j])
      {
        rowBuf[offset + i] := b[i];
      }
      assert rowBuf[..] == Overwrite(old(rowBuf[..]), offset, b);
      return offset + c.slot;
    }

    /** The row buffer in network order. */
    method NetOfRowBuf() returns (dst: Buffer)
      requires rowBuf.Length == RowBytes(cols)
      ensures dst == NetRow(cols, rowBuf[..], |cols|)
    {
      hide NetRow, ToNet;
      dst := [];
      var srcOff := 0;
      NetRowNone(cols, rowBuf[..]);
      for ci := 0 to |cols|
        invariant srcOff == OffsetOf(cols, ci) && dst == NetRow(cols, rowBuf[..], ci)
      {
        OffsetGrows(cols, ci + 1, |cols|);
        var slot := rowBuf[srcOff..srcOff + cols[ci].slot];
        NetRowStep(cols, rowBuf[..], ci);
        assert OffsetOf(cols, ci + 1) == srcOff + cols[ci].slot;
        dst := dst + ToNet(cols[ci].t, slot);
        srcOff := srcOff + cols[ci].slot;
      }
    }

    /** Appends the bound row to the batch, in network order. */
    method AddBatch() returns (ok: bool)
      requires Valid()
      modifies this`state, this`batchData, this`batchRows, this`rows
      ensures Valid() && (ok <==> old(state) == Binding)
      ensures ok ==> state == Batched && RowCells(cols, bound) && rows == old(rows) + [BoundRow(cols, bound)]
      ensures ok && OnTrack(cols, bound) ==> RowSent(cols, bound, rows[|rows| - 1])
      ensures !ok ==> state == old(state) && rows == old(rows) && batchData == old(batchData)
    {
      hide Concat, BindCells, NetRow, BlockHeader, RowSent, OnTrack, RowCells, Zeros;
      if state != Binding { return false; }
      if OnTrack(cols, bound) { BoundRowSent(cols, bound); }
      var dst := NetOfRowBuf();
      if batchData == [] { batchData := Zeros(BLOCK_HEADER); EmptyConcat(); }
      ConcatGrows(rows, dst);
      RowAppended(batchData, dst);
      batchData := batchData + dst;
      rows := rows + [dst];
      batchRows := batchRows + 1;
      state := Batched;
      return true;
    }

    /** Binds columns; the whole block is built at once and replaces any batch. */
    method BindParamBatch(binds: seq<seq<Cell>>, numRows: nat) returns (ok: bool)
      requires Valid() && |cols| > 0 && (|binds| == |cols| ==> ColumnCells(cols, binds, numRows))
      modifies this`state, this`batchData, this`batchRows, this`rows
      ensures Valid() && (ok <==> old(state) != Binding && |binds| == |cols|)
      ensures ok ==> state == Batched && ColumnCells(cols, binds, numRows) && rows == DirectRows(cols, binds, numRows)
      ensures ok ==> |rows| == numRows && forall r :: 0 <= r < numRows ==> RowSent(cols, RowOf(binds, r), rows[r])
      ensures !ok ==> state == old(state) && rows == old(rows) && batchData == old(batchData)
    {
      hide Concat, DirectRow, BlockHeader, ColumnCells, SlotAt, RowSent;
      if |binds| == |cols| { DirectRowsSent(cols, binds, numRows); }
      if state == Binding || |binds| != |cols| { return false; }
      var total := SlotAt(RowBytes(cols), numRows);
      var header := BlockHeader(sversion, uid, total, numRows);
      var data := BuildRows(cols, binds, numRows, header);
      batchData := data;
      rows := DirectRows(cols, binds, numRows);
      batchRows := numRows;
      state := Batched;
      HeaderIsZeros(sversion, uid, total, numRows, Concat(rows));
      return true;
    }

    /** execute: the header is brought up to date, the request built around the block, the
        batch cleared.  The connection and what the server answers are outside. */
    method Submit(connected: bool) returns (message: Option<Buffer>)
      requires Valid()
      modifies this`state, this`batchData, this`batchRows, this`rows
      ensures Valid()
      ensures message.Some? <==> old(state) == Batched && connected && uid != 0
      ensures message.Some? ==> message.value == SubmitMessage(Block(sversion, uid, cols, old(rows)))
      ensures message.Some? ==> RequestSays(message.value, sversion, uid, RowBytes(cols), |old(rows)|) &&
                                RowsAre(message.value, RowBytes(cols), old(rows))
      ensures if message.Some? then state == Prepared && rows == [] else state == old(state) && rows == old(rows)
    {
      hide Concat, Overwrite, SlotAt, RequestSays, RowsAre;
      MessageSays(sversion, uid, cols, rows);
      if state != Batched || batchData == [] { return None; }
      if !connected || uid == 0 { return None; }
      HeaderRewritten(batchData, sversion, uid, SlotAt(RowBytes(cols), batchRows), batchRows);
      batchData := Overwrite(batchData, 0, ToBE(sversion, 4));
      batchData := Overwrite(batchData, 8, ToBE(uid, 8));
      batchData := Overwrite(batchData, 16, ToBE(SlotAt(RowBytes(cols), batchRows), 4));
      batchData := Overwrite(batchData, 24, ToBE(batchRows, 2));
      message := Some(SubmitMessage(batchData));
      batchData, batchRows, rows, state := [], 0, [], Prepared;
    }
  }

  // ---------------------------------------------------------------- columns to rows

  /** Every column has a cell for every row, each filling its slot. */
  ghost predicate ColumnCells(cols: Cols, binds: seq<seq<Cell>>, numRows: nat) {
    |binds| == |cols| && (forall c :: 0 <= c < |cols| ==> |binds[c]| >= numRows) &&
    forall r :: 0 <= r < numRows ==> SlotCells(cols, RowOf(binds, r))
  }

  function RowOf(binds: seq<seq<Cell>>, r: nat): (cells: seq<Cell>)
    requires forall c :: 0 <= c < |binds| ==> r < |binds[c]|
    ensures |cells| == |binds|
  {
    seq(|binds|, c requires 0 <= c < |binds| => binds[c][r])
  }

  ghost function DirectRows(cols: Cols, binds: seq<seq<Cell>>, n: nat): (rows: seq<Buffer>)
    requires ColumnCells(cols, binds, n)
    ensures |rows| == n && forall r :: 0 <= r < n ==> |rows[r]| == RowBytes(cols)
  {
    seq(n, r requires 0 <= r < n => DirectRow(cols, RowOf(binds, r), |cols|))
  }

  lemma {:induction false} DirectRowsSent(cols: Cols, binds: seq<seq<Cell>>, n: nat)
    requires ColumnCells(cols, binds, n)
    ensures forall r :: 0 <= r < n ==> |binds| == |cols| && (forall c :: 0 <= c < |binds| ==> r < |binds[c]|) &&
                                       RowSent(cols, RowOf(binds, r), DirectRows(cols, binds, n)[r])
  {
    hide DirectRow, RowSent, SlotCells;
    forall r | 0 <= r < n ensures RowSent(cols, RowOf(binds, r), DirectRows(cols, binds, n)[r]) {
      DirectRowSent(cols, RowOf(binds, r));
    }
  }

  lemma {:induction false} DirectRowsNext(cols: Cols, binds: seq<seq<Cell>>, n: nat)
    requires ColumnCells(cols, binds, n + 1)
    ensures ColumnCells(cols, binds, n) && (forall c :: 0 <= c < |binds| ==> n < |binds[c]|) &&
      SlotCells(cols, RowOf(binds, n))
    ensures DirectRows(cols, binds, n + 1) == DirectRows(cols, binds, n) + [DirectRow(cols, RowOf(binds, n), |cols|)]
  {
    hide DirectRow, SlotCells;
  }

  lemma {:induction false} FewerRows(cols: Cols, binds: seq<seq<Cell>>, n: nat, m: nat)
    requires ColumnCells(cols, binds, n) && m <= n
    ensures ColumnCells(cols, binds, m)
  {
    hide SlotCells;
  }

  lemma {:induction false} OverwriteNext(data: Buffer, at: nat, b: Buffer)
    requires at + |b| <= |data|
    ensures Overwrite(data, at, b)[..at + |b|] == data[..at] + b
  {}

  /** The zero-filled block behind the header, written row by row and column by column. */
  method BuildRows(cols: Cols, binds: seq<seq<Cell>>, numRows: nat, header: Buffer) returns (data: Buffer)
    requires ColumnCells(cols, binds, numRows) && |header| == BLOCK_HEADER
    ensures data == header + Concat(DirectRows(cols, binds, numRows))
  {
    hide Concat, DirectRow, SlotAt, ColumnCells, DirectRows, RowOf;
    var w := RowBytes(cols);
    data := header + Zeros(SlotAt(w, numRows));
    var at := BLOCK_HEADER;
    SlotZero(w);
    NoDirectRows(cols, binds, numRows);
    assert data[..at] == header + [];
    for ri := 0 to numRows
      invariant |data| == BLOCK_HEADER + SlotAt(w, numRows) && at == BLOCK_HEADER + SlotAt(w, ri)
      invariant ColumnCells(cols, binds, ri) && at <= |data|
      invariant data[..at] == header + Concat(DirectRows(cols, binds, ri))
    {
      FewerRows(cols, binds, numRows, ri + 1);
      SlotInside(w, ri, numRows);
      SlotNext(w, ri);
      data := WriteRow(cols, binds, ri, numRows, data, at);
      DirectRowsNext(cols, binds, ri);
      ConcatGrows(DirectRows(cols, binds, ri), DirectRow(cols, RowOf(binds, ri), |cols|));
      at := at + w;
    }
    assert data[..at] == data;
  }

  method WriteRow(cols: Cols, binds: seq<seq<Cell>>, ri: nat, ghost numRows: nat, data0: Buffer, base: nat)
      returns (data: Buffer)
    requires ColumnCells(cols, binds, numRows) && ri < numRows && base + RowBytes(cols) <= |data0|
    ensures |data| == |data0| && SlotCells(cols, RowOf(binds, ri))
    ensures data[..base + RowBytes(cols)] == data0[..base] + DirectRow(cols, RowOf(binds, ri), |cols|)
  {
    hide DirectRow, Overwrite, NetSlot, SlotCells;
    ghost var cells := RowOf(binds, ri);
    assert SlotCells(cols, cells);
    data := data0;
    var rowOff := 0;
    assert DirectRow(cols, cells, 0) == [] by { DirectRowNone(cols, cells); }
    assert data[..base] == data0[..base] + [];
    for ci := 0 to |cols|
      invariant |data| == |data0| && rowOff == OffsetOf(cols, ci) && rowOff <= RowBytes(cols)
      invariant data[..base + rowOff] == data0[..base] + DirectRow(cols, cells, ci)
    {
      OffsetGrows(cols, ci + 1, |cols|);
      var cb := cols[ci].slot;
      SlotLength(cols, cells, ci);
      var b := NetSlot(cols[ci], binds[ci][ri]);
      DirectRowStep(cols, cells, ci);
      OverwriteNext(data, base + rowOff, b);
      data := Overwrite(data, base + rowOff, b);
      rowOff := rowOff + cb;
    }
  }

  lemma {:induction false} SlotLength(cols: Cols, cells: seq<Cell>, i: nat)
    requires SlotCells(cols, cells) && i < |cols|
    ensures cells[i].Bytes? ==> |cells[i].b| == cols[i].slot
  {}

  lemma {:induction false} DirectRowNone(cols: Cols, cells: seq<Cell>)
    requires SlotCells(cols, cells)
    ensures DirectRow(cols, cells, 0) == []
  {}

  lemma {:induction false} NoDirectRows(cols: Cols, binds: seq<seq<Cell>>, n: nat)
    requires ColumnCells(cols, binds, n)
    ensures ColumnCells(cols, binds, 0) && Concat(DirectRows(cols, binds, 0)) == []
  {
    FewerRows(cols, binds, n, 0);
  }

  lemma {:induction false} NetRowNone(cols: Cols, buf: Buffer)
    requires |buf| == RowBytes(cols)
    ensures NetRow(cols, buf, 0) == []
  {}

  // ---------------------------------------------------------------- the header

  ghost predicate ZeroParts(data: Buffer) {
    |data| >= BLOCK_HEADER && data[4..8] == Zeros(4) && data[20..24] == Zeros(4) && data[26..28] == Zeros(2)
  }

  lemma {:induction false} RowAppended(data: Buffer, row: Buffer)
    requires ZeroParts(data)
    ensures ZeroParts(data + row) && (data + row)[BLOCK_HEADER..] == data[BLOCK_HEADER..] + row
  {
    var all := data + row;
    assert all[4..8] == data[4..8] && all[20..24] == data[20..24] && all[26..28] == data[26..28];
  }

  lemma {:induction false} HeaderIsZeros(sversion: nat, uid: nat, dataLen: nat, n: nat, rest: Buffer)
    ensures var data := BlockHeader(sversion, uid, dataLen, n) + rest;
            ZeroParts(data) && data[BLOCK_HEADER..] == rest
  {
    hide ToBE, Zeros;
    var data := BlockHeader(sversion, uid, dataLen, n) + rest;
    assert data[4..8] == Zeros(4) && data[20..24] == Zeros(4) && data[26..28] == Zeros(2);
  }

  lemma {:induction false} FrontRewritten(data: Buffer, v: Buffer, u: Buffer)
    requires |data| >= BLOCK_HEADER && |v| == 4 && |u| == 8
    ensures Overwrite(Overwrite(data, 0, v), 8, u) == v + data[4..8] + u + data[16..]
  {
    assert Overwrite(data, 0, v) == v + data[4..];
  }

  lemma {:induction false} BackRewritten(data: Buffer, l: Buffer, c: Buffer)
    requires |data| >= BLOCK_HEADER && |l| == 4 && |c| == 2
    ensures Overwrite(Overwrite(data, 16, l), 24, c) == data[..16] + l + data[20..24] + c + data[26..28] + data[28..]
  {
    assert Overwrite(data, 16, l) == data[..16] + l + data[20..];
  }

  /** Rewriting four fields over the zeros gives the header of the columnar bind. */
  lemma {:induction false} HeaderRewritten(data: Buffer, sversion: nat, uid: nat, dataLen: nat, n: nat)
    requires ZeroParts(data)
    ensures var d1 := Overwrite(data, 0, ToBE(sversion, 4));
            var d2 := Overwrite(d1, 8, ToBE(uid, 8));
            var d3 := Overwrite(d2, 16, ToBE(dataLen, 4));
            Overwrite(d3, 24, ToBE(n, 2)) == BlockHeader(sversion, uid, dataLen, n) + data[BLOCK_HEADER..]
  {
    hide ToBE, Zeros, Overwrite;
    var v, u, z := ToBE(sversion, 4), ToBE(uid, 8), Zeros(4);
    var d2 := Overwrite(Overwrite(data, 0, v), 8, u);
    FrontRewritten(data, v, u);
    assert d2[..16] == v + z + u;
    assert d2[16..] == data[16..];
    assert d2[20..24] == data[20..24] && d2[26..28] == data[26..28] && d2[28..] == data[28..] by {
      SameTail(d2, data, 16);
    }
    BackRewritten(d2, ToBE(dataLen, 4), ToBE(n, 2));
  }

  lemma {:induction false} SameTail(a: Buffer, b: Buffer, i: nat)
    requires |a| == |b| >= BLOCK_HEADER && i <= 20 && a[i..] == b[i..]
    ensures a[20..24] == b[20..24] && a[26..28] == b[26..28] && a[28..] == b[28..]
  {
    assert a[20..24] == a[i..][20 - i..24 - i] && a[26..28] == a[i..][26 - i..28 - i] && a[28..] == a[i..][28 - i..];
    assert b[20..24] == b[i..][20 - i..24 - i] && b[26..28] == b[i..][26 - i..28 - i] && b[28..] == b[i..][28 - i..];
  }

  lemma {:induction false} EmptyConcat()
    ensures Concat([]) == []
  {}

  // ---------------------------------------------------------------- both ways of building one batch

  /** Every value of the first n rows is bound where its slot is. */
  ghost predicate RowsOnTrack(cols: Cols, binds: seq<seq<Cell>>, n: nat)
    requires ColumnCells(cols, binds, n)
  {
    forall r :: 0 <= r < n ==> RowCells(cols, RowOf(binds, r)) && OnTrack(cols, RowOf(binds, r))
  }

  lemma {:induction false} FewerOnTrack(cols: Cols, binds: seq<seq<Cell>>, n: nat, r: nat)
    requires ColumnCells(cols, binds, n) && RowsOnTrack(cols, binds, n) && r < n
    ensures RowCells(cols, RowOf(binds, r)) && OnTrack(cols, RowOf(binds, r))
  {
    hide OnTrack, RowCells;
  }

  /** Row by row: bind, add, and at the end submit. */
  method SubmitByRow(s: EtDBStmt, binds: seq<seq<Cell>>, numRows: nat) returns (message: Option<Buffer>)
    requires s.Valid() && s.state == Prepared && s.rows == [] && s.uid != 0 && numRows > 0
    requires ColumnCells(s.cols, binds, numRows)
    modifies s, s.rowBuf
    ensures message.Some?
    ensures RowsOnTrack(s.cols, binds, numRows) ==>
              message.value == SubmitMessage(Block(s.sversion, s.uid, s.cols, DirectRows(s.cols, binds, numRows)))
  {
    hide ColumnCells, DirectRows, Block, SubmitMessage, BoundRow, DirectRow, RowOf, RowsOnTrack, OnTrack, SlotCells;
    NoRowsYet(s.cols, binds, numRows);
    for r := 0 to numRows
      invariant s.Valid() && ColumnCells(s.cols, binds, r) &&
        (if r == 0 then s.state == Prepared else s.state == Batched)
      invariant RowsOnTrack(s.cols, binds, numRows) ==> s.rows == DirectRows(s.cols, binds, r)
    {
      FewerRows(s.cols, binds, numRows, r + 1);
      DirectRowsNext(s.cols, binds, r);
      SlotCellsBind(s.cols, RowOf(binds, r));
      var _ := s.BindParam(RowOf(binds, r));
      var _ := s.AddBatch();
      if RowsOnTrack(s.cols, binds, numRows) {
        FewerOnTrack(s.cols, binds, numRows, r);
        OnTrackRowsAgree(s.cols, RowOf(binds, r));
      }
    }
    message := s.Submit(true);
  }

  lemma {:induction false} SlotCellsBind(cols: Cols, cells: seq<Cell>)
    requires SlotCells(cols, cells)
    ensures RowCells(cols, cells)
  {}

  lemma {:induction false} NoRowsYet(cols: Cols, binds: seq<seq<Cell>>, n: nat)
    requires ColumnCells(cols, binds, n)
    ensures ColumnCells(cols, binds, 0) && DirectRows(cols, binds, 0) == []
  {
    FewerRows(cols, binds, n, 0);
  }

  /** The same rows bound one at a time and bound by column make byte for byte the same
      submit message whenever no row has a NULL in a string column of another slot than 4
      before the last column; with aligned columns, and so without strings, none has. */
  method BothWays(cols: Cols, uid: nat, sversion: nat, binds: seq<seq<Cell>>, numRows: nat)
      returns (byRow: Option<Buffer>, byColumn: Option<Buffer>)
    requires |cols| > 0 && uid != 0 && numRows > 0 && ColumnCells(cols, binds, numRows)
    ensures byRow.Some? && byColumn.Some? && (RowsOnTrack(cols, binds, numRows) ==> byRow == byColumn)
    ensures (forall r :: 0 <= r < numRows ==> AlignedRow(cols, RowOf(binds, r))) ==> byRow == byColumn
    ensures Aligned(cols) ==> byRow == byColumn
    ensures byColumn.value == SubmitMessage(Block(sversion, uid, cols, DirectRows(cols, binds, numRows)))
    ensures RequestSays(byColumn.value, sversion, uid, RowBytes(cols), numRows)
    ensures forall r :: 0 <= r < numRows ==> SaysRow(byColumn.value, cols, RowOf(binds, r), r)
  {
    hide DirectRows, Block, SubmitMessage, RequestSays, RowIs, RowSent;
    assert |binds| == |cols|;
    AlignedOnTrack(cols, binds, numRows);
    hide RowsOnTrack, Aligned, AlignedRow;
    var s := new EtDBStmt(cols, uid, sversion);
    byRow := SubmitByRow(s, binds, numRows);
    var t := new EtDBStmt(cols, uid, sversion);
    var _ := t.BindParamBatch(binds, numRows);
    ghost var rows := t.rows;
    byColumn := t.Submit(true);
    forall r | 0 <= r < numRows ensures SaysRow(byColumn.value, cols, RowOf(binds, r), r) {
      assert RowIs(byColumn.value, RowBytes(cols), r, rows[r]) && RowSent(cols, RowOf(binds, r), rows[r]);
      RowSays(byColumn.value, cols, RowOf(binds, r), r, rows[r]);
    }
  }

  /** Row r of the request says what was bound. */
  ghost predicate SaysRow(m: Buffer, cols: Cols, cells: seq<Cell>, r: nat) {
    |cells| == |cols| && 36 + SlotAt(RowBytes(cols), r) + RowBytes(cols) <= |m| &&
    RowSent(cols, cells, RowIn(m, RowBytes(cols), r))
  }

  lemma {:induction false} RowSays(m: Buffer, cols: Cols, cells: seq<Cell>, r: nat, row: Buffer)
    requires |cells| == |cols| && RowIs(m, RowBytes(cols), r, row) && RowSent(cols, cells, row)
    ensures SaysRow(m, cols, cells, r)
  {
    hide RowSent;
  }

  lemma {:induction false} AlignedOnTrack(cols: Cols, binds: seq<seq<Cell>>, n: nat)
    requires |binds| == |cols| && ColumnCells(cols, binds, n)
    ensures Aligned(cols) ==> forall r :: 0 <= r < n ==> AlignedRow(cols, RowOf(binds, r))
    ensures (forall r :: 0 <= r < n ==> AlignedRow(cols, RowOf(binds, r))) ==> RowsOnTrack(cols, binds, n)
  {
    hide OnTrack;
    forall r | 0 <= r < n ensures RowCells(cols, RowOf(binds, r))
                          ensures AlignedRow(cols, RowOf(binds, r)) ==> OnTrack(cols, RowOf(binds, r)) {
      SlotCellsBind(cols, RowOf(binds, r));
      if AlignedRow(cols, RowOf(binds, r)) { AlignedIsOnTrack(cols, RowOf(binds, r)); }
    }
  }

  lemma {:induction false} PlainIsAligned(cols: Cols)
    requires forall i :: 0 <= i < |cols| ==> !IsStr(cols[i].t)
    ensures Aligned(cols)
  {}

  /** A block is always its header and one row width per row. */
  lemma {:induction false} BlockLength(sversion: nat, uid: nat, cols: Cols, rows: seq<Buffer>)
    requires forall r :: 0 <= r < |rows| ==> |rows[r]| == RowBytes(cols)
    ensures |Block(sversion, uid, cols, rows)| == BLOCK_HEADER + SlotAt(RowBytes(cols), |rows|)
  {
    ConcatLength(rows, RowBytes(cols));
  }

  /** The 16-bit row count says how many rows there are exactly up to 32767. */
  lemma {:induction false} RowCountFits(sversion: nat, uid: nat, dataLen: nat, n: nat)
    ensures ToSigned(FromBE(BlockHeader(sversion, uid, dataLen, n)[24..26]), 2) == n <==> n <= 32767
  {
    hide Zeros, FromBE, ToBE;
    assert BlockHeader(sversion, uid, dataLen, n)[24..26] == ToBE(n, 2);
    assert Pow256(2) == 256 * Pow256(1);
    FromBEBound(ToBE(n, 2));
    if n < 65536 { BigEndianReadsBack(n, 2); }
  }
}
