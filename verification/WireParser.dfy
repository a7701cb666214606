/** parseWireValue: one tagged value into the scratch record the storing code works on. */
module WireParser {
  import opened Bytes
  import opened Endian
  import opened WireFormat
  import opened ColumnStore

  /** Tag, origin flags, and the signed, unsigned, floating-point and string views. */
  datatype WireVal = WireVal(tag: byte, isU: bool, isF: bool, i: int, u: int, d: nat, s: Option<Buffer>)

  /** The record shows the value: every view the storing code may pick is right. */
  ghost predicate Shows(wv: WireVal, v: WireValue) {
    (wv.tag == VAL_NULL <==> v.Null?) &&
    wv.s == (if v.Str? then Some(v.bytes) else None) &&
    (IsNumber(v) ==> wv.i == SignedOf(v)) &&
    (v.Bool? ==> !wv.isF && !wv.isU) &&
    (v.Integer? ==> !wv.isF && (if wv.isU then wv.u == v.v >= 0 else wv.i == v.v)) &&
    (v.Float? ==> wv.isF && wv.d == v.bits)
  }

  /** Only an unsigned 64-bit value can exceed the signed 64-bit range. */
  lemma {:induction false} KindFits(s: Buffer, signed: bool)
    requires |s| in {1, 2, 4} || (|s| == 8 && signed)
    ensures KindValue(s, signed) <= 0x7fff_ffff_ffff_ffff
  {
    hide FromBE, Pow256;
    FromBEBound(s);
    Powers();
  }

  method ParseWireValue(src: Buffer, p: nat) returns (adv: int, wv: WireVal)
    requires p <= |src|
    ensures adv < 0 <==> ReadValue(src, p).None?
    ensures adv >= 0 ==> p + adv == ReadValue(src, p).value.next && Shows(wv, ReadValue(src, p).value.v)
  {
    hide FromBE, KindValue;
    wv := WireVal(0, false, false, 0, 0, 0, None);
    if p >= |src| { return -1, wv; }
    var tag := src[p];
    wv := wv.(tag := tag);
    match tag
    case VAL_NULL => adv := 1;
    case VAL_BOOL =>
      if |src| - p < 2 { return -1, wv; }
      var b := if src[p + 1] != 0 then 1 else 0;
      return 2, wv.(i := b, u := b);
    case VAL_FLOAT =>
      if |src| - p < 9 { return -1, wv; }
      return 9, wv.(isF := true, d := FromBE(src[p + 1..p + 9]));
    case VAL_STRING =>
      if |src| - p < 5 { return -1, wv; }
      var n := FromBE(src[p + 1..p + 5]);
      if |src| - p - 5 < n { return -1, wv; }
      return 5 + n, wv.(s := Some(src[p + 5..p + 5 + n]));
    case _ => adv, wv := ParseInteger(src, p, wv);
  }

  /** The integer tags: 1, 2, 4 or 8 bytes, signed or unsigned. */
  method ParseInteger(src: Buffer, p: nat, blank: WireVal) returns (adv: int, wv: WireVal)
    requires p < |src| && blank == WireVal(src[p], false, false, 0, 0, 0, None)
    requires src[p] !in {VAL_NULL, VAL_BOOL, VAL_FLOAT, VAL_STRING}
    ensures adv < 0 <==> ReadValue(src, p).None?
    ensures adv >= 0 ==> p + adv == ReadValue(src, p).value.next && Shows(wv, ReadValue(src, p).value.v)
  {
    hide FromBE, KindValue, Pow256, ToSigned;
    adv, wv := -1, blank;
    match src[p]
    case VAL_TINYINT => if |src| - p >= 2 { adv, wv := ParseSigned(src, p, 1, blank); }
    case VAL_UTINYINT => if |src| - p >= 2 { adv, wv := ParseUnsigned(src, p, 1, blank); }
    case VAL_SHORT => if |src| - p >= 3 { adv, wv := ParseSigned(src, p, 2, blank); }
    case VAL_USHORT => if |src| - p >= 3 { adv, wv := ParseUnsigned(src, p, 2, blank); }
    case VAL_INT => if |src| - p >= 5 { adv, wv := ParseSigned(src, p, 4, blank); }
    case VAL_UINT32 => if |src| - p >= 5 { adv, wv := ParseUnsigned(src, p, 4, blank); }
    case VAL_BIGINT => if |src| - p >= 9 { adv, wv := ParseSigned(src, p, 8, blank); }
    case VAL_UINT64 => if |src| - p >= 9 { adv, wv := ParseUnsigned(src, p, 8, blank); }
    case _ =>
  }

  method ParseSigned(src: Buffer, p: nat, w: nat, blank: WireVal) returns (adv: int, wv: WireVal)
    requires w in {1, 2, 4, 8} && p + 1 + w <= |src|
    ensures adv == 1 + w
    ensures var n := KindValue(src[p + 1..p + 1 + w], true);
            n <= 0x7fff_ffff_ffff_ffff && wv.i == n && wv == blank.(i := n, u := wv.u)
  {
    hide FromBE, Pow256;
    var s := src[p + 1..p + 1 + w];
    KindFits(s, true);
    var i := ToSigned(FromBE(s), w);
    var u := if i >= 0 then i else if w == 8 then 0 else i + 0x1_0000_0000_0000_0000;
    return 1 + w, blank.(i := i, u := u);
  }

  method ParseUnsigned(src: Buffer, p: nat, w: nat, blank: WireVal) returns (adv: int, wv: WireVal)
    requires w in {1, 2, 4, 8} && p + 1 + w <= |src|
    ensures adv == 1 + w
    ensures var n := KindValue(src[p + 1..p + 1 + w], false);
            n >= 0 && wv == blank.(isU := true, u := n, i := SignedOf(Integer(0, n)))
  {
    hide FromBE, Pow256;
    var s := src[p + 1..p + 1 + w];
    var u := FromBE(s);
    var i := if u > 0x7fff_ffff_ffff_ffff then 0x7fff_ffff_ffff_ffff else u;
    return 1 + w, blank.(isU := true, u := u, i := i);
  }
}
