/** The two ways of inserting a row: VALUES text and a prepared statement. */
module InsertPaths {
  import opened Bytes
  import opened Endian
  import I = InsertPacker
  import N = InsertNumbers
  import R = InsertRoundTrip
  import S = Statement
  import W = WireFormat

  /** A column takes the same bytes in the VALUES packer, in a prepared statement and in a
      query result. */
  lemma {:induction false} WidthsAgree(t: byte, bytes: int)
    requires t <= 7 || 10 <= t <= 13
    ensures I.ColSize(I.Col(t, bytes)) == W.StoreOf(t).width
    ensures t <= 7 ==> S.PlainWidth(t) == W.StoreOf(t).width
    ensures W.StoreOf(t).width ==
            if t in {0, 5, 7, 13} then 8 else if t in {4, 6, 12} then 4 else if t in {3, 11} then 2 else 1
  {}

  /** A string slot is as wide as declared, 8 bytes when nothing is. */
  lemma {:induction false} StringWidth(t: byte, bytes: int)
    requires t in {8, 9}
    ensures I.ColSize(I.Col(t, bytes)) == if bytes > 0 then bytes else 8
  {}

  lemma {:induction false} ReversedIsNetwork(n: nat, w: nat)
    ensures S.Reverse(ToLE(n, w)) == ToBE(n, w)
    decreases w
  {
    if w > 0 {
      ReversedIsNetwork(n / 256, w - 1);
      assert S.Reverse([n % 256] + ToLE(n / 256, w - 1)) == S.Reverse(ToLE(n / 256, w - 1)) + [n % 256];
    }
  }

  /** An integer printed as VALUES text and the same integer bound in host order are the same
      bytes on the wire. */
  lemma {:induction false} SameSlot(ft: I.FloatText, schema: I.Schema, vi: nat, v: int)
    requires 0 < vi < |schema| && schema[vi].t in {2, 3, 4, 5} && R.InSlot(schema, vi, v)
    ensures var t, w := schema[vi].t, I.SizeOf(schema, vi);
            I.CellImage(ft, schema, vi, N.Decimal(v)) ==
            S.NetSlot(S.BindCol(t, w), S.Bytes(ToLE(v % Pow256(w), w)))
  {
    hide ToLE, ToBE, Pow256, I.CellImage, N.Decimal, R.InSlot;
    var t, w := schema[vi].t, I.SizeOf(schema, vi);
    R.NumberImage(ft, schema, vi, v);
    ReversedIsNetwork(v % Pow256(w), w);
    if t == 2 { OneByte(v % Pow256(w)); }
  }

  lemma {:induction false} OneByte(n: nat)
    ensures ToLE(n, 1) == ToBE(n, 1)
  {
    assert ToLE(n, 1) == [n % 256] + ToLE(n / 256, 0) && ToBE(n, 1) == ToBE(n / 256, 0) + [n % 256];
  }
}
