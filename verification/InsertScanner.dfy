/** The value scanner of the INSERT packer, against the quote-aware state machine it replaces. */
module InsertScanner {
  import opened Bytes
  import opened InsertNumbers

  predicate IsQuote(c: char) { c == '\'' || c == '"' }

  predicate IsSep(c: char) { c == ',' || c == ')' }

  // ---------------------------------------------------------------- trimming

  predicate AllSpace(s: string) { forall i :: 0 <= i < |s| ==> IsSpace(s[i]) }

  function TrimLeft(s: string): string { s[SkipSpaces(s, 0)..] }

  function Trim(s: string): string {
    if s != [] && IsSpace(s[|s| - 1]) then Trim(s[..|s| - 1]) else TrimLeft(s)
  }

  lemma {:induction false} SkipsTo(s: string, i: nat, j: nat)
    requires i <= j <= |s| && (forall k :: i <= k < j ==> IsSpace(s[k])) && (j < |s| ==> !IsSpace(s[j]))
    ensures SkipSpaces(s, i) == j
  {}

  /** Cutting spaces off both ends until none is left gives the trimmed text. */
  lemma {:induction false} TrimUnique(s: string, a: nat, b: nat)
    requires a <= b <= |s| && (forall k :: 0 <= k < a ==> IsSpace(s[k])) && (forall k :: b <= k < |s| ==> IsSpace(s[k]))
    requires a < b ==> !IsSpace(s[a]) && !IsSpace(s[b - 1])
    ensures Trim(s) == s[a..b]
    decreases |s|
  {
    if s != [] && IsSpace(s[|s| - 1]) {
      var t := s[..|s| - 1];
      if b == |s| {
        TrimUnique(t, |t|, |t|);
      } else {
        TrimUnique(t, a, b);
        assert t[a..b] == s[a..b];
      }
    } else {
      SkipsTo(s, 0, a);
      assert s[a..b] == s[a..];
    }
  }

  /** Every text has such a cut. */
  lemma {:induction false} TrimCut(s: string) returns (a: nat, b: nat)
    ensures a <= b <= |s| && (forall k :: 0 <= k < a ==> IsSpace(s[k])) && (forall k :: b <= k < |s| ==> IsSpace(s[k]))
    ensures a < b ==> !IsSpace(s[a]) && !IsSpace(s[b - 1])
    decreases |s|
  {
    if s == [] {
      a, b := 0, 0;
    } else if IsSpace(s[|s| - 1]) {
      a, b := TrimCut(s[..|s| - 1]);
    } else {
      a, b := SkipSpaces(s, 0), |s|;
    }
  }

  /** Spaces in front do not matter. */
  lemma {:induction false} TrimSpacesBefore(ws: string, s: string)
    requires AllSpace(ws)
    ensures Trim(ws + s) == Trim(s)
  {
    hide Trim;
    var a, b := TrimCut(s);
    TrimUnique(s, a, b);
    var t := ws + s;
    if a < b {
      TrimUnique(t, |ws| + a, |ws| + b);
      assert t[|ws| + a..|ws| + b] == s[a..b];
    } else {
      TrimUnique(t, |t|, |t|);
    }
  }

  // ---------------------------------------------------------------- the state machine

  datatype Scanned = Eof | Value(sep: char, next: nat, text: string)

  /** The legacy quote-aware machine: a quote opens, the same quote closes, a separator
      outside quotes ends the value, which is trimmed; a value cut by the end is dropped. */
  function Scan(s: string, p: nat, quote: Option<char>, text: string): (r: Scanned)
    ensures r.Value? ==> p < r.next <= |s| && IsSep(r.sep)
    decreases |s| - p
  {
    if p >= |s| then Eof
    else if quote.Some? then
      if s[p] == quote.value then Scan(s, p + 1, None, text) else Scan(s, p + 1, quote, text + [s[p]])
    else if IsQuote(s[p]) then Scan(s, p + 1, Some(s[p]), text)
    else if IsSep(s[p]) then Value(s[p], p + 1, Trim(text))
    else Scan(s, p + 1, None, text + [s[p]])
  }

  function Legacy(s: string, p: nat): (r: Scanned)
    ensures r.Value? ==> p < r.next <= |s| && IsSep(r.sep)
  {
    Scan(s, p, None, "")
  }

  predicate PlainRun(s: string, p: nat, e: nat) {
    p <= e <= |s| && forall k :: p <= k < e ==> !IsQuote(s[k]) && !IsSep(s[k])
  }

  /** Plain characters pile up. */
  lemma {:induction false} ScanPlain(s: string, p: nat, e: nat, text: string)
    requires PlainRun(s, p, e)
    ensures Scan(s, p, None, text) == Scan(s, e, None, text + s[p..e])
    decreases e - p
  {
    if p == e {
      assert text + s[p..e] == text;
    } else {
      ScanPlain(s, p + 1, e, text + [s[p]]);
      assert text + [s[p]] + s[p + 1..e] == text + s[p..e];
      assert Scan(s, p, None, text) == Scan(s, p + 1, None, text + [s[p]]);
    }
  }

  /** So do the characters inside quotes. */
  lemma {:induction false} ScanQuoted(s: string, p: nat, e: nat, q: char, text: string)
    requires p <= e <= |s| && forall k :: p <= k < e ==> s[k] != q
    ensures Scan(s, p, Some(q), text) == Scan(s, e, Some(q), text + s[p..e])
    decreases e - p
  {
    if p == e {
      assert text + s[p..e] == text;
    } else {
      ScanQuoted(s, p + 1, e, q, text + [s[p]]);
      assert text + [s[p]] + s[p + 1..e] == text + s[p..e];
      assert Scan(s, p, Some(q), text) == Scan(s, p + 1, Some(q), text + [s[p]]);
    }
  }

  /** Spaces collected before the value do not change the outcome. */
  lemma {:induction false} ScanSpacesBefore(s: string, p: nat, quote: Option<char>, ws: string, text: string)
    requires AllSpace(ws)
    ensures Scan(s, p, quote, ws + text) == Scan(s, p, quote, text)
    decreases |s| - p
  {
    if p < |s| {
      var c := s[p];
      var more := text + [c];
      assert ws + text + [c] == ws + more;
      if quote.Some? {
        if c == quote.value {
          ScanSpacesBefore(s, p + 1, None, ws, text);
        } else {
          ScanSpacesBefore(s, p + 1, quote, ws, more);
        }
      } else if IsQuote(c) {
        ScanSpacesBefore(s, p + 1, Some(c), ws, text);
      } else if IsSep(c) {
        TrimSpacesBefore(ws, text);
      } else {
        ScanSpacesBefore(s, p + 1, None, ws, more);
      }
    }
  }

  lemma {:induction false} LegacySkips(s: string, p: nat)
    requires p <= |s|
    ensures Legacy(s, p) == Legacy(s, SkipSpaces(s, p))
  {
    var v := SkipSpaces(s, p);
    ScanPlain(s, p, v, "");
    assert "" + s[p..v] == s[p..v] + "";
    ScanSpacesBefore(s, v, None, s[p..v], "");
  }

  // ---------------------------------------------------------------- the fast scanner

  function FindQuote(s: string, i: nat, q: char): (j: nat)
    requires i <= |s|
    ensures i <= j <= |s| && (forall k :: i <= k < j ==> s[k] != q) && (j < |s| ==> s[j] == q)
    decreases |s| - i
  {
    if i < |s| && s[i] != q then FindQuote(s, i + 1, q) else i
  }

  function FindBreak(s: string, i: nat): (j: nat)
    requires i <= |s|
    ensures PlainRun(s, i, j) && (j < |s| ==> IsQuote(s[j]) || IsSep(s[j]))
    decreases |s| - i
  {
    if i < |s| && !IsQuote(s[i]) && !IsSep(s[i]) then FindBreak(s, i + 1) else i
  }

  /** No quotes at all before the separator, or one quoted literal and nothing else. */
  predicate Simple(s: string, p: nat)
    requires p <= |s|
  {
    var v := SkipSpaces(s, p);
    if v < |s| && IsQuote(s[v]) then
      var ce := FindQuote(s, v + 1, s[v]);
      ce == |s| || (var a := SkipSpaces(s, ce + 1); a < |s| && IsSep(s[a]))
    else
      var e := FindBreak(s, v);
      e == |s| || IsSep(s[e])
  }

  /** What the value pointer ends up at: a span of the text, or untouched. */
  datatype Span = Unset | Text(start: nat, len: nat)

  /** The separator and the position after it are always those of the legacy machine.  The
      span is its trimmed value exactly for simple values; otherwise the value is left in
      `scratch` and the span is not set. */
  method ScanInsertValue(s: string, p: nat) returns (sep: Option<char>, next: nat, span: Span, scratch: string)
    requires p <= |s|
    ensures Legacy(s, p) == Eof ==> sep == None && next == |s|
    ensures Legacy(s, p).Value? ==> sep == Some(Legacy(s, p).sep) && next == Legacy(s, p).next
    ensures Legacy(s, p).Value? ==> (span.Text? <==> Simple(s, p))
    ensures Legacy(s, p).Value? && span.Text? ==>
              span.start + span.len <= |s| && s[span.start..span.start + span.len] == Legacy(s, p).text
    ensures Legacy(s, p).Value? && span.Unset? ==> scratch == Legacy(s, p).text
  {
    hide Scan;
    LegacySkips(s, p);
    span, scratch := Unset, "";
    var vbeg := SkipSpaces(s, p);
    if vbeg >= |s| {
      LegacyEnd(s);
      return None, |s|, Unset, "";
    }
    if IsQuote(s[vbeg]) {
      sep, next, span, scratch := ScanQuotedValue(s, vbeg);
    } else {
      sep, next, span, scratch := ScanBareValue(s, vbeg);
    }
    SimpleFrom(s, p);
  }

  lemma {:induction false} LegacyEnd(s: string)
    ensures Legacy(s, |s|) == Eof
  {}

  lemma {:induction false} SimpleFrom(s: string, p: nat)
    requires p <= |s|
    ensures Simple(s, p) <==> Simple(s, SkipSpaces(s, p))
  {
    SkipsTo(s, SkipSpaces(s, p), SkipSpaces(s, p));
  }

  method ScanGeneric(s: string, p: nat) returns (sep: Option<char>, next: nat, text: string)
    requires p <= |s|
    ensures Legacy(s, p) == Eof ==> sep == None && next == |s|
    ensures Legacy(s, p).Value? ==>
      sep == Some(Legacy(s, p).sep) && next == Legacy(s, p).next && text == Legacy(s, p).text
  {
    hide Trim;
    var quote: Option<char> := None;
    next, text := p, "";
    while next < |s|
      invariant p <= next <= |s| && Scan(s, next, quote, text) == Legacy(s, p)
      decreases |s| - next
    {
      var c := s[next];
      next := next + 1;
      if quote.Some? {
        if c == quote.value { quote := None; } else { text := text + [c]; }
      } else if IsQuote(c) {
        quote := Some(c);
      } else if IsSep(c) {
        return Some(c), next, Trim(text);
      } else {
        text := text + [c];
      }
    }
    return None, next, text;
  }

  method ScanQuotedValue(s: string, vbeg: nat) returns (sep: Option<char>, next: nat, span: Span, scratch: string)
    requires vbeg < |s| && IsQuote(s[vbeg])
    ensures Legacy(s, vbeg) == Eof ==> sep == None && next == |s|
    ensures Legacy(s, vbeg).Value? ==> sep == Some(Legacy(s, vbeg).sep) && next == Legacy(s, vbeg).next
    ensures Legacy(s, vbeg).Value? ==> (span.Text? <==> Simple(s, vbeg))
    ensures Legacy(s, vbeg).Value? && span.Text? ==>
              span.start + span.len <= |s| && s[span.start..span.start + span.len] == Legacy(s, vbeg).text
    ensures Legacy(s, vbeg).Value? && span.Unset? ==> scratch == Legacy(s, vbeg).text
  {
    hide Scan, Trim;
    SkipsTo(s, vbeg, vbeg);
    var cs := vbeg + 1;
    var ce := FindQuote(s, cs, s[vbeg]);
    if ce >= |s| {
      UnterminatedIsEof(s, vbeg);
      return None, |s|, Unset, "";
    }
    var a := SkipSpaces(s, ce + 1);
    if a < |s| && IsSep(s[a]) {
      CleanQuoted(s, vbeg, ce, a);
      var v, len := TrimSpan(s, cs, ce);
      return Some(s[a]), a + 1, Text(v, len), "";
    }
    span := Unset;
    sep, next, scratch := ScanGeneric(s, vbeg);
  }

  lemma {:induction false} UnterminatedIsEof(s: string, v: nat)
    requires v < |s| && IsQuote(s[v]) && FindQuote(s, v + 1, s[v]) == |s|
    ensures Legacy(s, v) == Eof
  {
    ScanQuoted(s, v + 1, |s|, s[v], "");
  }

  /** The machine on 'content' followed by spaces and a separator. */
  lemma {:induction false} CleanQuoted(s: string, v: nat, ce: nat, a: nat)
    requires v < |s| && IsQuote(s[v]) && ce == FindQuote(s, v + 1, s[v]) < |s|
    requires a == SkipSpaces(s, ce + 1) < |s| && IsSep(s[a])
    ensures Legacy(s, v) == Value(s[a], a + 1, Trim(s[v + 1..ce]))
  {
    hide Trim;
    var q, content := s[v], s[v + 1..ce];
    ScanQuoted(s, v + 1, ce, q, "");
    assert "" + content == content;
    assert Scan(s, v, None, "") == Scan(s, v + 1, Some(q), "");
    assert Scan(s, ce, Some(q), content) == Scan(s, ce + 1, None, content);
    ScanPlain(s, ce + 1, a, content);
    TrimSpacesAfter(content, s[ce + 1..a]);
  }

  lemma {:induction false} TrimSpacesAfter(s: string, ws: string)
    requires AllSpace(ws)
    ensures Trim(s + ws) == Trim(s)
  {
    hide Trim;
    var a, b := TrimCut(s);
    TrimUnique(s, a, b);
    var t := s + ws;
    if a < b {
      TrimUnique(t, a, b);
      assert t[a..b] == s[a..b];
    } else {
      TrimUnique(t, |t|, |t|);
    }
  }

  /** The trimmed value of s[i..j] is the part a to b when only spaces are left out. */
  lemma {:induction false} TrimmedSlice(s: string, i: nat, j: nat, a: nat, b: nat)
    requires i <= a <= b <= j <= |s| && (forall k :: i <= k < a ==> IsSpace(s[k])) &&
      (forall k :: b <= k < j ==> IsSpace(s[k]))
    requires a < b ==> !IsSpace(s[a]) && !IsSpace(s[b - 1])
    ensures Trim(s[i..j]) == s[a..b]
  {
    TrimUnique(s[i..j], a - i, b - i);
    var cut := s[i..j][a - i..b - i];
    assert |cut| == b - a && forall k :: 0 <= k < b - a ==> cut[k] == s[a + k];
  }

  /** Both ends of the content are trimmed by moving the pointer and the length. */
  method TrimSpan(s: string, cs: nat, ce: nat) returns (v: nat, len: nat)
    requires cs <= ce <= |s|
    ensures v + len <= |s| && s[v..v + len] == Trim(s[cs..ce])
  {
    v, len := cs, ce - cs;
    while len > 0 && IsSpace(s[v])
      invariant cs <= v && v + len == ce && forall k :: cs <= k < v ==> IsSpace(s[k])
    {
      v, len := v + 1, len - 1;
    }
    while len > 0 && IsSpace(s[v + len - 1])
      invariant cs <= v && v + len <= ce && (len > 0 ==> !IsSpace(s[v]))
      invariant forall k :: v + len <= k < ce ==> IsSpace(s[k])
    {
      len := len - 1;
    }
    TrimmedSlice(s, cs, ce, v, v + len);
  }

  /** A value that starts with no space is trimmed at its end only. */
  method TrimSpanEnd(s: string, v: nat, e: nat) returns (len: nat)
    requires v <= e <= |s| && (v < e ==> !IsSpace(s[v]))
    ensures v + len <= e && s[v..v + len] == Trim(s[v..e])
  {
    len := e - v;
    while len > 0 && IsSpace(s[v + len - 1])
      invariant v + len <= e && forall k :: v + len <= k < e ==> IsSpace(s[k])
    {
      len := len - 1;
    }
    TrimmedSlice(s, v, e, v, v + len);
  }

  method ScanBareValue(s: string, vbeg: nat) returns (sep: Option<char>, next: nat, span: Span, scratch: string)
    requires vbeg < |s| && !IsQuote(s[vbeg]) && !IsSpace(s[vbeg])
    ensures Legacy(s, vbeg) == Eof ==> sep == None && next == |s|
    ensures Legacy(s, vbeg).Value? ==> sep == Some(Legacy(s, vbeg).sep) && next == Legacy(s, vbeg).next
    ensures Legacy(s, vbeg).Value? ==> (span.Text? <==> Simple(s, vbeg))
    ensures Legacy(s, vbeg).Value? && span.Text? ==>
              span.start + span.len <= |s| && s[span.start..span.start + span.len] == Legacy(s, vbeg).text
    ensures Legacy(s, vbeg).Value? && span.Unset? ==> scratch == Legacy(s, vbeg).text
  {
    SkipsTo(s, vbeg, vbeg);
    var e := FindBreak(s, vbeg);
    BareRun(s, vbeg, e);
    hide Scan;
    if e < |s| && IsQuote(s[e]) {
      span := Unset;
      sep, next, scratch := ScanGeneric(s, vbeg);
      return;
    }
    if e >= |s| { return None, |s|, Unset, ""; }
    var len := TrimSpanEnd(s, vbeg, e);
    return Some(s[e]), e + 1, Text(vbeg, len), "";
  }

  lemma {:induction false} BareRun(s: string, v: nat, e: nat)
    requires PlainRun(s, v, e)
    ensures e == |s| ==> Legacy(s, v) == Eof
    ensures e < |s| && IsSep(s[e]) ==> Legacy(s, v) == Value(s[e], e + 1, Trim(s[v..e]))
  {
    hide Trim;
    ScanPlain(s, v, e, "");
    assert "" + s[v..e] == s[v..e];
  }

  // ---------------------------------------------------------------- what the packer gets

  /** The value the packer stores: the span, which is empty when the scanner left it unset. */
  function Token(s: string, p: nat): (r: Scanned)
    requires p <= |s|
    ensures r.Value? ==> p < r.next <= |s| && IsSep(r.sep)
  {
    match Legacy(s, p)
    case Eof => Eof
    case Value(sep, next, text) => Value(sep, next, if Simple(s, p) then text else "")
  }

  /** A doubled quote: the legacy value is lost. */
  lemma {:induction false} DoubledQuoteLosesValue()
    ensures Legacy("'a''b')", 0) == Value(')', 7, "ab") && Token("'a''b')", 0) == Value(')', 7, "")
  {
    var s := "'a''b')";
    assert Trim("ab") == "ab" by { TrimUnique("ab", 0, 2); }
    assert Scan(s, 6, None, "ab") == Value(')', 7, "ab");
    assert Scan(s, 4, Some('\''), "a") == Scan(s, 5, Some('\''), "ab") == Scan(s, 6, None, "ab");
    assert Scan(s, 1, Some('\''), "") == Scan(s, 2, Some('\''), "a") == Scan(s, 3, None, "a") ==
      Scan(s, 4, Some('\''), "a");
    SkipsTo(s, 0, 0);
    SkipsTo(s, 3, 3);
    assert FindQuote(s, 1, '\'') == 2 by { assert FindQuote(s, 2, '\'') == 2; }
  }
}
