/** Statements written into a script in any layout, and the script cut back into them. */
module ScriptRoundTrip {
  import opened Bytes
  import opened ScriptSplitter

  // ---------------------------------------------------------------- layouts

  /** Between two texts: white space or a block comment. */
  datatype Filler = Space(ws: string) | Comment(body: string)

  /** A text with fillers around it; the text may be empty. */
  datatype Segment = Segment(pre: seq<Filler>, text: string, post: seq<Filler>)

  /** How a line ends: as it is, in a line comment, or in a block comment left open. */
  datatype Tail = NoTail | LineComment(mark: string, note: string) | OpenBlock(body: string)

  /** A line of a script; `lead` is the rest of a block comment open before it. */
  datatype Line =
    | Inside(note: string)
    | Code(lead: Option<string>, closed: seq<Segment>, last: Segment, tail: Tail)

  function WriteFiller(f: Filler): string {
    match f
    case Space(ws) => ws
    case Comment(body) => "/*" + body + "*/"
  }

  function WriteFillers(fs: seq<Filler>): string {
    if fs == [] then "" else WriteFiller(fs[0]) + WriteFillers(fs[1..])
  }

  function WriteSegment(g: Segment): string { WriteFillers(g.pre) + g.text + WriteFillers(g.post) }

  /** Every closed segment is followed by a terminator. */
  function WriteClosed(gs: seq<Segment>): string {
    if gs == [] then "" else WriteSegment(gs[0]) + ";" + WriteClosed(gs[1..])
  }

  function WriteTail(t: Tail): string {
    match t
    case NoTail => ""
    case LineComment(mark, note) => mark + note
    case OpenBlock(body) => "/*" + body
  }

  function WriteLead(lead: Option<string>): string { if lead.None? then "" else lead.value + "*/" }

  function Write(line: Line): string {
    match line
    case Inside(note) => note
    case Code(lead, closed, last, tail) => WriteLead(lead) + WriteClosed(closed) + WriteSegment(last) + WriteTail(tail)
  }

  // ---------------------------------------------------------------- what makes them good

  /** No end of a block comment inside. */
  predicate NoClose(s: string) { forall i :: 0 <= i < |s| - 1 ==> !(s[i] == '*' && s[i + 1] == '/') }

  predicate GoodFiller(f: Filler) {
    match f
    case Space(ws) => AllWs(ws)
    case Comment(body) => NoClose(body)
  }

  predicate GoodFillers(fs: seq<Filler>) { forall i :: 0 <= i < |fs| ==> GoodFiller(fs[i]) }

  /** From index i on, quotes are balanced and outside them there is no terminator and no
      comment marker. */
  predicate Clean(s: string, i: nat, mode: Mode)
    requires i <= |s|
    decreases |s| - i
  {
    if i == |s| then mode == Plain
    else
      match mode
      case Single => Clean(s, i + 1, if s[i] == '\'' then Plain else Single)
      case Double => Clean(s, i + 1, if s[i] == '"' then Plain else Double)
      case Block => false
      case Plain =>
        s[i] != ';' && s[i] != '#' &&
        (i + 1 < |s| ==> !(s[i] == '-' && s[i + 1] == '-') && !(s[i] == '/' && s[i + 1] == '*')) &&
        Clean(s, i + 1, if s[i] == '\'' then Single else if s[i] == '"' then Double else Plain)
  }

  predicate GoodSegment(g: Segment) {
    GoodFillers(g.pre) && GoodFillers(g.post) && Trimmed(g.text) && Clean(g.text, 0, Plain)
  }

  predicate GoodTail(t: Tail) {
    match t
    case NoTail => true
    case LineComment(mark, note) => mark == "--" || mark == "#"
    case OpenBlock(body) => NoClose(body)
  }

  /** A minus sign must not run into the marker of a line comment. */
  predicate MarkApart(last: Segment, t: Tail) {
    t.LineComment? && WriteFillers(last.post) == "" && last.text != "" ==> last.text[|last.text| - 1] != '-'
  }

  predicate GoodLine(line: Line) {
    match line
    case Inside(note) => NoClose(note)
    case Code(lead, closed, last, tail) =>
      (lead.Some? ==> NoClose(lead.value)) && (forall i :: 0 <= i < |closed| ==> GoodSegment(closed[i])) &&
      GoodSegment(last) && GoodTail(tail) && MarkApart(last, tail)
  }

  /** The line as it stands in the file neither ends in a carriage return nor, outside a
      comment, is a source command. */
  predicate ReadsAsWritten(line: Line) {
    ChopCr(Write(line)) == Write(line) && (line.Code? && line.lead.None? ==> !IsSource(TrimWs(Write(line))))
  }

  predicate EndsOpen(line: Line) { line.Inside? || line.tail.OpenBlock? }

  predicate StartsOpen(line: Line) { line.Inside? || line.lead.Some? }

  predicate GoodScript(lines: seq<Line>, open: bool)
  {
    lines == [] ||
    (GoodLine(lines[0]) && ReadsAsWritten(lines[0]) && StartsOpen(lines[0]) == open &&
      GoodScript(lines[1..], EndsOpen(lines[0])))
  }

  function WriteScript(lines: seq<Line>): (raws: seq<string>)
    ensures |raws| == |lines|
  {
    seq(|lines|, i requires 0 <= i < |lines| => Write(lines[i]))
  }

  // ---------------------------------------------------------------- what they say

  /** The statement pending and the statements complete. */
  datatype Said = Said(stmt: string, events: seq<Event>)

  function Complete(stmt: string, events: seq<Event>): seq<Event> {
    if stmt == "" then events else events + [Execute(stmt)]
  }

  function SayClosed(gs: seq<Segment>, d: Said): Said {
    if gs == [] then d else SayClosed(gs[1..], Said("", Complete(Join(d.stmt, gs[0].text), d.events)))
  }

  function SayLine(line: Line, d: Said): Said {
    match line
    case Inside(_) => d
    case Code(_, closed, last, _) =>
      var c := SayClosed(closed, d);
      Said(Join(c.stmt, last.text), c.events)
  }

  function SayLines(lines: seq<Line>, d: Said): Said {
    if lines == [] then d else SayLines(lines[1..], SayLine(lines[0], d))
  }

  /** The statements of a script: its texts, joined by spaces up to each terminator. */
  function Statements(lines: seq<Line>): seq<Event> {
    var d := SayLines(lines, Said("", []));
    Complete(d.stmt, d.events)
  }

  // ---------------------------------------------------------------- scanning what was written

  /** The characters of a block comment are skipped. */
  lemma {:induction false} ScanComment(raw: string, i: nat, body: string, s: State)
    requires At(raw, i, body) && NoClose(body) && s.mode == Block
    requires i + |body| < |raw| && body != "" ==> !(body[|body| - 1] == '*' && raw[i + |body|] == '/')
    ensures Scan(raw, i, s) == Scan(raw, i + |body|, s)
    decreases |body|
  {
    if body != "" {
      var rest := body[1..];
      AtConcat(raw, i, body[..1], rest) by { assert body == body[..1] + rest; }
      assert raw[i] == body[0];
      if |body| > 1 { assert raw[i + 1] == body[1]; }
      forall k | 0 <= k < |rest| - 1 ensures !(rest[k] == '*' && rest[k + 1] == '/') {
        assert rest[k] == body[k + 1] && rest[k + 1] == body[k + 2];
      }
      ScanComment(raw, i + 1, rest, s);
      assert Scan(raw, i, s) == Scan(raw, i + 1, s);
    }
  }

  /** Up to and including the end of the comment. */
  lemma {:induction false} ScanCommentEnd(raw: string, i: nat, body: string, s: State)
    requires At(raw, i, body + "*/") && NoClose(body) && s.mode == Block
    ensures Scan(raw, i, s) == Scan(raw, i + |body| + 2, s.(mode := Plain))
  {
    AtConcat(raw, i, body, "*/");
    var p := i + |body|;
    assert raw[p] == "*/"[0] && raw[p + 1] == "*/"[1];
    ScanComment(raw, i, body, s);
    assert Scan(raw, p, s) == Scan(raw, p + 2, s.(mode := Plain));
  }

  lemma {:induction false} ScanOpening(raw: string, i: nat, s: State)
    requires At(raw, i, "/*") && s.mode == Plain
    ensures Scan(raw, i, s) == Scan(raw, i + 2, s.(mode := Block))
  {
    assert raw[i] == "/*"[0] && raw[i + 1] == "/*"[1];
  }

  /** White space goes into the buffer. */
  lemma {:induction false} ScanWs(raw: string, i: nat, ws: string, s: State)
    requires At(raw, i, ws) && AllWs(ws) && s.mode == Plain
    ensures Scan(raw, i, s) == Scan(raw, i + |ws|, s.(buf := s.buf + ws))
    decreases |ws|
  {
    if ws == "" {
      assert s.buf + ws == s.buf;
    } else {
      assert ws == ws[..1] + ws[1..];
      AtConcat(raw, i, ws[..1], ws[1..]);
      assert raw[i] == ws[0];
      var s1 := s.(buf := s.buf + [ws[0]]);
      ScanWs(raw, i + 1, ws[1..], s1);
      assert s1.buf + ws[1..] == s.buf + ws;
      assert Scan(raw, i, s) == Scan(raw, i + 1, s1);
    }
  }

  function SpaceOf(f: Filler): string { if f.Space? then f.ws else "" }

  function Spaces(fs: seq<Filler>): string { if fs == [] then "" else SpaceOf(fs[0]) + Spaces(fs[1..]) }

  lemma {:induction false} SpacesAreWs(fs: seq<Filler>)
    requires GoodFillers(fs)
    ensures AllWs(Spaces(fs))
  {
    if fs != [] { assert GoodFiller(fs[0]); SpacesAreWs(fs[1..]); }
  }

  lemma {:induction false} ScanFillers(raw: string, i: nat, fs: seq<Filler>, s: State)
    requires At(raw, i, WriteFillers(fs)) && GoodFillers(fs) && s.mode == Plain
    ensures Scan(raw, i, s) == Scan(raw, i + |WriteFillers(fs)|, s.(buf := s.buf + Spaces(fs)))
    decreases |fs|
  {
    hide Scan, At, WriteFiller, SpaceOf, GoodFiller;
    if fs == [] {
      assert s.buf + Spaces(fs) == s.buf;
    } else {
      var w, rest := WriteFiller(fs[0]), fs[1..];
      assert GoodFiller(fs[0]);
      AtConcat(raw, i, w, WriteFillers(rest));
      var s1 := s.(buf := s.buf + SpaceOf(fs[0]));
      ScanFiller(raw, i, fs[0], s);
      ScanFillers(raw, i + |w|, rest, s1);
      assert s1.buf + Spaces(rest) == s.buf + Spaces(fs);
    }
  }

  lemma {:induction false} ScanFiller(raw: string, i: nat, f: Filler, s: State)
    requires At(raw, i, WriteFiller(f)) && GoodFiller(f) && s.mode == Plain
    ensures Scan(raw, i, s) == Scan(raw, i + |WriteFiller(f)|, s.(buf := s.buf + SpaceOf(f)))
  {
    hide Scan, At, AllWs, NoClose;
    match f
    case Space(ws) => ScanWs(raw, i, ws, s);
    case Comment(body) =>
      assert "/*" + body + "*/" == "/*" + (body + "*/");
      ScanBlock(raw, i, body, s);
      assert s.buf + "" == s.buf;
  }

  lemma {:induction false} ScanBlock(raw: string, i: nat, body: string, s: State)
    requires At(raw, i, "/*" + (body + "*/")) && NoClose(body) && s.mode == Plain
    ensures Scan(raw, i, s) == Scan(raw, i + 2 + |body| + 2, s)
  {
    hide Scan, At, NoClose;
    AtConcat(raw, i, "/*", body + "*/");
    ScanOpening(raw, i, s);
    ScanCommentEnd(raw, i + 2, body, s.(mode := Block));
  }

  /** What follows a text does not complete a comment marker with its last character. */
  predicate Apart(raw: string, p: nat, text: string) {
    p < |raw| && text != "" ==>
      !(text[|text| - 1] == '-' && raw[p] == '-') && !(text[|text| - 1] == '/' && raw[p] == '*')
  }

  /** A clean text goes into the buffer, quotes and all. */
  lemma {:induction false} ScanText(raw: string, i: nat, text: string, k: nat, s: State)
    requires k <= |text| && At(raw, i, text) && s.mode != Block && Clean(text, k, s.mode)
    requires Apart(raw, i + |text|, text)
    ensures Scan(raw, i + k, s) == Scan(raw, i + |text|, s.(buf := s.buf + text[k..], mode := Plain))
    decreases |text| - k
  {
    if k == |text| {
      assert s.buf + text[k..] == s.buf;
    } else {
      assert raw[i + k] == text[k];
      if k + 1 < |text| { assert raw[i + k + 1] == text[k + 1]; }
      var s1 := s.(buf := s.buf + [text[k]], mode := NextMode(text[k], s.mode));
      assert Scan(raw, i + k, s) == Scan(raw, i + k + 1, s1);
      hide Scan;
      ScanText(raw, i, text, k + 1, s1);
      assert s1.buf + text[k + 1..] == s.buf + text[k..];
    }
  }

  function NextMode(c: char, mode: Mode): Mode {
    match mode
    case Single => if c == '\'' then Plain else Single
    case Double => if c == '"' then Plain else Double
    case Plain => if c == '\'' then Single else if c == '"' then Double else Plain
    case Block => Block
  }

  function SegmentBuf(g: Segment): string { Spaces(g.pre) + g.text + Spaces(g.post) }

  /** The character after a segment does not complete a marker either. */
  predicate EndsApart(raw: string, p: nat, g: Segment) {
    p < |raw| ==>
      raw[p] != '*' && (raw[p] == '-' && WriteFillers(g.post) == "" && g.text != "" ==> g.text[|g.text| - 1] != '-')
  }

  lemma {:induction false} ScanSegment(raw: string, i: nat, g: Segment, s: State)
    requires At(raw, i, WriteSegment(g)) && GoodSegment(g) && s.mode == Plain && s.buf == ""
    requires EndsApart(raw, i + |WriteSegment(g)|, g)
    ensures Scan(raw, i, s) == Scan(raw, i + |WriteSegment(g)|, s.(buf := SegmentBuf(g)))
    ensures TrimWs(SegmentBuf(g)) == g.text && Trimmed(g.text)
  {
    hide Scan, Clean, TrimWs, At, Spaces, WriteFillers, GoodFillers, Apart, EndsApart, Trimmed;
    var w, v := WriteFillers(g.pre), WriteFillers(g.post);
    AtConcat(raw, i, w + g.text, v);
    AtConcat(raw, i, w, g.text);
    ScanFillers(raw, i, g.pre, s);
    var s1 := s.(buf := s.buf + Spaces(g.pre));
    var p := i + |w|;
    TextApart(raw, p, g);
    ScanText(raw, p, g.text, 0, s1);
    assert g.text[0..] == g.text;
    var s2 := s1.(buf := s1.buf + g.text, mode := Plain);
    ScanFillers(raw, p + |g.text|, g.post, s2);
    assert s2.buf + Spaces(g.post) == SegmentBuf(g) by {
      assert s.buf + Spaces(g.pre) + g.text == Spaces(g.pre) + g.text;
    }
    SpacesAreWs(g.pre);
    SpacesAreWs(g.post);
    TrimAround(Spaces(g.pre), g.text, Spaces(g.post));
  }

  lemma {:induction false} TextApart(raw: string, p: nat, g: Segment)
    requires At(raw, p + |g.text|, WriteFillers(g.post)) && GoodFillers(g.post)
    requires EndsApart(raw, p + |g.text| + |WriteFillers(g.post)|, g)
    ensures Apart(raw, p + |g.text|, g.text)
  {
    var v := WriteFillers(g.post);
    if v != "" {
      FillersStart(g.post);
      assert raw[p + |g.text|] == v[0];
    }
  }

  lemma {:induction false} FillersStart(fs: seq<Filler>)
    requires GoodFillers(fs) && WriteFillers(fs) != ""
    ensures IsWs(WriteFillers(fs)[0]) || WriteFillers(fs)[0] == '/'
    decreases |fs|
  {
    assert GoodFiller(fs[0]);
    if WriteFiller(fs[0]) == "" { FillersStart(fs[1..]); }
  }

  // ---------------------------------------------------------------- statements and lines

  lemma {:induction false} JoinTrimmed(stmt: string, text: string)
    requires Trimmed(stmt) && Trimmed(text)
    ensures Trimmed(Join(stmt, text))
  {}

  lemma {:induction false} FlushTrimmed(stmt: string, events: seq<Event>)
    requires Trimmed(stmt)
    ensures Flush(stmt, events) == Complete(stmt, events)
  {
    hide TrimWs;
    TrimTrimmed(stmt);
  }

  /** Each closed segment completes a statement. */
  lemma {:induction false} ScanClosed(raw: string, i: nat, gs: seq<Segment>, s: State)
    requires At(raw, i, WriteClosed(gs)) && (forall k :: 0 <= k < |gs| ==> GoodSegment(gs[k]))
    requires s.mode == Plain && s.buf == "" && Trimmed(s.stmt)
    ensures var d := SayClosed(gs, Said(s.stmt, s.events));
            Scan(raw, i, s) == Scan(raw, i + |WriteClosed(gs)|, State("", Plain, d.stmt, d.events)) && Trimmed(d.stmt)
    decreases |gs|
  {
    hide Scan, GoodSegment, TrimWs, WriteSegment, At, Trimmed, Complete, Join, SegmentBuf;
    if gs != [] {
      var g, rest := gs[0], gs[1..];
      var w := WriteSegment(g);
      var p := i + |w|;
      SemicolonBetween(raw, i, w, WriteClosed(rest));
      assert GoodSegment(g);
      assert Trimmed("") by { EmptyTrimmed(); }
      ScanSegment(raw, i, g, s);
      ScanTerminator(raw, p, g, s);
      ScanClosed(raw, p + 1, rest, State("", Plain, "", Complete(Join(s.stmt, g.text), s.events)));
    }
  }

  lemma {:induction false} EmptyTrimmed()
    ensures Trimmed("")
  {}

  lemma {:induction false} SemicolonBetween(raw: string, i: nat, w: string, rest: string)
    requires At(raw, i, w + ";" + rest)
    ensures At(raw, i, w) && i + |w| < |raw| && raw[i + |w|] == ';' && At(raw, i + |w| + 1, rest)
  {
    AtConcat(raw, i, w + ";", rest);
    AtConcat(raw, i, w, ";");
    assert raw[i + |w|] == ";"[0];
  }

  lemma {:induction false} ScanTerminator(raw: string, p: nat, g: Segment, s: State)
    requires p < |raw| && raw[p] == ';' && s.mode == Plain && Trimmed(s.stmt)
    requires TrimWs(SegmentBuf(g)) == g.text && Trimmed(g.text)
    ensures Scan(raw, p, s.(buf := SegmentBuf(g))) ==
            Scan(raw, p + 1, State("", Plain, "", Complete(Join(s.stmt, g.text), s.events)))
  {
    hide TrimWs, SegmentBuf;
    JoinTrimmed(s.stmt, g.text);
    FlushTrimmed(Join(s.stmt, g.text), s.events);
  }

  /** After the last segment only the tail is left. */
  lemma {:induction false} ScanTail(raw: string, p: nat, t: Tail, s: State)
    requires At(raw, p, WriteTail(t)) && p + |WriteTail(t)| == |raw| && GoodTail(t) && s.mode == Plain
    ensures Scan(raw, p, s) == s.(mode := if t.OpenBlock? then Block else Plain)
  {
    match t
    case NoTail =>
    case LineComment(mark, note) =>
      AtConcat(raw, p, mark, note);
      assert raw[p] == mark[0];
      if mark == "--" { assert raw[p + 1] == mark[1]; }
    case OpenBlock(body) =>
      AtConcat(raw, p, "/*", body);
      ScanOpening(raw, p, s);
      ScanComment(raw, p + 2, body, s.(mode := Block));
      assert Scan(raw, |raw|, s.(mode := Block)) == s.(mode := Block);
  }

  lemma {:induction false} TailApart(raw: string, p: nat, g: Segment, t: Tail)
    requires At(raw, p, WriteTail(t)) && p + |WriteTail(t)| == |raw| && GoodTail(t) && MarkApart(g, t)
    ensures EndsApart(raw, p, g)
  {
    if p < |raw| { assert raw[p] == WriteTail(t)[0]; }
  }

  /** Segments and tail of a line, from the end of an open comment on. */
  lemma {:induction false} ScanCode(raw: string, p: nat, line: Line, s: State)
    requires line.Code? && GoodLine(line) && s.mode == Plain && s.buf == "" && Trimmed(s.stmt)
    requires At(raw, p, WriteClosed(line.closed) + WriteSegment(line.last) + WriteTail(line.tail))
    requires p + |WriteClosed(line.closed) + WriteSegment(line.last) + WriteTail(line.tail)| == |raw|
    ensures var d := SayLine(line, Said(s.stmt, s.events));
            EndLine(Scan(raw, p, s)) == State("", if EndsOpen(line) then Block else Plain, d.stmt, d.events) &&
              Trimmed(d.stmt)
  {
    hide Scan, GoodSegment, TrimWs, WriteSegment, WriteClosed, WriteTail, GoodTail, MarkApart, At, Trimmed, SegmentBuf,
      SayClosed, Join;
    var w, g, t := WriteClosed(line.closed), line.last, line.tail;
    AtConcat(raw, p, w + WriteSegment(g), WriteTail(t));
    AtConcat(raw, p, w, WriteSegment(g));
    ScanClosed(raw, p, line.closed, s);
    var d := SayClosed(line.closed, Said(s.stmt, s.events));
    var q := p + |w| + |WriteSegment(g)|;
    TailApart(raw, q, g, t);
    var s1 := State("", Plain, d.stmt, d.events);
    ScanSegment(raw, p + |w|, g, s1);
    ScanTail(raw, q, t, s1.(buf := SegmentBuf(g)));
    JoinTrimmed(d.stmt, g.text);
  }

  /** One line as written: what the shell makes of it is what the line says. */
  lemma {:induction false} LineReads(line: Line, stmt: string, events: seq<Event>)
    requires GoodLine(line) && ReadsAsWritten(line) && Trimmed(stmt)
    ensures var d := SayLine(line, Said(stmt, events));
            OneLine(Write(line), State("", if StartsOpen(line) then Block else Plain, stmt, events)) ==
            State("", if EndsOpen(line) then Block else Plain, d.stmt, d.events) && Trimmed(d.stmt)
  {
    hide Scan, EndLine, OneLine, Trimmed, SayLine, Write, GoodLine;
    ReadsByScanning(line, State("", if StartsOpen(line) then Block else Plain, stmt, events));
    if line.Inside? { InsideLine(line, stmt, events); } else { CodeLine(line, stmt, events); }
  }

  lemma {:induction false} ReadsByScanning(line: Line, s: State)
    requires ReadsAsWritten(line) && (s.mode == Block <==> StartsOpen(line))
    ensures OneLine(Write(line), s) == EndLine(Scan(Write(line), 0, s))
  {
    hide Scan, EndLine, TrimWs, Write, IsSource, ChopCr;
  }

  lemma {:induction false} InsideLine(line: Line, stmt: string, events: seq<Event>)
    requires line.Inside? && GoodLine(line) && Trimmed(stmt)
    ensures var d := SayLine(line, Said(stmt, events));
            EndLine(Scan(Write(line), 0, State("", Block, stmt, events))) == State("", Block, d.stmt, d.events) &&
              Trimmed(d.stmt)
  {
    hide Scan, EndLine;
    InsideReads(line.note, State("", Block, stmt, events));
  }

  lemma {:induction false} CodeLine(line: Line, stmt: string, events: seq<Event>)
    requires line.Code? && GoodLine(line) && Trimmed(stmt)
    ensures var d := SayLine(line, Said(stmt, events));
            EndLine(Scan(Write(line), 0, State("", if StartsOpen(line) then Block else Plain, stmt, events))) ==
            State("", if EndsOpen(line) then Block else Plain, d.stmt, d.events) && Trimmed(d.stmt)
  {
    hide Scan, EndLine, WriteSegment, WriteClosed, WriteTail, GoodSegment, Trimmed, SayLine, At, GoodTail, MarkApart;
    var raw, s := Write(line), State("", Plain, stmt, events);
    var body := WriteClosed(line.closed) + WriteSegment(line.last) + WriteTail(line.tail);
    assert raw == WriteLead(line.lead) + body;
    AtPrefix(raw, "", raw);
    AtConcat(raw, 0, WriteLead(line.lead), body);
    ScanCode(raw, |WriteLead(line.lead)|, line, s);
    if line.lead.Some? { ScanCommentEnd(raw, 0, line.lead.value, State("", Block, stmt, events)); }
  }

  lemma {:induction false} InsideReads(note: string, s: State)
    requires NoClose(note) && s.mode == Block && s.buf == ""
    ensures EndLine(Scan(note, 0, s)) == s
  {
    AtPrefix(note, "", note);
    ScanComment(note, 0, note, s);
    assert Scan(note, |note|, s) == s;
    assert TrimWs("") == "";
  }

  lemma {:induction false} LinesRead(lines: seq<Line>, open: bool, stmt: string, events: seq<Event>)
    requires GoodScript(lines, open) && Trimmed(stmt)
    ensures var d := SayLines(lines, Said(stmt, events));
            var s := Lines(WriteScript(lines), State("", if open then Block else Plain, stmt, events));
            s.stmt == d.stmt && s.events == d.events && Trimmed(d.stmt)
    decreases |lines|
  {
    hide Write, GoodLine, ReadsAsWritten, OneLine, Trimmed, SayLine;
    if lines != [] {
      LineReads(lines[0], stmt, events);
      var d := SayLine(lines[0], Said(stmt, events));
      assert WriteScript(lines)[1..] == WriteScript(lines[1..]);
      LinesRead(lines[1..], EndsOpen(lines[0]), d.stmt, d.events);
    }
  }

  /** Any script laid out over lines, with comments of every kind between the texts, makes
      the shell execute exactly the statements it says, in order. */
  lemma {:induction false} ScriptReadsBack(lines: seq<Line>)
    requires GoodScript(lines, false)
    ensures Script(WriteScript(lines)) == Statements(lines)
  {
    hide TrimWs, Lines, WriteScript;
    EmptyTrimmed();
    LinesRead(lines, false, "", []);
    var d := SayLines(lines, Said("", []));
    FlushTrimmed(d.stmt, d.events);
  }

  // ---------------------------------------------------------------- statements on one line each

  /** The texts before the terminators of a line; empty ones are no statements. */
  function Texts(gs: seq<Segment>): seq<Event> {
    if gs == [] then [] else Complete(gs[0].text, []) + Texts(gs[1..])
  }

  function LineTexts(line: Line): seq<Event> { if line.Inside? then [] else Texts(line.closed) }

  function AllTexts(lines: seq<Line>): seq<Event> {
    if lines == [] then [] else LineTexts(lines[0]) + AllTexts(lines[1..])
  }

  /** No text is left without a terminator on its line. */
  predicate AllTerminated(lines: seq<Line>) {
    forall i :: 0 <= i < |lines| && lines[i].Code? ==> lines[i].last.text == ""
  }

  lemma {:induction false} SayTexts(gs: seq<Segment>, events: seq<Event>)
    ensures SayClosed(gs, Said("", events)) == Said("", events + Texts(gs))
    decreases |gs|
  {
    if gs == [] {
      assert events + Texts(gs) == events;
    } else {
      hide Complete, Join;
      var first, rest := Complete(gs[0].text, []), gs[1..];
      CompleteFirst(gs[0].text, events);
      SayTexts(rest, events + first);
      assert events + first + Texts(rest) == events + (first + Texts(rest));
    }
  }

  lemma {:induction false} CompleteFirst(text: string, events: seq<Event>)
    ensures Complete(Join("", text), events) == events + Complete(text, [])
  {
    if text == "" { assert events + [] == events; }
  }

  lemma {:induction false} SayLineTexts(line: Line, events: seq<Event>)
    requires line.Code? ==> line.last.text == ""
    ensures SayLine(line, Said("", events)) == Said("", events + LineTexts(line))
  {
    hide Texts, SayClosed;
    if line.Code? { SayTexts(line.closed, events); } else { assert events + [] == events; }
  }

  lemma {:induction false} SayAllTexts(lines: seq<Line>, events: seq<Event>)
    requires AllTerminated(lines)
    ensures SayLines(lines, Said("", events)) == Said("", events + AllTexts(lines))
    decreases |lines|
  {
    hide SayLine, LineTexts;
    if lines == [] {
      assert events + AllTexts(lines) == events;
    } else {
      SayLineTexts(lines[0], events);
      SayAllTexts(lines[1..], events + LineTexts(lines[0]));
      assert events + LineTexts(lines[0]) + AllTexts(lines[1..]) == events + AllTexts(lines);
    }
  }

  /** Statements terminated on their own line are dispatched exactly as listed. */
  lemma {:induction false} TerminatedStatementsDispatch(lines: seq<Line>)
    requires GoodScript(lines, false) && AllTerminated(lines)
    ensures Script(WriteScript(lines)) == AllTexts(lines)
  {
    hide Script, WriteScript, GoodScript;
    ScriptReadsBack(lines);
    SayAllTexts(lines, []);
    assert [] + AllTexts(lines) == AllTexts(lines);
  }

  // ---------------------------------------------------------------- no statement is a source command

  ghost predicate WsBefore(raw: string, p: nat) {
    p <= |raw| && forall k :: 0 <= k < p ==> IsWs(raw[k])
  }

  predicate SourceLine(raw: string) { IsSource(TrimWs(raw)) }

  /** No letter of the word. */
  predicate NoLetter(c: char) { IsWs(c) || c == '/' || c == ';' || c == '-' || c == '#' }

  lemma {:induction false} FirstIs(raw: string, p: nat)
    requires WsBefore(raw, p) && p < |raw| && !IsWs(raw[p])
    ensures FirstText(raw, 0) == p && p < TextEnd(raw, |raw|) && TrimWs(raw) == raw[p..TextEnd(raw, |raw|)]
  {
    assert FirstText(raw, 0) == p;
    assert TextEnd(raw, |raw|) > p;
  }

  lemma {:induction false} NoLetterFirst(raw: string, p: nat)
    requires WsBefore(raw, p) && (p < |raw| ==> !IsWs(raw[p]) && NoLetter(raw[p]))
    ensures !SourceLine(raw)
  {
    if p < |raw| {
      FirstIs(raw, p);
      assert SOURCE[0] == 's';
    } else {
      assert FirstText(raw, 0) == |raw|;
    }
  }

  lemma {:induction false} NotInWord(c: char)
    requires NoLetter(c)
    ensures forall k :: 0 <= k < 6 ==> Lower(c) != SOURCE[k]
  {}

  /** A source command that starts with a text, no letter following it, makes the text one. */
  lemma {:induction false} SourceText(line: string, t: string)
    requires IsSource(line) && t != "" && t <= line && (|t| < |line| ==> NoLetter(line[|t|]))
    ensures IsSource(t)
  {
    if |t| < |line| { NotInWord(line[|t|]); }
  }

  /** A line that starts with a text is a source command only if the text is one. */
  lemma {:induction false} TextFirst(raw: string, p: nat, t: string)
    requires WsBefore(raw, p) && At(raw, p, t) && t != "" && Trimmed(t) && !IsSource(t)
    requires p + |t| < |raw| ==> NoLetter(raw[p + |t|])
    ensures !SourceLine(raw)
  {
    hide IsSource, TrimWs, NoLetter;
    assert raw[p] == t[0] && raw[p + |t| - 1] == t[|t| - 1];
    FirstIs(raw, p);
    var e, line := TextEnd(raw, |raw|), TrimWs(raw);
    assert e >= p + |t|;
    AtSlice(raw, p, t);
    assert line[..|t|] == t;
    if SourceLine(raw) { SourceText(line, t); }
  }

  lemma {:induction false} WsExtends(raw: string, p: nat, w: string)
    requires WsBefore(raw, p) && At(raw, p, w) && AllWs(w)
    ensures WsBefore(raw, p + |w|)
  {
    forall k | 0 <= k < p + |w| ensures IsWs(raw[k]) { if k >= p { assert raw[p + (k - p)] == w[k - p]; } }
  }

  lemma {:induction false} CommentFirst(raw: string, p: nat, body: string)
    requires WsBefore(raw, p) && At(raw, p, WriteFiller(Comment(body)))
    ensures !SourceLine(raw)
  {
    hide SourceLine;
    assert raw[p] == WriteFiller(Comment(body))[0];
    NoLetterFirst(raw, p);
  }

  lemma {:induction false} FillersFirst(raw: string, p: nat, fs: seq<Filler>)
    requires WsBefore(raw, p) && At(raw, p, WriteFillers(fs)) && GoodFillers(fs)
    ensures WsBefore(raw, p + |WriteFillers(fs)|) || !SourceLine(raw)
    decreases |fs|
  {
    hide SourceLine, WsBefore, At, WriteFiller;
    if fs != [] {
      var f, w := fs[0], WriteFiller(fs[0]);
      assert GoodFiller(f);
      AtConcat(raw, p, w, WriteFillers(fs[1..]));
      if f.Space? {
        assert w == f.ws by { SpaceWritten(f.ws); }
        WsExtends(raw, p, w);
        FillersFirst(raw, p + |w|, fs[1..]);
      } else {
        CommentFirst(raw, p, f.body);
      }
    }
  }

  lemma {:induction false} SpaceWritten(ws: string)
    ensures WriteFiller(Space(ws)) == ws
  {}

  /** After a segment either only white space was seen, or the line is no source command. */
  lemma {:induction false} SegmentFirst(raw: string, p: nat, g: Segment)
    requires WsBefore(raw, p) && At(raw, p, WriteSegment(g)) && GoodSegment(g) && !IsSource(g.text)
    requires p + |WriteSegment(g)| < |raw| ==> NoLetter(raw[p + |WriteSegment(g)|])
    ensures WsBefore(raw, p + |WriteSegment(g)|) || !SourceLine(raw)
  {
    hide IsSource, SourceLine, Clean, GoodFillers, Trimmed, WsBefore, At, WriteFillers, NoLetter;
    var w, v := WriteFillers(g.pre), WriteFillers(g.post);
    var q := p + |w|;
    AtConcat(raw, p, w + g.text, v);
    AtConcat(raw, p, w, g.text);
    FillersFirst(raw, p, g.pre);
    if SourceLine(raw) {
      if g.text == "" {
        FillersFirst(raw, q, g.post);
      } else {
        AfterText(raw, q + |g.text|, g.post);
        TextFirst(raw, q, g.text);
      }
    }
  }

  lemma {:induction false} AfterText(raw: string, p: nat, fs: seq<Filler>)
    requires At(raw, p, WriteFillers(fs)) && GoodFillers(fs)
    requires p + |WriteFillers(fs)| < |raw| ==> NoLetter(raw[p + |WriteFillers(fs)|])
    ensures p < |raw| ==> NoLetter(raw[p])
  {
    var v := WriteFillers(fs);
    if v != "" {
      FillersStart(fs);
      assert raw[p] == v[0];
    }
  }

  /** No text of the line is a source command. */
  predicate NoSourceText(line: Line) {
    line.Code? ==> (forall i :: 0 <= i < |line.closed| ==> !IsSource(line.closed[i].text)) && !IsSource(line.last.text)
  }

  /** Then the line is none either, whatever stands around the texts. */
  lemma {:induction false} LineIsNoSource(line: Line)
    requires line.Code? && line.lead.None? && GoodLine(line) && NoSourceText(line)
    ensures !SourceLine(Write(line))
  {
    hide IsSource, WriteSegment, WriteTail, GoodSegment, SourceLine, At, GoodTail, MarkApart;
    var raw := Write(line);
    AtPrefix(raw, "", raw);
    if line.closed != [] {
      ClosedIsNoSource(line);
    } else {
      var w := WriteSegment(line.last);
      assert "" + "" + w == w;
      AtConcat(raw, 0, w, WriteTail(line.tail));
      TailStart(raw, |w|, line.tail);
      EndsLine(raw, line.last);
    }
  }

  /** The first statement of the line ends on it. */
  lemma {:induction false} ClosedIsNoSource(line: Line)
    requires line.Code? && line.lead.None? && GoodLine(line) && NoSourceText(line) && line.closed != []
    ensures !SourceLine(Write(line))
  {
    hide IsSource, WriteSegment, WriteTail, GoodSegment, SourceLine, At, GoodTail, MarkApart;
    var raw := Write(line);
    AtPrefix(raw, "", raw);
    var g, more := line.closed[0], WriteClosed(line.closed[1..]);
    Regroup(WriteSegment(g), more, WriteSegment(line.last), WriteTail(line.tail));
    SemicolonBetween(raw, 0, WriteSegment(g), more + WriteSegment(line.last) + WriteTail(line.tail));
    assert GoodSegment(g);
    EndsLine(raw, g);
  }

  lemma {:induction false} Regroup(w: string, more: string, last: string, tail: string)
    ensures "" + (w + ";" + more) + last + tail == w + ";" + (more + last + tail)
  {}

  lemma {:induction false} EndsLine(raw: string, g: Segment)
    requires At(raw, 0, WriteSegment(g)) && GoodSegment(g) && !IsSource(g.text)
    requires |WriteSegment(g)| < |raw| ==> !IsWs(raw[|WriteSegment(g)|]) && NoLetter(raw[|WriteSegment(g)|])
    ensures !SourceLine(raw)
  {
    hide IsSource, WriteSegment, GoodSegment, SourceLine, At;
    SegmentFirst(raw, 0, g);
    if WsBefore(raw, |WriteSegment(g)|) { NoLetterFirst(raw, |WriteSegment(g)|); }
  }

  lemma {:induction false} TailStart(raw: string, p: nat, t: Tail)
    requires At(raw, p, WriteTail(t)) && p + |WriteTail(t)| == |raw| && GoodTail(t)
    ensures p < |raw| ==> !IsWs(raw[p]) && NoLetter(raw[p])
  {
    if p < |raw| { assert raw[p] == WriteTail(t)[0]; }
  }

  /** A script whose texts are no source commands, on lines that do not end in a carriage
      return of their own. */
  predicate PlainScript(lines: seq<Line>, open: bool) {
    lines == [] ||
    (GoodLine(lines[0]) && NoSourceText(lines[0]) && ChopCr(Write(lines[0])) == Write(lines[0]) &&
     StartsOpen(lines[0]) == open && PlainScript(lines[1..], EndsOpen(lines[0])))
  }

  lemma {:induction false} PlainIsGood(lines: seq<Line>, open: bool)
    requires PlainScript(lines, open)
    ensures GoodScript(lines, open)
    decreases |lines|
  {
    hide Write, GoodLine, ChopCr, NoSourceText, IsSource, TrimWs;
    if lines != [] {
      if lines[0].Code? && lines[0].lead.None? { LineIsNoSource(lines[0]); }
      PlainIsGood(lines[1..], EndsOpen(lines[0]));
    }
  }

  /** Any list of statements, none a source command, each terminated on its own line, over any
      lines and with comments of every kind between them, is dispatched exactly as listed. */
  lemma {:induction false} StatementsDispatch(lines: seq<Line>)
    requires PlainScript(lines, false) && AllTerminated(lines)
    ensures Script(WriteScript(lines)) == AllTexts(lines)
  {
    hide Script, WriteScript, GoodScript, PlainScript, AllTexts;
    PlainIsGood(lines, false);
    TerminatedStatementsDispatch(lines);
  }

  // ---------------------------------------------------------------- one statement over several lines

  /** Texts with one space between each two. */
  function Words(pieces: seq<string>): string
    requires pieces != []
  {
    if |pieces| == 1 then pieces[0] else pieces[0] + " " + Words(pieces[1..])
  }

  lemma {:induction false} WordsGrow(pieces: seq<string>, piece: string)
    requires pieces != [] && piece != "" && forall i :: 0 <= i < |pieces| ==> pieces[i] != ""
    ensures Words(pieces) != "" && Words(pieces + [piece]) == Join(Words(pieces), piece)
    decreases |pieces|
  {
    var more := pieces + [piece];
    if |pieces| == 1 {
      assert more[1..] == [piece];
      assert pieces[0] + " " + piece == pieces[0] + (" " + piece);
    } else {
      assert more[1..] == pieces[1..] + [piece];
      WordsGrow(pieces[1..], piece);
      assert pieces[0] + " " + (Words(pieces[1..]) + " " + piece) == pieces[0] + " " + Words(pieces[1..]) + " " + piece;
    }
  }

  /** A line that holds one piece of a statement and no terminator. */
  predicate HoldsPiece(line: Line, piece: string) {
    line.Code? && line.closed == [] && line.last.text == piece && piece != ""
  }

  lemma {:induction false} PiecesSaid(lines: seq<Line>, pieces: seq<string>, k: nat)
    requires |lines| == |pieces| && 0 < k <= |lines| && forall i :: 0 <= i < |lines| ==> HoldsPiece(lines[i], pieces[i])
    ensures SayLines(lines, Said("", [])) == SayLines(lines[k..], Said(Words(pieces[..k]), []))
    decreases k
  {
    if k == 1 {
      assert HoldsPiece(lines[0], pieces[0]) && pieces[..1] == [pieces[0]];
    } else {
      PiecesSaid(lines, pieces, k - 1);
      assert HoldsPiece(lines[k - 1], pieces[k - 1]);
      assert lines[k - 1..][0] == lines[k - 1] && lines[k - 1..][1..] == lines[k..];
      var front := pieces[..k - 1];
      forall i | 0 <= i < |front| ensures front[i] != "" { assert HoldsPiece(lines[i], pieces[i]); }
      WordsGrow(front, pieces[k - 1]);
      assert pieces[..k] == front + [pieces[k - 1]];
    }
  }

  /** A statement written in pieces, one a line, is executed as its pieces with one space
      between each two. */
  lemma {:induction false} StatementOverLines(lines: seq<Line>, pieces: seq<string>)
    requires lines != [] && |lines| == |pieces| && GoodScript(lines, false)
    requires forall i :: 0 <= i < |lines| ==> HoldsPiece(lines[i], pieces[i])
    ensures Script(WriteScript(lines)) == [Execute(Words(pieces))]
  {
    hide GoodScript, Script, SayLine, Write;
    ScriptReadsBack(lines);
    PiecesSaid(lines, pieces, |lines|);
    assert lines[|lines|..] == [] && pieces[..|lines|] == pieces;
    forall i | 0 <= i < |lines| ensures pieces[i] != "" { assert HoldsPiece(lines[i], pieces[i]); }
    WordsNonempty(pieces);
  }

  lemma {:induction false} WordsNonempty(pieces: seq<string>)
    requires pieces != [] && forall i :: 0 <= i < |pieces| ==> pieces[i] != ""
    ensures Words(pieces) != ""
  {}

  // ---------------------------------------------------------------- source lines

  /** The path of a source command as written: as it is, or in quotes. */
  datatype PathText = Open(path: string) | InQuotes(quote: char, path: string)

  function WritePath(p: PathText): string {
    match p
    case Open(path) => path
    case InQuotes(quote, path) => [quote] + path + [quote]
  }

  predicate GoodPath(p: PathText) {
    var w := WritePath(p);
    w != "" && Trimmed(w) && NowhereIn(";", w) && NowhereIn(" --", w) && NowhereIn(" #", w) &&
    match p
    case Open(path) => !(|path| >= 2 && path[0] == path[|path| - 1] && path[0] in {'"', '\''})
    case InQuotes(quote, _) => quote in {'"', '\''}
  }

  predicate NowhereIn(pat: string, s: string) { forall k :: 0 <= k <= |s| ==> !(pat <= s[k..]) }

  /** What follows the path: nothing, a terminator, or a comment; a comment after `#` must not
      hold the mark of the other kind. */
  predicate GoodRest(rest: string) {
    rest == "" || rest[0] == ';' ||
    (NowhereIn(";", rest) && (" --" <= rest || (" #" <= rest && NowhereIn(" --", rest))))
  }

  lemma {:induction false} FoundAt(s: string, pat: string, i: nat, j: nat)
    requires i <= j <= |s| && (forall k :: i <= k < j ==> !(pat <= s[k..])) && (j < |s| ==> pat <= s[j..])
    ensures IndexOf(s, pat, i) == j
    decreases j - i
  {
    if i < j { FoundAt(s, pat, i + 1, j); }
  }

  /** No occurrence starts in a text that holds none and is followed by something the pattern
      cannot run into. */
  lemma {:induction false} NotInFront(pat: string, a: string, b: string, k: nat)
    requires NowhereIn(pat, a) && k < |a| && pat != "" && (b == "" || forall m :: 1 <= m < |pat| ==> pat[m] != b[0])
    ensures !(pat <= (a + b)[k..])
  {
    if k + |pat| <= |a| {
      assert !(pat <= a[k..]);
      assert (a + b)[k..k + |pat|] == a[k..k + |pat|];
    } else if b != "" {
      assert (a + b)[k..][|a| - k] == b[0];
    }
  }

  /** The argument up to a terminator or a comment. */
  function PathPart(arg: string): string {
    var a1 := arg[..IndexOf(arg, ";", 0)];
    var dash := IndexOf(a1, " --", 0);
    TrimWs(if dash < |a1| then a1[..dash] else a1[..IndexOf(a1, " #", 0)])
  }

  /** A text without the quotes around it. */
  function Unquoted(a: string): string {
    if |a| >= 2 && ((a[0] == '"' && a[|a| - 1] == '"') || (a[0] == '\'' && a[|a| - 1] == '\''))
    then a[1..|a| - 1] else a
  }

  lemma {:induction false} PathSplit(t: string, arg: string)
    requires |t| >= 6 && TrimWs(t[6..]) == arg
    ensures SourcePath(t) == Unquoted(PathPart(arg))
  {
    hide TrimWs, IndexOf;
  }

  /** A line that says source and a path is taken for a source command with that path, however
      it is spelled, spaced and quoted, and whatever comment follows. */
  lemma {:induction false} SourceReads(word: string, gap: string, p: PathText, rest: string)
    requires |word| == 6 && (forall k :: 0 <= k < 6 ==> Lower(word[k]) == "source"[k])
    requires gap != "" && AllWs(gap) && GoodPath(p) && GoodRest(rest) && Trimmed(WritePath(p) + rest)
    ensures var t := word + gap + WritePath(p) + rest; IsSource(t) && SourcePath(t) == p.path
  {
    hide NowhereIn, Lower, IsSource, TrimWs, GoodPath, GoodRest, Trimmed, AllWs, SourcePath, PathPart, Unquoted;
    var t, arg := word + gap + WritePath(p) + rest, WritePath(p) + rest;
    assert t == word + gap + arg;
    SourceArgument(word, gap, arg, t);
    PathAlone(p, rest);
    PathUnquoted(p);
    PathSplit(t, arg);
  }

  lemma {:induction false} SourceArgument(word: string, gap: string, arg: string, t: string)
    requires |word| == 6 && (forall k :: 0 <= k < 6 ==> Lower(word[k]) == "source"[k])
    requires gap != "" && AllWs(gap) && Trimmed(arg) && t == word + gap + arg
    ensures IsSource(t) && TrimWs(t[6..]) == arg
  {
    forall k | 0 <= k < 6 ensures Lower(t[k]) == SOURCE[k] { assert t[k] == word[k]; }
    assert t[6] == gap[0];
    assert t[6..] == gap + arg + "";
    TrimAround(gap, arg, "");
  }

  /** Cutting at the terminator and at the comment leaves the path as written. */
  lemma {:induction false} PathAlone(p: PathText, rest: string)
    requires GoodPath(p) && GoodRest(rest)
    ensures PathPart(WritePath(p) + rest) == WritePath(p)
  {
    var w := WritePath(p);
    TrimTrimmed(w);
    hide TrimWs;
    CutAt(";", w, rest);
    if rest == "" || rest[0] == ';' {
      assert (w + rest)[..|w|] == w && w + "" == w;
      CutAt(" --", w, "");
      CutAt(" #", w, "");
      assert w[..|w|] == w;
    } else {
      CutNone(";", w, rest);
      var a1 := w + rest;
      assert a1[..|a1|] == a1 && a1[..|w|] == w;
      if " --" <= rest {
        CutAt(" --", w, rest);
      } else {
        CutNone(" --", w, rest);
        CutAt(" #", w, rest);
      }
    }
  }

  /** The first occurrence is where the rest starts, if it starts with the pattern. */
  lemma {:induction false} CutAt(pat: string, w: string, rest: string)
    requires NowhereIn(pat, w) && pat in {";", " --", " #"} && (rest == "" || rest[0] in {' ', ';'})
    ensures rest == "" || pat <= rest ==> IndexOf(w + rest, pat, 0) == |w|
  {
    if rest == "" || pat <= rest {
      forall k | 0 <= k < |w| ensures !(pat <= (w + rest)[k..]) { NotInFront(pat, w, rest, k); }
      assert (w + rest)[|w|..] == rest;
      FoundAt(w + rest, pat, 0, |w|);
    }
  }

  lemma {:induction false} CutNone(pat: string, w: string, rest: string)
    requires NowhereIn(pat, w) && NowhereIn(pat, rest) && pat in {";", " --", " #"}
    requires rest != "" && rest[0] in {' ', ';'}
    ensures IndexOf(w + rest, pat, 0) == |w + rest|
  {
    forall k | 0 <= k < |w + rest| ensures !(pat <= (w + rest)[k..]) {
      if k < |w| { NotInFront(pat, w, rest, k); } else { assert (w + rest)[k..] == rest[k - |w|..]; }
    }
    FoundAt(w + rest, pat, 0, |w + rest|);
  }

  lemma {:induction false} PathUnquoted(p: PathText)
    requires GoodPath(p)
    ensures Unquoted(WritePath(p)) == p.path
  {
    if p.InQuotes? { assert WritePath(p)[1..|WritePath(p)| - 1] == p.path; }
  }

  lemma {:induction false} FirstIndex(s: string, pat: string, i: nat)
    requires i <= |s|
    ensures var j := IndexOf(s, pat, i);
            (j < |s| ==> pat <= s[j..]) && forall k :: i <= k < j ==> !(pat <= s[k..])
    decreases |s| - i
  {
    if i < |s| && !(pat <= s[i..]) { FirstIndex(s, pat, i + 1); }
  }

  /** A comment after `#` is cut off if and only if it does not hold the mark of the other kind,
      which is looked for first. */
  lemma {:induction false} HashCommentIff(word: string, gap: string, p: PathText, rest: string)
    requires |word| == 6 && (forall k :: 0 <= k < 6 ==> Lower(word[k]) == "source"[k])
    requires gap != "" && AllWs(gap) && GoodPath(p) && Trimmed(WritePath(p) + rest)
    requires " #" <= rest && NowhereIn(";", rest)
    ensures IsSource(word + gap + WritePath(p) + rest)
    ensures SourcePath(word + gap + WritePath(p) + rest) == p.path <==> NowhereIn(" --", rest)
  {
    var t, arg := word + gap + WritePath(p) + rest, WritePath(p) + rest;
    hide GoodPath, NowhereIn, Lower, TrimWs, Trimmed, IsSource, AllWs, SourcePath, PathPart, WritePath, Unquoted;
    assert t == word + gap + arg;
    SourceArgument(word, gap, arg, t);
    PathSplit(t, arg);
    if NowhereIn(" --", rest) { SourceReads(word, gap, p, rest); } else { HashCommentKept(p, rest); }
  }

  lemma {:induction false} HashCommentKept(p: PathText, rest: string)
    requires GoodPath(p) && " #" <= rest && NowhereIn(";", rest) && !NowhereIn(" --", rest)
    ensures Unquoted(PathPart(WritePath(p) + rest)) != p.path
  {
    var arg := WritePath(p) + rest;
    var k :| 0 <= k <= |rest| && " --" <= rest[k..];
    DashBehind(WritePath(p), rest, k);
    CutNone(";", WritePath(p), rest);
    hide GoodPath, NowhereIn, TrimWs, IndexOf, WritePath, Unquoted;
    LongerPath(p, arg[..IndexOf(arg, " --", 0)]);
    assert arg[..|arg|] == arg;
  }

  lemma {:induction false} DashBehind(w: string, rest: string, k: nat)
    requires NowhereIn(" --", w) && " #" <= rest && k <= |rest| && " --" <= rest[k..]
    ensures var arg := w + rest;
            var dash := IndexOf(arg, " --", 0);
            |w| + 2 <= dash < |arg| && w + " #" <= arg[..dash]
  {
    var arg := w + rest;
    var dash := IndexOf(arg, " --", 0);
    FirstIndex(arg, " --", 0);
    assert arg[|w| + k..] == rest[k..];
    assert arg[|w|..] == rest && rest[1] == '#' && arg[|w| + 1..][0] == '#';
    if dash < |w| { NotInFront(" --", w, rest, dash); }
  }

  /** What is kept of the comment stays in the path. */
  lemma {:induction false} LongerPath(p: PathText, a: string)
    requires GoodPath(p) && WritePath(p) + " #" <= a
    ensures p.path != Unquoted(TrimWs(a))
  {
    var w, e := WritePath(p), TextEnd(a, |a|);
    assert !IsWs(w[0]) && a[0] == w[0] && a[|w| + 1] == '#';
    assert FirstText(a, 0) == 0 && e >= |w| + 2;
    assert TrimWs(a) == a[..e];
    if e == |w| + 2 { assert TrimWs(a)[e - 1] == '#'; }
  }

  /** A longer word that starts like this one is no source command: the line is scanned. */
  lemma {:induction false} LongerWordIsNoSource(word: string, c: char, rest: string)
    requires |word| == 6 && c !in {' ', '\t', '\n', '\U{0B}', '\U{0C}', '\r'}
    ensures !IsSource(word + [c] + rest)
  {
    assert (word + [c] + rest)[6] == c;
  }

  /** A script of that one line does nothing else. */
  lemma {:induction false} SourceDispatches(word: string, gap: string, p: PathText, rest: string)
    requires |word| == 6 && (forall k :: 0 <= k < 6 ==> Lower(word[k]) == "source"[k])
    requires gap != "" && AllWs(gap) && GoodPath(p) && GoodRest(rest) && Trimmed(WritePath(p) + rest)
    ensures Script([word + gap + WritePath(p) + rest]) == [Source(p.path)]
  {
    hide GoodPath, GoodRest, Lower, IsSource, SourcePath, Trimmed, AllWs, WritePath, Script, IsWs;
    var t, arg := word + gap + WritePath(p) + rest, WritePath(p) + rest;
    SourceReads(word, gap, p, rest);
    assert t == word + gap + arg;
    NotEmpty(p, rest);
    WordFirst(word);
    OneSource(t) by { TrimmedEnds(word, gap, arg); }
  }

  lemma {:induction false} NotEmpty(p: PathText, rest: string)
    requires GoodPath(p)
    ensures WritePath(p) + rest != ""
  {}

  lemma {:induction false} WordFirst(word: string)
    requires |word| == 6 && forall k :: 0 <= k < 6 ==> Lower(word[k]) == "source"[k]
    ensures !IsWs(word[0])
  {
    assert Lower(word[0]) == 's';
  }

  lemma {:induction false} TrimmedEnds(word: string, gap: string, arg: string)
    requires word != "" && !IsWs(word[0]) && arg != "" && Trimmed(arg)
    ensures Trimmed(word + gap + arg)
  {
    var t := word + gap + arg;
    assert t[0] == word[0] && t[|t| - 1] == arg[|arg| - 1];
  }

  lemma {:induction false} OneSource(t: string)
    requires Trimmed(t) && IsSource(t)
    ensures Script([t]) == [Source(SourcePath(t))]
  {
    TrimTrimmed(t);
    TrimTrimmed("");
    assert ChopCr(t) == t;
    hide SourcePath, IsSource, TrimWs, Trimmed, ChopCr;
    assert OneLine(t, START) == State("", Plain, "", [Source(SourcePath(t))]);
    assert [t][1..] == [];
    assert Lines([t], START) == Lines([], OneLine(t, START));
  }
}
