/** runScript: SQL scripts cut into statements, with quotes and comments respected. */
module ScriptSplitter {
  // ---------------------------------------------------------------- white space

  predicate IsWs(c: char) { c == ' ' || c == '\t' || c == '\r' || c == '\n' }

  predicate AllWs(s: string) { forall i :: 0 <= i < |s| ==> IsWs(s[i]) }

  /** find_first_not_of and find_last_not_of of the four white-space characters. */
  function FirstText(s: string, i: nat): (a: nat)
    requires i <= |s|
    ensures i <= a <= |s| && (forall k :: i <= k < a ==> IsWs(s[k])) && (a < |s| ==> !IsWs(s[a]))
    decreases |s| - i
  {
    if i < |s| && IsWs(s[i]) then FirstText(s, i + 1) else i
  }

  function TextEnd(s: string, j: nat): (b: nat)
    requires j <= |s|
    ensures b <= j && (forall k :: b <= k < j ==> IsWs(s[k])) && (b > 0 ==> !IsWs(s[b - 1]))
  {
    if j > 0 && IsWs(s[j - 1]) then TextEnd(s, j - 1) else j
  }

  function TrimWs(s: string): string {
    var a := FirstText(s, 0);
    if a == |s| then "" else
      assert TextEnd(s, |s|) > a;
      s[a..TextEnd(s, |s|)]
  }

  predicate Trimmed(s: string) { s == "" || (!IsWs(s[0]) && !IsWs(s[|s| - 1])) }

  lemma {:induction false} TrimAround(before: string, text: string, after: string)
    requires AllWs(before) && Trimmed(text) && AllWs(after)
    ensures TrimWs(before + text + after) == text
  {
    var s := before + text + after;
    var a, b := |before|, |before| + |text|;
    if text == "" {
      assert FirstText(s, 0) == |s|;
    } else {
      assert s[a] == text[0] && s[b - 1] == text[|text| - 1];
      assert FirstText(s, 0) == a && TextEnd(s, |s|) == b;
      assert s[a..b] == text;
    }
  }

  lemma {:induction false} TrimTrimmed(text: string)
    requires Trimmed(text)
    ensures TrimWs(text) == text
  {
    TrimAround("", text, "");
    assert "" + text + "" == text;
  }

  // ---------------------------------------------------------------- the scanner

  datatype Mode = Plain | Single | Double | Block

  /** What a script makes the shell do, in order. */
  datatype Event = Execute(sql: string) | Source(path: string)

  datatype State = State(buf: string, mode: Mode, stmt: string, events: seq<Event>)

  /** A piece joins the pending statement after one space. */
  function Join(stmt: string, piece: string): string {
    if piece == "" then stmt else if stmt == "" then piece else stmt + " " + piece
  }

  function Flush(stmt: string, events: seq<Event>): seq<Event> {
    if TrimWs(stmt) == "" then events else events + [Execute(TrimWs(stmt))]
  }

  /** Scans one line from index i. */
  function Scan(raw: string, i: nat, s: State): State
    decreases |raw| - i
  {
    if i >= |raw| then s
    else
      var c := raw[i];
      match s.mode
      case Single => Scan(raw, i + 1, s.(buf := s.buf + [c], mode := if c == '\'' then Plain else Single))
      case Double => Scan(raw, i + 1, s.(buf := s.buf + [c], mode := if c == '"' then Plain else Double))
      case Block =>
        if c == '*' && i + 1 < |raw| && raw[i + 1] == '/' then Scan(raw, i + 2, s.(mode := Plain))
        else Scan(raw, i + 1, s)
      case Plain =>
        if c == '\'' then Scan(raw, i + 1, s.(buf := s.buf + [c], mode := Single))
        else if c == '"' then Scan(raw, i + 1, s.(buf := s.buf + [c], mode := Double))
        else if c == '/' && i + 1 < |raw| && raw[i + 1] == '*' then Scan(raw, i + 2, s.(mode := Block))
        else if c == '-' && i + 1 < |raw| && raw[i + 1] == '-' then s
        else if c == '#' then s
        else if c == ';' then Scan(raw, i + 1, EndStatement(s))
        else Scan(raw, i + 1, s.(buf := s.buf + [c]))
  }

  /** A terminator: the text so far completes the pending statement, which is executed. */
  function EndStatement(s: State): State {
    State("", s.mode, "", Flush(Join(s.stmt, TrimWs(s.buf)), s.events))
  }

  /** The end of a line: its text joins the pending statement; open quotes are forgotten,
      an open block comment is not. */
  function EndLine(s: State): State {
    State("", if s.mode == Block then Block else Plain, Join(s.stmt, TrimWs(s.buf)), s.events)
  }

  function Lower(c: char): char { if 'A' <= c <= 'Z' then c - 'A' + 'a' else c }

  const SOURCE := "source"

  predicate IsSpace(c: char) { c == ' ' || '\t' <= c <= '\r' }

  /** The word itself, then white space or the end. */
  predicate IsSource(t: string) {
    |t| >= 6 && (forall k :: 0 <= k < 6 ==> Lower(t[k]) == SOURCE[k]) && (|t| > 6 ==> IsSpace(t[6]))
  }

  function IndexOf(s: string, pat: string, i: nat): (j: nat)
    requires i <= |s|
    ensures i <= j <= |s|
    decreases |s| - i
  {
    if i < |s| && pat <= s[i..] then i else if i < |s| then IndexOf(s, pat, i + 1) else |s|
  }

  /** The path: up to a terminator or a trailing comment, trimmed, without quotes around it. */
  function SourcePath(t: string): string
    requires |t| >= 6
  {
    var arg := TrimWs(t[6..]);
    var a1 := arg[..IndexOf(arg, ";", 0)];
    var dash := IndexOf(a1, " --", 0);
    var a2 := TrimWs(if dash < |a1| then a1[..dash] else a1[..IndexOf(a1, " #", 0)]);
    if |a2| >= 2 && ((a2[0] == '"' && a2[|a2| - 1] == '"') || (a2[0] == '\'' && a2[|a2| - 1] == '\''))
    then a2[1..|a2| - 1] else a2
  }

  function ChopCr(raw: string): string {
    if raw != "" && raw[|raw| - 1] == '\r' then raw[..|raw| - 1] else raw
  }

  function OneLine(raw: string, s: State): State {
    var line := ChopCr(raw);
    var t := TrimWs(line);
    if s.mode != Block && IsSource(t) then s.(stmt := "", events := Flush(s.stmt, s.events) + [Source(SourcePath(t))])
    else EndLine(Scan(line, 0, s))
  }

  const START := State("", Plain, "", [])

  function Lines(raws: seq<string>, s: State): State {
    if raws == [] then s else Lines(raws[1..], OneLine(raws[0], s))
  }

  /** Everything the script does; the end flushes what is pending. */
  function Script(raws: seq<string>): seq<Event> {
    var s := Lines(raws, START);
    Flush(s.stmt, s.events)
  }

  // ---------------------------------------------------------------- the method

  /** The line loop and the character loop of runScript. */
  method RunScript(raws: seq<string>) returns (events: seq<Event>)
    ensures events == Script(raws)
  {
    hide Scan, Flush;
    var stmt, inBlock := "", false;
    events := [];
    for r := 0 to |raws|
      invariant Lines(raws[r..], State("", if inBlock then Block else Plain, stmt, events)) == Lines(raws, START)
    {
      var raw := raws[r];
      assert raws[r..][0] == raw && raws[r..][1..] == raws[r + 1..];
      if |raw| > 0 && raw[|raw| - 1] == '\r' { raw := raw[..|raw| - 1]; }
      var t := TrimWs(raw);
      if !inBlock && IsSource(t) {
        events := Flush(stmt, events) + [Source(SourcePath(t))];
        stmt := "";
      } else {
        stmt, inBlock, events := ScanLine(raw, stmt, inBlock, events);
      }
    }
    assert raws[|raws|..] == [];
    events := Flush(stmt, events);
  }

  method ScanLine(raw: string, stmt0: string, inBlock0: bool, events0: seq<Event>)
      returns (stmt: string, inBlock: bool, events: seq<Event>)
    ensures EndLine(Scan(raw, 0, State("", if inBlock0 then Block else Plain, stmt0, events0))) ==
            State("", if inBlock then Block else Plain, stmt, events)
  {
    hide TrimWs, Flush, Join;
    stmt, inBlock, events := stmt0, inBlock0, events0;
    var buf, inS, inD, i, n := "", false, false, 0, |raw|;
    ghost var goal := Scan(raw, 0, State("", if inBlock0 then Block else Plain, stmt0, events0));
    while i < n
      invariant i <= n && (inS ==> !inD && !inBlock) && (inD ==> !inBlock)
      invariant Scan(raw, i, State(buf, ModeOf(inS, inD, inBlock), stmt, events)) == goal
      decreases n - i
    {
      var c := raw[i];
      if inS {
        if c == '\'' { inS := false; }
        buf, i := buf + [c], i + 1;
      } else if inD {
        if c == '"' { inD := false; }
        buf, i := buf + [c], i + 1;
      } else if inBlock {
        if c == '*' && i + 1 < n && raw[i + 1] == '/' { inBlock, i := false, i + 2; } else { i := i + 1; }
      } else if c == '\'' {
        inS, buf, i := true, buf + [c], i + 1;
      } else if c == '"' {
        inD, buf, i := true, buf + [c], i + 1;
      } else if c == '/' && i + 1 < n && raw[i + 1] == '*' {
        inBlock, i := true, i + 2;
      } else if c == '-' && i + 1 < n && raw[i + 1] == '-' {
        break;
      } else if c == '#' {
        break;
      } else if c == ';' {
        stmt := Join(stmt, TrimWs(buf));
        events := Flush(stmt, events);
        stmt, buf, i := "", "", i + 1;
      } else {
        buf, i := buf + [c], i + 1;
      }
    }
    assert goal == State(buf, ModeOf(inS, inD, inBlock), stmt, events);
    stmt := Join(stmt, TrimWs(buf));
  }

  function ModeOf(inS: bool, inD: bool, inBlock: bool): Mode {
    if inS then Single else if inD then Double else if inBlock then Block else Plain
  }
}
