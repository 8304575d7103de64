/** Splitting a tool's output into lines while it arrives in pieces. */
module Streams {
  predicate IsBreak(c: char) {
    c == '\n' || c == '\r'
  }

  ghost predicate NoBreak(s: string) {
    forall i :: 0 <= i < |s| ==> !IsBreak(s[i])
  }

  // --------------------------------------------------- what a line split is

  predicate IsTerminator(t: string) {
    t == "\n" || t == "\r" || t == "\r\n"
  }

  function Glue(lines: seq<string>, ends: seq<string>): string
    requires |lines| == |ends|
  {
    if lines == [] then "" else lines[0] + ends[0] + Glue(lines[1..], ends[1..])
  }

  /**
   * `lines` are the lines of `s`: put back together with their terminators they are `s`, no line
   * contains a break, only the last may lack a terminator (and then is not empty), and no `\r\n` is
   * taken apart.
   */
  ghost predicate IsLineSplit(s: string, lines: seq<string>, ends: seq<string>) {
    && |lines| == |ends| && Glue(lines, ends) == s
    && (forall i :: 0 <= i < |lines| ==> NoBreak(lines[i]))
    && (forall i :: 0 <= i < |ends| ==> IsTerminator(ends[i]) || (i == |ends| - 1 && ends[i] == "" && lines[i] != ""))
    && (forall i :: 0 <= i < |ends| - 1 ==> ends[i] == "\r" ==> !(lines[i + 1] == "" && ends[i + 1] == "\n"))
  }

  /** The position of the first break, or the length. */
  function FirstBreak(s: string): (i: nat)
    ensures i <= |s|
  {
    if s == "" || IsBreak(s[0]) then 0 else FirstBreak(s[1..]) + 1
  }

  lemma {:induction false} FirstBreakFound(s: string)
    ensures var i := FirstBreak(s); NoBreak(s[..i]) && (i < |s| ==> IsBreak(s[i]))
  {
    if s != "" && !IsBreak(s[0]) {
      var i := FirstBreak(s[1..]);
      FirstBreakFound(s[1..]);
      assert s[..i + 1] == [s[0]] + s[1..][..i];
    }
  }

  function BreakLength(s: string, i: nat): nat
    requires i < |s|
  {
    if s[i] == '\r' && i + 1 < |s| && s[i + 1] == '\n' then 2 else 1
  }

  /** The lines of a whole text under `\n`, `\r` and `\r\n`. */
  function Lines(s: string): seq<string>
    decreases |s|
  {
    if s == "" then []
    else
      var i := FirstBreak(s);
      if i == |s| then [s] else [s[..i]] + Lines(s[i + BreakLength(s, i)..])
  }

  function Ends(s: string): seq<string>
    decreases |s|
  {
    if s == "" then []
    else
      var i := FirstBreak(s);
      if i == |s| then [""] else [s[i..i + BreakLength(s, i)]] + Ends(s[i + BreakLength(s, i)..])
  }

  lemma SplitCons(line: string, end: string, rest: string, lines: seq<string>, ends: seq<string>)
    requires IsLineSplit(rest, lines, ends) && NoBreak(line) && IsTerminator(end)
    requires end == "\r" ==> rest == "" || rest[0] != '\n'
    ensures IsLineSplit(line + end + rest, [line] + lines, [end] + ends)
  {
    var ls, es := [line] + lines, [end] + ends;
    assert ls[1..] == lines && es[1..] == ends;
    if lines != [] && lines[0] == "" && ends[0] == "\n" {
      assert rest[0] == '\n';
    }
  }

  lemma LinesLast(s: string)
    requires s != "" && FirstBreak(s) == |s|
    ensures IsLineSplit(s, Lines(s), Ends(s))
  {
    FirstBreakFound(s);
    assert s[..|s|] == s;
    ghost var lines, ends := [s], [""];
    assert Lines(s) == lines && Ends(s) == ends;
    assert Glue(lines[1..], ends[1..]) == "";
  }

  lemma LinesNext(s: string, i: nat)
    requires i == FirstBreak(s) < |s|
    ensures var rest := s[i + BreakLength(s, i)..];
      Lines(s) == [s[..i]] + Lines(rest) && Ends(s) == [s[i..i + BreakLength(s, i)]] + Ends(rest)
  {
  }

  lemma {:induction false} LinesSplit(s: string)
    ensures IsLineSplit(s, Lines(s), Ends(s))
    decreases |s|
  {
    var i := FirstBreak(s);
    if s == "" {
    } else if i == |s| {
      LinesLast(s);
    } else {
      FirstBreakFound(s);
      var k := i + BreakLength(s, i);
      LinesSplit(s[k..]);
      LinesNext(s, i);
      CutApart(s, i, k);
      TerminatorAt(s, i);
      SplitCons(s[..i], s[i..k], s[k..], Lines(s[k..]), Ends(s[k..]));
    }
  }

  lemma CutApart(s: string, i: nat, k: nat)
    requires i <= k <= |s|
    ensures s[..i] + s[i..k] + s[k..] == s
  {
  }

  lemma TerminatorAt(s: string, i: nat)
    requires i < |s| && IsBreak(s[i])
    ensures var k := i + BreakLength(s, i);
      && k <= |s| && IsTerminator(s[i..k])
      && (s[i..k] == "\r" ==> s[k..] == "" || s[k..][0] != '\n')
  {
    var k := i + BreakLength(s, i);
    if BreakLength(s, i) == 2 {
      assert s[i..k] == "\r\n";
    } else {
      assert s[i..k] == [s[i]];
    }
  }

  /** There is only one way to split a text into lines. */
  lemma {:induction false} SplitUnique(s: string, lines: seq<string>, ends: seq<string>)
    requires IsLineSplit(s, lines, ends)
    ensures lines == Lines(s) && ends == Ends(s)
    decreases |lines|
  {
    if lines != [] {
      var tail := Glue(lines[1..], ends[1..]);
      assert s == lines[0] + ends[0] + tail;
      TailSplit(s, lines, ends);
      SplitUnique(tail, lines[1..], ends[1..]);
      FirstLine(lines[0], ends[0], tail, lines, ends);
      assert lines == [lines[0]] + lines[1..] && ends == [ends[0]] + ends[1..];
    }
  }

  lemma TailSplit(s: string, lines: seq<string>, ends: seq<string>)
    requires IsLineSplit(s, lines, ends) && lines != []
    ensures IsLineSplit(Glue(lines[1..], ends[1..]), lines[1..], ends[1..])
  {
    var ls, es := lines[1..], ends[1..];
    forall i | 0 <= i < |es|
      ensures NoBreak(ls[i])
      ensures IsTerminator(es[i]) || (i == |es| - 1 && es[i] == "" && ls[i] != "")
      ensures i < |es| - 1 && es[i] == "\r" ==> !(ls[i + 1] == "" && es[i + 1] == "\n")
    {
      assert ls[i] == lines[i + 1] && es[i] == ends[i + 1];
      if i < |es| - 1 {
        assert ls[i + 1] == lines[i + 1 + 1] && es[i + 1] == ends[i + 1 + 1];
      }
    }
  }

  lemma {:induction false} FirstBreakIs(s: string, i: nat)
    requires i <= |s| && NoBreak(s[..i]) && (i < |s| ==> IsBreak(s[i]))
    ensures FirstBreak(s) == i
  {
    assert i > 0 ==> !IsBreak(s[..i][0]);
    if i > 0 {
      assert s[1..][..i - 1] == s[..i][1..];
      FirstBreakIs(s[1..], i - 1);
    }
  }

  lemma BreakAt(line: string, rest: string)
    requires NoBreak(line) && (rest == "" || IsBreak(rest[0]))
    ensures FirstBreak(line + rest) == |line|
  {
    assert (line + rest)[..|line|] == line;
    FirstBreakIs(line + rest, |line|);
  }

  lemma FirstLine(line: string, end: string, tail: string, lines: seq<string>, ends: seq<string>)
    requires IsLineSplit(line + end + tail, lines, ends) && lines != [] && lines[0] == line && ends[0] == end
    requires tail == Glue(lines[1..], ends[1..])
    ensures Lines(line + end + tail) == [line] + Lines(tail)
    ensures Ends(line + end + tail) == [end] + Ends(tail)
  {
    var s := line + end + tail;
    assert s == line + (end + tail);
    if end == "" {
      assert |lines| == 1 && tail == "";
      BreakAt(line, "");
      assert s == line + "" == line;
    } else {
      BreakAt(line, end + tail);
      assert s[..|line|] == line;
      assert BreakLength(s, |line|) == |end| by {
        if end == "\r" && tail != "" && tail[0] == '\n' {
          TailStartsLine(lines, ends);
        }
      }
      assert s[|line|..|line| + |end|] == end;
      assert s[|line| + |end|..] == tail;
    }
  }

  lemma TailStartsLine(lines: seq<string>, ends: seq<string>)
    requires |lines| == |ends| && lines != [] && Glue(lines[1..], ends[1..]) != ""
      && Glue(lines[1..], ends[1..])[0] == '\n'
    requires forall i :: 0 <= i < |lines| ==> NoBreak(lines[i])
    requires forall i :: 0 <= i < |ends| ==>
      IsTerminator(ends[i]) || (i == |ends| - 1 && ends[i] == "" && lines[i] != "")
    ensures |lines| > 1 && lines[1] == "" && ends[1] == "\n"
  {
    var tail := Glue(lines[1..], ends[1..]);
    assert lines[1..][0] == lines[1] && ends[1..][0] == ends[1];
    assert tail == lines[1] + (ends[1] + Glue(lines[1..][1..], ends[1..][1..]));
    assert lines[1] == "" ==> tail[0] == ends[1][0];
  }

  // ------------------------------------------------------------ the splitter

  datatype Pieces = Pieces(lines: seq<string>, partial: string)

  /** The complete lines of a buffer and what follows them; a `\r` at the very end is held back. */
  function Split(buffer: string): Pieces
    decreases |buffer|
  {
    var i := FirstBreak(buffer);
    if HeldBack(buffer, i) then Pieces([], buffer)
    else
      var r := Split(buffer[i + BreakLength(buffer, i)..]);
      Pieces([buffer[..i]] + r.lines, r.partial)
  }

  predicate HeldBack(buffer: string, i: nat)
    requires i <= |buffer|
  {
    i == |buffer| || (buffer[i] == '\r' && i + 1 == |buffer|)
  }

  lemma SplitStep(buffer: string, start: nat, i: nat)
    requires start <= i < |buffer| && NoBreak(buffer[start..i]) && IsBreak(buffer[i]) && !HeldBack(buffer, i)
    ensures var rest := buffer[i + BreakLength(buffer, i)..];
      Split(buffer[start..]) == Pieces([buffer[start..i]] + Split(rest).lines, Split(rest).partial)
  {
    var t := buffer[start..];
    assert t == buffer[start..i] + buffer[i..];
    BreakAt(buffer[start..i], buffer[i..]);
    assert t[..i - start] == buffer[start..i];
    assert BreakLength(t, i - start) == BreakLength(buffer, i);
    assert t[i - start + BreakLength(buffer, i)..] == buffer[i + BreakLength(buffer, i)..];
  }

  lemma SplitHold(buffer: string, start: nat, i: nat)
    requires start <= i <= |buffer| && NoBreak(buffer[start..i]) && HeldBack(buffer, i)
    ensures Split(buffer[start..]) == Pieces([], buffer[start..])
  {
    assert buffer[start..] == buffer[start..i] + buffer[i..];
    BreakAt(buffer[start..i], buffer[i..]);
  }

  /** The lines before `start` are split off; the rest is still to be split. */
  ghost predicate SplitSoFar(buffer: string, start: nat, lines: seq<string>)
    requires start <= |buffer|
  {
    var rest := Split(buffer[start..]);
    Split(buffer) == Pieces(lines + rest.lines, rest.partial)
  }

  lemma SplitOneMore(buffer: string, start: nat, i: nat, lines: seq<string>)
    requires start <= i < |buffer| && SplitSoFar(buffer, start, lines)
    requires NoBreak(buffer[start..i]) && IsBreak(buffer[i]) && !HeldBack(buffer, i)
    ensures SplitSoFar(buffer, i + BreakLength(buffer, i), lines + [buffer[start..i]])
  {
    hide Split, FirstBreak;
    SplitStep(buffer, start, i);
    var rest := Split(buffer[i + BreakLength(buffer, i)..]);
    assert lines + ([buffer[start..i]] + rest.lines) == (lines + [buffer[start..i]]) + rest.lines;
  }

  lemma SplitDone(buffer: string, start: nat, i: nat, lines: seq<string>)
    requires start <= i <= |buffer| && SplitSoFar(buffer, start, lines)
    requires NoBreak(buffer[start..i]) && HeldBack(buffer, i)
    ensures Split(buffer) == Pieces(lines, buffer[start..])
  {
    SplitHold(buffer, start, i);
  }

  lemma NothingSplit(buffer: string)
    ensures SplitSoFar(buffer, 0, [])
  {
    assert buffer[0..] == buffer;
  }

  lemma NoBreakMore(buffer: string, start: nat, i: nat)
    requires start <= i < |buffer| && NoBreak(buffer[start..i]) && !IsBreak(buffer[i])
    ensures NoBreak(buffer[start..i + 1])
  {
    assert buffer[start..i + 1] == buffer[start..i] + [buffer[i]];
  }

  // -------------------------------------------------- what a split leaves back

  /** No break, or a single `\r` at the end whose `\n` may still be to come. */
  ghost predicate OpenEnded(partial: string) {
    NoBreak(partial) || (partial[|partial| - 1] == '\r' && NoBreak(partial[..|partial| - 1]))
  }

  /**
   * The lines with their terminators and then the partial make up the buffer. The partial holds no
   * break but a final `\r`, and nothing that may go on is counted as complete.
   */
  ghost predicate SplitsOff(buffer: string, lines: seq<string>, ends: seq<string>, partial: string) {
    && |lines| == |ends| && IsLineSplit(Glue(lines, ends), lines, ends) && buffer == Glue(lines, ends) + partial
    && (forall i :: 0 <= i < |ends| ==> IsTerminator(ends[i]))
    && OpenEnded(partial) && (partial == "" && ends != [] ==> ends[|ends| - 1] != "\r")
  }

  ghost predicate IsSplit(buffer: string, lines: seq<string>, partial: string) {
    exists ends :: SplitsOff(buffer, lines, ends, partial)
  }

  lemma NothingOff(buffer: string)
    requires HeldBack(buffer, FirstBreak(buffer))
    ensures SplitsOff(buffer, [], [], buffer)
  {
    FirstBreakFound(buffer);
    var i := FirstBreak(buffer);
    hide FirstBreak;
    if i == |buffer| {
      assert buffer[..i] == buffer;
      AllLeft(buffer);
    } else {
      assert i == |buffer| - 1;
      AllLeft(buffer);
    }
  }

  lemma AllLeft(buffer: string)
    requires OpenEnded(buffer)
    ensures SplitsOff(buffer, [], [], buffer)
  {
    hide OpenEnded;
    assert Glue([], []) == "" && "" + buffer == buffer;
  }

  /** One more line in front. */
  lemma OffBefore(line: string, end: string, rest: string, lines: seq<string>, ends: seq<string>, partial: string)
    requires SplitsOff(rest, lines, ends, partial) && NoBreak(line) && IsTerminator(end)
    requires end == "\r" ==> rest != "" && rest[0] != '\n'
    ensures SplitsOff(line + end + rest, [line] + lines, [end] + ends, partial)
  {
    var head := Glue(lines, ends);
    assert end == "\r" && head != "" ==> head[0] == rest[0];
    SplitCons(line, end, head, lines, ends);
    assert ([line] + lines)[1..] == lines && ([end] + ends)[1..] == ends;
    assert line + end + (head + partial) == (line + end + head) + partial;
    if ends == [] {
      assert head == "" && rest == partial;
    }
  }

  /** The complete lines and what is left back are as they should be. */
  lemma {:induction false} SplitIs(buffer: string) returns (ends: seq<string>)
    ensures SplitsOff(buffer, Split(buffer).lines, ends, Split(buffer).partial)
    decreases |buffer|
  {
    hide Split, FirstBreak, SplitsOff;
    var i := FirstBreak(buffer);
    if HeldBack(buffer, i) {
      SplitNothing(buffer);
      NothingOff(buffer);
      ends := [];
    } else {
      FirstBreakFound(buffer);
      SplitNext(buffer, i);
      var k := i + BreakLength(buffer, i);
      var es := SplitIs(buffer[k..]);
      CutApart(buffer, i, k);
      TerminatorAt(buffer, i);
      OffBefore(buffer[..i], buffer[i..k], buffer[k..], Split(buffer[k..]).lines, es, Split(buffer[k..]).partial);
      ends := [buffer[i..k]] + es;
    }
  }

  lemma {:induction false} GlueOneMore(lines: seq<string>, ends: seq<string>, line: string, end: string)
    requires |lines| == |ends|
    ensures Glue(lines + [line], ends + [end]) == Glue(lines, ends) + line + end
  {
    var ls, es := lines + [line], ends + [end];
    if lines == [] {
      assert ls[1..] == [] && es[1..] == [];
    } else {
      GlueOneMore(lines[1..], ends[1..], line, end);
      assert ls[1..] == lines[1..] + [line] && es[1..] == ends[1..] + [end];
    }
  }

  /** What is left back is the last line of the buffer, if it is not empty. */
  lemma LeftIsLast(buffer: string, lines: seq<string>, ends: seq<string>, partial: string)
    requires SplitsOff(buffer, lines, ends, partial)
    ensures partial == "" ==> lines == Lines(buffer) && ends == Ends(buffer)
    ensures partial != "" ==> exists line, end ::
      && (end == "" || end == "\r") && line + end == partial
      && lines + [line] == Lines(buffer) && ends + [end] == Ends(buffer)
  {
    if partial == "" {
      assert buffer == Glue(lines, ends);
      SplitUnique(buffer, lines, ends);
    } else {
      var line, end := partial, "";
      if !NoBreak(partial) {
        line, end := partial[..|partial| - 1], "\r";
        assert partial == line + end;
      }
      GlueOneMore(lines, ends, line, end);
      assert partial == line + end;
      assert Glue(lines, ends) + line + end == Glue(lines, ends) + (line + end);
      SplitUnique(buffer, lines + [line], ends + [end]);
    }
  }

  /** There is only one such split. */
  lemma SplitOnly(buffer: string, lines: seq<string>, partial: string)
    ensures IsSplit(buffer, lines, partial) <==> Pieces(lines, partial) == Split(buffer)
  {
    var r := Split(buffer);
    var es := SplitIs(buffer);
    assert IsSplit(buffer, r.lines, r.partial);
    LeftIsLast(buffer, r.lines, es, r.partial);
    if IsSplit(buffer, lines, partial) {
      hide Split, Lines, Ends, IsLineSplit, OpenEnded, Glue;
      var ends :| SplitsOff(buffer, lines, ends, partial);
      LeftIsLast(buffer, lines, ends, partial);
      SameLast(lines, ends, partial, r.lines, es, r.partial, Lines(buffer), Ends(buffer));
    }
  }

  ghost predicate LastAside(lines: seq<string>, ends: seq<string>, partial: string, all: seq<string>,
      allEnds: seq<string>) {
    && |lines| == |ends| && (forall i :: 0 <= i < |ends| ==> IsTerminator(ends[i]))
    && (partial == "" && ends != [] ==> ends[|ends| - 1] != "\r")
    && (partial == "" ==> lines == all && ends == allEnds)
    && (partial != "" ==> exists line, end ::
      (end == "" || end == "\r") && line + end == partial && lines + [line] == all && ends + [end] == allEnds)
  }

  lemma SameLast(a: seq<string>, es: seq<string>, p: string, b: seq<string>, fs: seq<string>, q: string,
      all: seq<string>, allEnds: seq<string>)
    requires LastAside(a, es, p, all, allEnds) && LastAside(b, fs, q, all, allEnds)
    ensures a == b && p == q
  {
    if p != "" {
      var line, end :| (end == "" || end == "\r") && line + end == p && a + [line] == all && es + [end] == allEnds;
      assert allEnds[|allEnds| - 1] == end && all[|all| - 1] == line && a == all[..|all| - 1];
    }
    if q != "" {
      var line, end :| (end == "" || end == "\r") && line + end == q && b + [line] == all && fs + [end] == allEnds;
      assert allEnds[|allEnds| - 1] == end && all[|all| - 1] == line && b == all[..|all| - 1];
    }
  }

  /** The splitter's index loop. */
  method SplitIoLines(buffer: string) returns (lines: seq<string>, partial: string)
    ensures Pieces(lines, partial) == Split(buffer) && IsSplit(buffer, lines, partial)
  {
    hide Split, SplitSoFar, FirstBreak, IsSplit;
    lines := [];
    var start, i, n := 0, 0, |buffer|;
    NothingSplit(buffer);
    while i < n
      invariant 0 <= start <= i <= n && NoBreak(buffer[start..i])
      invariant SplitSoFar(buffer, start, lines)
      decreases n - i
    {
      var c := buffer[i];
      if c == '\n' {
        SplitOneMore(buffer, start, i, lines);
        lines := lines + [buffer[start..i]];
        i := i + 1;
        start := i;
      } else if c == '\r' {
        if i + 1 >= n {
          break;
        }
        SplitOneMore(buffer, start, i, lines);
        lines := lines + [buffer[start..i]];
        if buffer[i + 1] == '\n' {
          i := i + 2;
        } else {
          i := i + 1;
        }
        start := i;
      } else {
        NoBreakMore(buffer, start, i);
        i := i + 1;
      }
    }
    SplitDone(buffer, start, i, lines);
    partial := buffer[start..];
    SplitOnly(buffer, lines, partial);
  }

  lemma SplitNext(buffer: string, i: nat)
    requires i == FirstBreak(buffer) && !HeldBack(buffer, i)
    ensures var rest := buffer[i + BreakLength(buffer, i)..];
      Split(buffer) == Pieces([buffer[..i]] + Split(rest).lines, Split(rest).partial)
  {
  }

  lemma MoreBehind(buffer: string, more: string, i: nat)
    requires i < |buffer| && !HeldBack(buffer, i)
    ensures var s, k := buffer + more, BreakLength(buffer, i);
      && BreakLength(s, i) == k && i + k <= |buffer|
      && s[..i] == buffer[..i] && s[i] == buffer[i] && s[i + k..] == buffer[i + k..] + more
  {
  }

  lemma LinesBefore(buffer: string, more: string, i: nat)
    requires i == FirstBreak(buffer) && !HeldBack(buffer, i)
    ensures Lines(buffer + more) == [buffer[..i]] + Lines(buffer[i + BreakLength(buffer, i)..] + more)
  {
    FirstBreakFound(buffer);
    MoreBehind(buffer, more, i);
    FirstBreakIs(buffer + more, i);
    LinesNext(buffer + more, i);
  }

  lemma SplitNothing(buffer: string)
    requires HeldBack(buffer, FirstBreak(buffer))
    ensures Split(buffer) == Pieces([], buffer)
  {
  }

  /** Lines already complete stay as they are when more text follows the partial. */
  lemma {:induction false} SplitThenMore(buffer: string, more: string)
    ensures Lines(buffer + more) == Split(buffer).lines + Lines(Split(buffer).partial + more)
    decreases |buffer|
  {
    hide Lines, Split, FirstBreak;
    var i := FirstBreak(buffer);
    if HeldBack(buffer, i) {
      SplitNothing(buffer);
    } else {
      SplitNext(buffer, i);
      LinesBefore(buffer, more, i);
      SplitThenMore(buffer[i + BreakLength(buffer, i)..], more);
    }
  }

  // ---------------------------------------------------------------- draining

  /** `str.isspace` on one character. */
  predicate IsSpace(c: char) {
    var n := c as int;
    || 0x09 <= n <= 0x0d || 0x1c <= n <= 0x20 || n == 0x85 || n == 0xa0 || n == 0x1680 || 0x2000 <= n <= 0x200a
    || n == 0x2028 || n == 0x2029 || n == 0x202f || n == 0x205f || n == 0x3000
  }

  /** The code points of the white space characters of Unicode, and of the four information separators. */
  const SPACES: set<int> := {
    0x09, 0x0a, 0x0b, 0x0c, 0x0d, 0x1c, 0x1d, 0x1e, 0x1f, 0x20, 0x85, 0xa0, 0x1680,
    0x2000, 0x2001, 0x2002, 0x2003, 0x2004, 0x2005, 0x2006, 0x2007, 0x2008, 0x2009, 0x200a,
    0x2028, 0x2029, 0x202f, 0x205f, 0x3000}

  lemma SpacesAre(c: char)
    ensures IsSpace(c) <==> c as int in SPACES
  {
  }

  function RStrip(s: string): string {
    if s != "" && IsSpace(s[|s| - 1]) then RStrip(s[..|s| - 1]) else s
  }

  function RStripAll(lines: seq<string>): (r: seq<string>)
    ensures |r| == |lines| && forall i :: 0 <= i < |lines| ==> r[i] == RStrip(lines[i])
  {
    seq(|lines|, i requires 0 <= i < |lines| => RStrip(lines[i]))
  }

  /** `r` is the line without the spaces at its end. */
  ghost predicate IsStripped(line: string, r: string) {
    && r <= line && (forall i :: |r| <= i < |line| ==> line[i] as int in SPACES)
    && (r != "" ==> r[|r| - 1] as int !in SPACES)
  }

  ghost predicate AreStripped(lines: seq<string>, records: seq<string>) {
    |records| == |lines| && forall i :: 0 <= i < |lines| ==> IsStripped(lines[i], records[i])
  }

  lemma {:induction false} StrippedOff(line: string)
    ensures var r := RStrip(line);
      && r <= line && (forall i :: |r| <= i < |line| ==> IsSpace(line[i])) && (r != "" ==> !IsSpace(r[|r| - 1]))
  {
    if line != "" && IsSpace(line[|line| - 1]) {
      StrippedOff(line[..|line| - 1]);
    }
  }

  lemma StrippedIff(line: string, r: string)
    ensures IsStripped(line, r) <==> r == RStrip(line)
  {
    StrippedOff(line);
    forall c: char
      ensures IsSpace(c) <==> c as int in SPACES
    {
      SpacesAre(c);
    }
    hide IsSpace;
    var t := RStrip(line);
    if IsStripped(line, r) {
      assert r == line[..|r|] && t == line[..|t|];
      assert t != "" ==> !IsSpace(line[|t| - 1]);
      assert r != "" ==> !IsSpace(line[|r| - 1]);
    }
  }

  lemma AllStrippedIff(lines: seq<string>, records: seq<string>)
    ensures AreStripped(lines, records) <==> records == RStripAll(lines)
  {
    hide IsStripped;
    forall i | 0 <= i < |lines| && i < |records|
      ensures IsStripped(lines[i], records[i]) <==> records[i] == RStrip(lines[i])
    {
      StrippedIff(lines[i], records[i]);
    }
  }

  /**
   * Where a stream of which `read` has come in stands: every line of it that is complete was emitted,
   * without trailing spaces, and what is left back is the partial.
   */
  ghost predicate Drained(read: string, emitted: seq<string>, partial: string) {
    exists lines :: IsSplit(read, lines, partial) && AreStripped(lines, emitted)
  }

  /** A whole stream has been emitted: all its lines, without trailing spaces. */
  ghost predicate IsDrained(read: string, emitted: seq<string>) {
    exists lines, ends :: IsLineSplit(read, lines, ends) && AreStripped(lines, emitted)
  }

  lemma IsDrainedIff(read: string, emitted: seq<string>)
    ensures IsDrained(read, emitted) <==> emitted == RStripAll(Lines(read))
  {
    LinesSplit(read);
    AllStrippedIff(Lines(read), RStripAll(Lines(read)));
    hide IsLineSplit, AreStripped;
    if lines, ends :| IsLineSplit(read, lines, ends) && AreStripped(lines, emitted) {
      SplitUnique(read, lines, ends);
      AllStrippedIff(lines, emitted);
    }
  }

  lemma DrainedIs(read: string, emitted: seq<string>, partial: string)
    ensures Drained(read, emitted, partial)
      <==> emitted == RStripAll(Split(read).lines) && partial == Split(read).partial
  {
    hide IsSplit, AreStripped;
    SplitOnly(read, Split(read).lines, Split(read).partial);
    AllStrippedIff(Split(read).lines, RStripAll(Split(read).lines));
    if lines :| IsSplit(read, lines, partial) && AreStripped(lines, emitted) {
      SplitOnly(read, lines, partial);
      AllStrippedIff(lines, emitted);
    }
  }

  /** Splitting goes on where it stopped. */
  lemma {:induction false} SplitGoesOn(read: string, data: string)
    ensures var r := Split(read);
      Split(read + data) == Pieces(r.lines + Split(r.partial + data).lines, Split(r.partial + data).partial)
    decreases |read|
  {
    hide Split, FirstBreak;
    var i := FirstBreak(read);
    if HeldBack(read, i) {
      SplitNothing(read);
      var r := Split(read + data);
      assert [] + r.lines == r.lines;
    } else {
      FirstBreakFound(read);
      SplitNext(read, i);
      MoreBehind(read, data, i);
      FirstBreakIs(read + data, i);
      SplitNext(read + data, i);
      SplitGoesOn(read[i + BreakLength(read, i)..], data);
    }
  }

  lemma DrainedOn(read: string, emitted: seq<string>, partial: string, data: string)
    requires Drained(read, emitted, partial)
    ensures var r := Split(partial + data);
      && Drained(read + data, emitted + RStripAll(r.lines), r.partial)
      && emitted + RStripAll(r.lines) + RStripAll(Lines(r.partial)) == RStripAll(Lines(read + data))
  {
    hide Drained, Split, Lines, RStripAll;
    var r := Split(partial + data);
    DrainedIs(read, emitted, partial);
    SplitGoesOn(read, data);
    RStripAllJoin(Split(read).lines, r.lines);
    DrainedIs(read + data, emitted + RStripAll(r.lines), r.partial);
    ChunkStep(read + data, "");
    assert read + data + "" == read + data && r.partial + "" == r.partial;
  }

  /**
   * From wherever a stream stands one poll takes it to where it stands with more read, or, flushing, to
   * its end.
   */
  ghost predicate PollsOn(emitted: seq<string>, partial: string, data: string, flush: bool, emitted': seq<string>,
      partial': string) {
    forall read :: Drained(read, emitted, partial) ==>
      if flush then partial' == "" && IsDrained(read + data, emitted') else Drained(read + data, emitted', partial')
  }

  lemma AfterPoll(emitted: seq<string>, partial: string, data: string, flush: bool, emitted': seq<string>,
      partial': string)
    requires var r := Split(partial + data);
      if flush then partial' == "" && emitted' == emitted + RStripAll(r.lines) + RStripAll(Lines(r.partial))
      else partial' == r.partial && emitted' == emitted + RStripAll(r.lines)
    ensures PollsOn(emitted, partial, data, flush, emitted', partial')
  {
    hide Split, Lines, RStripAll, Drained, IsDrained;
    forall read | Drained(read, emitted, partial)
      ensures if flush then IsDrained(read + data, emitted') else Drained(read + data, emitted', partial')
    {
      DrainedOn(read, emitted, partial, data);
      IsDrainedIff(read + data, emitted');
    }
  }

  /** What is emitted for what is held back when the stream ends. */
  lemma FlushedPartial(buffer: string)
    ensures var p := Split(buffer).partial;
      RStripAll(Lines(p)) == if p == "" then [] else [RStrip(p)]
    decreases |buffer|
  {
    var i := FirstBreak(buffer);
    if i == |buffer| {
    } else if buffer[i] == '\r' && i + 1 == |buffer| {
      assert buffer[i + 1..] == "";
      assert Lines(buffer) == [buffer[..i]];
      assert buffer[..|buffer| - 1] == buffer[..i];
    } else {
      FlushedPartial(buffer[i + BreakLength(buffer, i)..]);
    }
  }

  lemma StripNext(before: seq<string>, lines: seq<string>, i: nat)
    requires i < |lines|
    ensures before + RStripAll(lines[..i]) + [RStrip(lines[i])] == before + RStripAll(lines[..i + 1])
  {
    hide RStrip;
    assert RStripAll(lines[..i + 1]) == RStripAll(lines[..i]) + [RStrip(lines[i])];
  }

  /** The carried partial of one stream and the records emitted for it so far. */
  class Drain {
    var partial: string
    var emitted: seq<string>

    constructor ()
      ensures partial == "" && emitted == [] && Drained("", emitted, partial)
    {
      partial, emitted := "", [];
      DrainedIs("", [], "");
    }

    /** One poll: what was read is split behind the partial; at the end the rest is flushed. */
    method Poll(data: string, flush: bool)
      modifies this
      ensures var r := Split(old(partial) + data);
        if flush then partial == "" && emitted == old(emitted) + RStripAll(r.lines) + RStripAll(Lines(r.partial))
        else partial == r.partial && emitted == old(emitted) + RStripAll(r.lines)
      ensures PollsOn(old(emitted), old(partial), data, flush, emitted, partial)
    {
      hide *;
      var buffer := if data != "" then partial + data else partial;
      assert buffer == partial + data;
      var lines, rest := SplitIoLines(buffer);
      FlushedPartial(buffer);
      for i := 0 to |lines|
        invariant emitted == old(emitted) + RStripAll(lines[..i])
      {
        emitted := emitted + [RStrip(lines[i])];
        StripNext(old(emitted), lines, i);
      }
      assert lines[..|lines|] == lines;
      if flush && rest != "" {
        emitted := emitted + [RStrip(rest)];
        rest := "";
      }
      partial := rest;
      AfterPoll(old(emitted), old(partial), data, flush, emitted, partial);
    }
  }

  function Concat(chunks: seq<string>): string {
    if chunks == [] then "" else chunks[0] + Concat(chunks[1..])
  }

  /** The records emitted over all polls, the last of which flushes. */
  function Emitted(chunks: seq<string>, partial: string): seq<string>
    requires chunks != []
    decreases |chunks|
  {
    var r := Split(partial + chunks[0]);
    RStripAll(r.lines) + if |chunks| == 1 then RStripAll(Lines(r.partial)) else Emitted(chunks[1..], r.partial)
  }

  lemma RStripAllJoin(a: seq<string>, b: seq<string>)
    ensures RStripAll(a + b) == RStripAll(a) + RStripAll(b)
  {
  }

  /** What is left of a buffer, with more behind it, yields the lines not yet emitted. */
  lemma ChunkStep(buffer: string, rest: string)
    ensures RStripAll(Split(buffer).lines) + RStripAll(Lines(Split(buffer).partial + rest))
      == RStripAll(Lines(buffer + rest))
  {
    SplitThenMore(buffer, rest);
    RStripAllJoin(Split(buffer).lines, Lines(Split(buffer).partial + rest));
  }

  /**
   * However a stream is cut into reads, the records emitted are the right-stripped lines of the
   * whole stream.
   */
  lemma {:induction false} ChunkingDoesNotMatter(chunks: seq<string>, partial: string)
    requires chunks != []
    ensures Emitted(chunks, partial) == RStripAll(Lines(partial + Concat(chunks)))
    decreases |chunks|
  {
    hide Lines, Split, RStripAll;
    var buffer, rest := partial + chunks[0], Concat(chunks[1..]);
    ChunkStep(buffer, rest);
    assert buffer + rest == partial + Concat(chunks);
    if |chunks| == 1 {
      assert rest == "";
      assert Split(buffer).partial + rest == Split(buffer).partial;
    } else {
      ChunkingDoesNotMatter(chunks[1..], Split(buffer).partial);
    }
  }

  /** What was emitted and what the polls from the `i`-th on will emit is what all polls emit. */
  ghost predicate OnCourse(chunks: seq<string>, i: nat, partial: string, emitted: seq<string>)
    requires i < |chunks|
  {
    emitted + Emitted(chunks[i..], partial) == Emitted(chunks, "")
  }

  lemma OnCourseFirst(chunks: seq<string>)
    requires chunks != []
    ensures OnCourse(chunks, 0, "", [])
  {
    assert chunks[0..] == chunks;
  }

  lemma EmittedNext(chunks: seq<string>, i: nat, partial: string)
    requires i + 1 < |chunks|
    ensures var r := Split(partial + chunks[i]);
      Emitted(chunks[i..], partial) == RStripAll(r.lines) + Emitted(chunks[i + 1..], r.partial)
  {
    var rest := chunks[i..];
    assert rest[0] == chunks[i] && rest[1..] == chunks[i + 1..] && |rest| > 1;
  }

  lemma OnCourseNext(chunks: seq<string>, i: nat, partial: string, emitted: seq<string>)
    requires i + 1 < |chunks| && OnCourse(chunks, i, partial, emitted)
    ensures var r := Split(partial + chunks[i]);
      OnCourse(chunks, i + 1, r.partial, emitted + RStripAll(r.lines))
  {
    EmittedNext(chunks, i, partial);
    Joined(emitted, RStripAll(Split(partial + chunks[i]).lines),
      Emitted(chunks[i + 1..], Split(partial + chunks[i]).partial));
  }

  lemma Joined(a: seq<string>, b: seq<string>, c: seq<string>)
    ensures a + (b + c) == a + b + c
  {
  }

  lemma OnCourseLast(chunks: seq<string>, i: nat, partial: string, emitted: seq<string>)
    requires i + 1 == |chunks| && OnCourse(chunks, i, partial, emitted)
    ensures var r := Split(partial + chunks[i]);
      emitted + RStripAll(r.lines) + RStripAll(Lines(r.partial)) == RStripAll(Lines(Concat(chunks)))
  {
    hide Lines, Split, RStripAll;
    ChunkingDoesNotMatter(chunks, "");
    assert "" + Concat(chunks) == Concat(chunks);
  }

  /** Polling a stream chunk by chunk, flushing with the last chunk. */
  method PollAll(chunks: seq<string>) returns (records: seq<string>)
    requires chunks != []
    ensures records == RStripAll(Lines(Concat(chunks))) && IsDrained(Concat(chunks), records)
  {
    hide *;
    var d := new Drain();
    OnCourseFirst(chunks);
    for i := 0 to |chunks| - 1
      invariant OnCourse(chunks, i, d.partial, d.emitted)
    {
      OnCourseNext(chunks, i, d.partial, d.emitted);
      d.Poll(chunks[i], false);
    }
    OnCourseLast(chunks, |chunks| - 1, d.partial, d.emitted);
    d.Poll(chunks[|chunks| - 1], true);
    records := d.emitted;
    IsDrainedIff(Concat(chunks), records);
  }
}
