/** Reply groups of the Tor control protocol on a stream of bytes. */
module TorControl {
  import opened Common
  import opened Utf8

  // ---- status codes ----

  function Number(runes: seq<int>): int {
    if runes == [] then 0 else Number(runes[..|runes| - 1]) * 10 + (runes[|runes| - 1] - '0' as int)
  }

  method Atoi3(s: Bytes) returns (n: int)
    ensures n == Number(Runes(s))
  {
    n := 0;
    var runes := Runes(s);
    for i := 0 to |runes|
      invariant n == Number(runes[..i])
    {
      assert runes[..i + 1][..i] == runes[..i];
      n := n * 10 + (runes[i] - '0' as int);
    }
    assert runes[..|runes|] == runes;
  }

  /** A status code as three digits. */
  function Code3(code: nat): (r: Bytes)
    requires code < 1000
    ensures |r| == 3
  {
    [Digit(code / 100), Digit(code / 10 % 10), Digit(code % 10)]
  }

  function Digit(d: nat): (c: Byte)
    requires d < 10
    ensures '0' <= c <= '9'
  {
    '0' + d as char
  }

  lemma NumberOfCode3(code: nat)
    requires code < 1000
    ensures Number(Runes(Code3(code))) == code
  {
    var c := Code3(code);
    PlainRunes(c[0], c[1], c[2]);
    assert c == [c[0], c[1], c[2]];
    ThreeRunes(c[0] as int, c[1] as int, c[2] as int);
    ThreeDigits(code);
  }

  lemma ThreeDigits(code: nat)
    requires code < 1000
    ensures code / 100 * 100 + code / 10 % 10 * 10 + code % 10 == code
  {
  }

  lemma PlainRunes(a: Byte, b: Byte, c: Byte)
    requires a as int < 0x80 && b as int < 0x80 && c as int < 0x80
    ensures Runes([a, b, c]) == [a as int, b as int, c as int]
  {
    var s: Bytes := [a, b, c];
    assert s[1..] == [b, c] && [b, c][1..] == [c] && [c][1..] == [];
    assert Runes([c]) == [c as int];
    assert Runes([b, c]) == [b as int] + Runes([c]);
    assert Runes(s) == [a as int] + Runes([b, c]);
  }

  lemma ThreeRunes(a: int, b: int, d: int)
    ensures Number([a, b, d]) == (a - 48) * 100 + (b - 48) * 10 + (d - 48)
  {
    assert [a, b, d][..2] == [a, b] && [a, b][..1] == [a] && [a][..0] == [];
    assert Number([a]) == a - 48;
    assert Number([a, b]) == (a - 48) * 10 + (b - 48);
  }

  // ---- lines ----

  datatype Line = Line(text: Bytes, rest: Bytes)

  /** ReadString('\n'): the line with its line feed, and what follows; None at the end of the stream. */
  function NextLine(s: Bytes): (r: Option<Line>)
    ensures r.Some? ==> r.value.text != [] && s == r.value.text + r.value.rest
  {
    if s == [] then None
    else if s[0] == '\n' then Some(Line([s[0]], s[1..]))
    else
      var r := NextLine(s[1..]);
      if r.None? then None
      else
        assert s == [s[0]] + r.value.text + r.value.rest;
        Some(Line([s[0]] + r.value.text, r.value.rest))
  }

  predicate IsBreak(c: Byte) {
    c == '\r' || c == '\n'
  }

  /** strings.TrimRight(line, "\r\n"). */
  function Chomp(s: Bytes): Bytes {
    if s != [] && IsBreak(s[|s| - 1]) then Chomp(s[..|s| - 1]) else s
  }

  // ---- one reply ----

  datatype Reply = EndOfStream | ShortLine | Group(lines: seq<Bytes>, code: int)

  /** No error: the whole group was read and its final code is 2xx. */
  predicate Succeeded(r: Reply) {
    r.Group? && 200 <= r.code < 300
  }

  /** Go's division truncates towards zero. */
  function Quotient(a: int, b: int): int
    requires b > 0
  {
    if a >= 0 then a / b else -(-a / b)
  }

  datatype Read = Read(reply: Reply, rest: Bytes)

  /** One reply from the stream, after the lines already read. */
  function Parse(s: Bytes, lines: seq<Bytes>): Read
    decreases |s|
  {
    var next := NextLine(s);
    if next.None? then Read(EndOfStream, [])
    else
      var line, rest := Chomp(next.value.text), next.value.rest;
      if |line| < 4 then Read(ShortLine, rest)
      else if line[3] == ' ' then Read(Group(lines + [line[4..]], Number(Runes(line[..3]))), rest)
      else Parse(rest, lines + [line[4..]])
  }

  class Control {
    var stream: Bytes   // what the peer has sent and nobody has read yet

    constructor (stream: Bytes)
      ensures this.stream == stream
    {
      this.stream := stream;
    }

    /** bufio's ReadString; at the end of the stream it swallows what is left. */
    method ReadString() returns (line: Option<Bytes>)
      modifies this
      ensures line.None? <==> NextLine(old(stream)).None?
      ensures line.None? ==> stream == []
      ensures line.Some? ==> Line(line.value, stream) == NextLine(old(stream)).value
    {
      var next := NextLine(stream);
      if next.None? {
        stream, line := [], None;
      } else {
        stream, line := next.value.rest, Some(next.value.text);
      }
    }

    method ReadReply() returns (r: Reply, ok: bool)
      modifies this
      ensures Read(r, stream) == Parse(old(stream), [])
      ensures ok <==> Succeeded(r)
    {
      var lines := [];
      while true
        invariant Parse(stream, lines) == Parse(old(stream), [])
        decreases |stream|
      {
        var read := ReadString();
        if read.None? {
          return EndOfStream, false;
        }
        var line := Chomp(read.value);
        if |line| < 4 {
          return ShortLine, false;
        }
        var code := Atoi3(line[..3]);
        var sep := line[3];
        var body := line[4..];
        lines := lines + [body];
        if sep == ' ' {
          return Group(lines, code), Quotient(code, 100) == 2;
        }
      }
    }
  }

  // ---- printing, and reading back ----

  datatype ReplyLine = ReplyLine(code: nat, body: Bytes)

  /** The lines of a group, the last one final. */
  datatype Printed = Printed(front: seq<ReplyLine>, last: ReplyLine)

  predicate CleanLine(l: ReplyLine) {
    l.code < 1000 && forall i :: 0 <= i < |l.body| ==> !IsBreak(l.body[i])
  }

  predicate Clean(g: Printed) {
    CleanLine(g.last) && forall i :: 0 <= i < |g.front| ==> CleanLine(g.front[i])
  }

  function PrintLine(l: ReplyLine, sep: Byte): Bytes
    requires CleanLine(l)
  {
    Code3(l.code) + [sep] + l.body + ['\r', '\n']
  }

  function PrintFront(front: seq<ReplyLine>): Bytes
    requires forall i :: 0 <= i < |front| ==> CleanLine(front[i])
  {
    if front == [] then [] else PrintLine(front[0], '-') + PrintFront(front[1..])
  }

  /** "-" lines, then one " " line. */
  function Print(g: Printed): Bytes
    requires Clean(g)
  {
    PrintFront(g.front) + PrintLine(g.last, ' ')
  }

  function Bodies(front: seq<ReplyLine>): (r: seq<Bytes>)
    ensures |r| == |front| && forall i :: 0 <= i < |front| ==> r[i] == front[i].body
  {
    if front == [] then [] else [front[0].body] + Bodies(front[1..])
  }

  /** The bodies in order and the final code. */
  function Meaning(g: Printed): Reply {
    Group(Bodies(g.front) + [g.last.body], g.last.code)
  }

  lemma NextLineStep(c: Byte, s: Bytes)
    requires c != '\n' && NextLine(s).Some?
    ensures NextLine([c] + s) == Some(Line([c] + NextLine(s).value.text, NextLine(s).value.rest))
  {
    assert ([c] + s)[1..] == s;
  }

  lemma NextLineFeed(rest: Bytes)
    ensures NextLine(['\n'] + rest) == Some(Line(['\n'], rest))
  {
    assert (['\n'] + rest)[1..] == rest;
  }

  lemma Uncons(line: Bytes, rest: Bytes)
    requires line != []
    ensures line == [line[0]] + line[1..] && line + rest == [line[0]] + (line[1..] + rest)
  {
  }

  /** A text whose only line feed is its last character. */
  predicate IsLine(line: Bytes) {
    line != [] && line[|line| - 1] == '\n' && forall i :: 0 <= i < |line| - 1 ==> line[i] != '\n'
  }

  lemma {:induction false} NextLineIs(line: Bytes, rest: Bytes)
    requires IsLine(line)
    ensures NextLine(line + rest) == Some(Line(line, rest))
  {
    if |line| == 1 {
      assert line == ['\n'];
      NextLineFeed(rest);
    } else {
      var tail := line[1..];
      assert IsLine(tail);
      NextLineIs(tail, rest);
      NextLineStep(line[0], tail + rest);
      Uncons(line, rest);
    }
  }

  lemma ChompLine(text: Bytes)
    requires text == [] || !IsBreak(text[|text| - 1])
    ensures Chomp(text + ['\r', '\n']) == text
  {
    var s := text + ['\r', '\n'];
    assert s[..|s| - 1] == text + ['\r'];
    assert (text + ['\r'])[..|text|] == text;
    assert Chomp(s) == Chomp(text + ['\r']);
    assert Chomp(text + ['\r']) == Chomp(text);
  }

  lemma PrintedLine(l: ReplyLine, sep: Byte, rest: Bytes)
    requires CleanLine(l) && !IsBreak(sep)
    ensures var text := Code3(l.code) + [sep] + l.body;
      NextLine(PrintLine(l, sep) + rest) == Some(Line(PrintLine(l, sep), rest)) && Chomp(PrintLine(l, sep)) == text
  {
    var text := Code3(l.code) + [sep] + l.body;
    assert forall i :: 0 <= i < |text| ==> !IsBreak(text[i]);
    NextLineIs(PrintLine(l, sep), rest);
    ChompLine(text);
  }

  lemma LineParts(code: Bytes, sep: Byte, body: Bytes)
    requires |code| == 3
    ensures var t := code + [sep] + body; |t| >= 4 && t[..3] == code && t[3] == sep && t[4..] == body
  {
  }

  /** One printed line: the end of the group, or one more body. */
  lemma ParseLine(l: ReplyLine, sep: Byte, rest: Bytes, lines: seq<Bytes>)
    requires CleanLine(l) && !IsBreak(sep)
    ensures Parse(PrintLine(l, sep) + rest, lines) ==
      if sep == ' ' then Read(Group(lines + [l.body], l.code), rest) else Parse(rest, lines + [l.body])
  {
    PrintedLine(l, sep, rest);
    LineParts(Code3(l.code), sep, l.body);
    NumberOfCode3(l.code);
  }

  lemma {:induction false} ParseFront(front: seq<ReplyLine>, rest: Bytes, lines: seq<Bytes>)
    requires forall i :: 0 <= i < |front| ==> CleanLine(front[i])
    ensures Parse(PrintFront(front) + rest, lines) == Parse(rest, lines + Bodies(front))
  {
    if front == [] {
      assert PrintFront(front) + rest == rest && lines + Bodies(front) == lines;
    } else {
      var l, more := front[0], PrintFront(front[1..]) + rest;
      assert PrintFront(front) + rest == PrintLine(l, '-') + more;
      ParseLine(l, '-', more, lines);
      ParseFront(front[1..], rest, lines + [l.body]);
      assert lines + [l.body] + Bodies(front[1..]) == lines + Bodies(front);
    }
  }

  /** Parsing a printed group gives its meaning and stops right behind it. */
  lemma ParsePrinted(g: Printed, rest: Bytes)
    requires Clean(g)
    ensures Parse(Print(g) + rest, []) == Read(Meaning(g), rest)
  {
    assert Print(g) + rest == PrintFront(g.front) + (PrintLine(g.last, ' ') + rest);
    ParseFront(g.front, PrintLine(g.last, ' ') + rest, []);
    assert [] + Bodies(g.front) == Bodies(g.front);
    ParseLine(g.last, ' ', rest, Bodies(g.front));
  }

  function PrintAll(groups: seq<Printed>): Bytes
    requires forall i :: 0 <= i < |groups| ==> Clean(groups[i])
  {
    if groups == [] then [] else Print(groups[0]) + PrintAll(groups[1..])
  }

  lemma NextGroup(groups: seq<Printed>, i: nat, tail: Bytes)
    requires i < |groups| && forall k :: 0 <= k < |groups| ==> Clean(groups[k])
    ensures Parse(PrintAll(groups[i..]) + tail, []) == Read(Meaning(groups[i]), PrintAll(groups[i + 1..]) + tail)
  {
    var g, after := groups[i], PrintAll(groups[i + 1..]) + tail;
    assert groups[i..][1..] == groups[i + 1..];
    assert PrintAll(groups[i..]) + tail == Print(g) + after;
    ParsePrinted(g, after);
  }

  method ReadNext(t: Control, ghost groups: seq<Printed>, ghost i: nat, ghost tail: Bytes) returns (r: Reply, ok: bool)
    requires i < |groups| && forall k :: 0 <= k < |groups| ==> Clean(groups[k])
    requires t.stream == PrintAll(groups[i..]) + tail
    modifies t
    ensures r == Meaning(groups[i]) && t.stream == PrintAll(groups[i + 1..]) + tail
    ensures ok <==> 200 <= groups[i].last.code < 300
  {
    NextGroup(groups, i, tail);
    r, ok := t.ReadReply();
  }

  /** The first `n` groups were read as what they mean, each without an error exactly when its code is 2xx. */
  ghost predicate AreRead(groups: seq<Printed>, n: nat, replies: seq<Reply>, oks: seq<bool>) {
    && |replies| == |oks| == n <= |groups|
    && (forall i :: 0 <= i < n ==> replies[i] == Meaning(groups[i]))
    && (forall i :: 0 <= i < n ==> (oks[i] <==> 200 <= groups[i].last.code < 300))
  }

  lemma OneMoreRead(groups: seq<Printed>, n: nat, replies: seq<Reply>, oks: seq<bool>, r: Reply, ok: bool)
    requires AreRead(groups, n, replies, oks) && n < |groups|
    requires r == Meaning(groups[n]) && (ok <==> 200 <= groups[n].last.code < 300)
    ensures AreRead(groups, n + 1, replies + [r], oks + [ok])
  {
  }

  /**
    Calls of readReply invert the printer: on a stream of any number of groups
    each call returns the next group's bodies and final code, with an error
    exactly when that code is not 2xx, and together they consume exactly the
    groups.
   */
  method ReadGroups(t: Control, ghost groups: seq<Printed>, ghost tail: Bytes, n: nat)
    returns (replies: seq<Reply>, oks: seq<bool>)
    requires n == |groups| && forall i :: 0 <= i < |groups| ==> Clean(groups[i])
    requires t.stream == PrintAll(groups) + tail
    modifies t
    ensures |replies| == |oks| == n && t.stream == tail
    ensures AreRead(groups, n, replies, oks)
  {
    replies, oks := [], [];
    for i := 0 to n
      invariant t.stream == PrintAll(groups[i..]) + tail
      invariant AreRead(groups, i, replies, oks)
    {
      var r, ok := ReadNext(t, groups, i, tail);
      OneMoreRead(groups, i, replies, oks, r, ok);
      replies, oks := replies + [r], oks + [ok];
    }
    assert groups[n..] == [];
    assert [] + tail == tail;
  }

  /** One line of a group: its last, or one more body. */
  lemma ParseOneLine(s: Bytes, lines: seq<Bytes>)
    requires Parse(s, lines).reply.Group?
    ensures NextLine(s).Some? && |Chomp(NextLine(s).value.text)| >= 4
    ensures var next := NextLine(s).value;
      var more, r := lines + [Chomp(next.text)[4..]], Parse(s, lines);
      if Chomp(next.text)[3] == ' ' then r.reply.lines == more && r.rest == next.rest else r == Parse(next.rest, more)
  {
  }

  predicate IsEnd(s: Bytes, r: Bytes) {
    |r| <= |s| && s[|s| - |r|..] == r
  }

  lemma Suffix(text: Bytes, rest: Bytes, r: Bytes)
    requires IsEnd(rest, r)
    ensures IsEnd(text + rest, r)
  {
  }

  /** What a reply leaves of a stream is its end. */
  lemma {:induction false} LeavesTheEnd(s: Bytes, lines: seq<Bytes>)
    requires Parse(s, lines).reply.Group?
    ensures IsEnd(s, Parse(s, lines).rest)
    decreases |s|
  {
    ParseOneLine(s, lines);
    var next := NextLine(s).value;
    var more := lines + [Chomp(next.text)[4..]];
    if Chomp(next.text)[3] == ' ' {
      assert IsEnd(next.rest, next.rest);
      Suffix(next.text, next.rest, next.rest);
    } else {
      LeavesTheEnd(next.rest, more);
      Suffix(next.text, next.rest, Parse(next.rest, more).rest);
    }
  }

  lemma {:induction false} CountsLines(s: Bytes, lines: seq<Bytes>)
    requires Parse(s, lines).reply.Group?
    ensures var r := Parse(s, lines); |lines| + LineFeeds(s) == |r.reply.lines| + LineFeeds(r.rest)
    decreases |s|
  {
    ParseOneLine(s, lines);
    var next := NextLine(s).value;
    LineFeedsOfNext(s);
    if Chomp(next.text)[3] != ' ' {
      CountsLines(next.rest, lines + [Chomp(next.text)[4..]]);
    }
  }

  /** On any stream whatsoever a group takes exactly as many lines as it returns. */
  lemma OneLineEach(s: Bytes, lines: seq<Bytes>)
    requires Parse(s, lines).reply.Group?
    ensures var r := Parse(s, lines);
      && IsEnd(s, r.rest)
      && |lines| + LineFeeds(s) == |r.reply.lines| + LineFeeds(r.rest)
  {
    LeavesTheEnd(s, lines);
    CountsLines(s, lines);
  }

  function LineFeeds(s: Bytes): nat {
    if s == [] then 0 else (if s[0] == '\n' then 1 else 0) + LineFeeds(s[1..])
  }

  lemma {:induction false} LineFeedsOfNext(s: Bytes)
    requires NextLine(s).Some?
    ensures LineFeeds(s) == 1 + LineFeeds(NextLine(s).value.rest)
  {
    if s[0] != '\n' {
      LineFeedsOfNext(s[1..]);
    }
  }
}
