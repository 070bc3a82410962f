/**
 * What the `'data'` handler prints for a frame: the console header
 * `<timestamp> <name> len <N> from <first> to <last>` and the log-file line
 * `<timestamp> <name> <hex>\n`.  The timestamp is text the model never looks into
 * (it comes from a date formatter whose format has no spaces).  Each renderer
 * has a parser as its partner, and the round trips are proved.
 */
module Render {
  import opened Wrappers
  import opened Bytes
  import Hex
  import Decimal
  import opened Assembler

  /** Index of the last occurrence of `c` in `s`. */
  function LastIndexOf(s: string, c: char): (r: Option<nat>)
    ensures r.Some? ==> r.value < |s| && s[r.value] == c && c !in s[r.value + 1..]
    ensures r.None? ==> c !in s
  {
    if s == [] then None
    else if s[|s| - 1] == c then Some(|s| - 1)
    else
      var r := LastIndexOf(s[..|s| - 1], c);
      assert s == s[..|s| - 1] + [s[|s| - 1]];
      r
  }

  /** Index of the first occurrence of `c` in `s`. */
  function FirstIndexOf(s: string, c: char): (r: Option<nat>)
    ensures r.Some? ==> r.value < |s| && s[r.value] == c && c !in s[..r.value]
    ensures r.None? ==> c !in s
  {
    if s == [] then None
    else if s[0] == c then Some(0)
    else
      var r := FirstIndexOf(s[1..], c);
      assert s == [s[0]] + s[1..];
      if r.None? then None else Some(r.value + 1)
  }

  /** Splits `s` at its last space. */
  function SplitLast(s: string): Option<(string, string)>
  {
    var i :- LastIndexOf(s, ' ');
    Some((s[..i], s[i + 1..]))
  }

  lemma SplitLastJoin(x: string, y: string)
    requires ' ' !in y
    ensures SplitLast(x + " " + y) == Some((x, y))
  {
    var s := x + " " + y;
    assert s[|x|] == ' ' && s[|x| + 1..] == y && s[..|x|] == x;
    var r := LastIndexOf(s, ' ');
    assert r.Some?;
    assert r == Some(|x|);
  }

  lemma FirstIndexOfJoin(x: string, y: string)
    requires ' ' !in x
    ensures FirstIndexOf(x + " " + y, ' ') == Some(|x|)
  {
    var s := x + " " + y;
    assert s[|x|] == ' ' && s[..|x|] == x;
    var r := FirstIndexOf(s, ' ');
    assert r.Some?;
    assert r == Some(|x|);
  }

  /** The first and last stream offsets a header reports for a frame (`last` is `first - 1` when empty). */
  datatype Span = Span(length: nat, first: int, last: int)

  function SpanOf(f: Frame): (r: Span)
    ensures r.first == f.offset && r.length == |f.data|
    ensures r.last - r.first + 1 == r.length
  {
    Span(|f.data|, f.offset, f.offset + |f.data| - 1)
  }

  /** The console header line printed for a frame; `HeaderRoundTrip` reads its fields back. */
  function Header(timestamp: string, name: string, f: Frame): (r: string)
    ensures |r| > |timestamp + " " + name| + 4
    ensures r[..|timestamp + " " + name| + 5] == timestamp + " " + name + " len "
  {
    var span := SpanOf(f);
    timestamp + " " + name
      + " len " + Decimal.IntToString(span.length)
      + " from " + Decimal.IntToString(span.first)
      + " to " + Decimal.IntToString(span.last)
  }

  datatype HeaderInfo = HeaderInfo(prefix: string, span: Span)

  /** Splits `s` of the form `<rest> <key> <value>`, where neither `key` nor `value` holds a space. */
  function SplitField(s: string, key: string): Option<(string, string)>
  {
    var (r, value) :- SplitLast(s);
    var (rest, k) :- SplitLast(r);
    if k == key then Some((rest, value)) else None
  }

  lemma SplitFieldJoin(rest: string, key: string, value: string)
    requires ' ' !in key && ' ' !in value
    ensures SplitField(rest + " " + key + " " + value, key) == Some((rest, value))
  {
    SplitLastJoin(rest + " " + key, value);
    SplitLastJoin(rest, key);
  }

  /** Reads a header back from its end: the three numbers and everything before ` len `. */
  function ParseHeader(h: string): Option<HeaderInfo>
  {
    var (r1, last) :- SplitField(h, "to");
    var (r2, first) :- SplitField(r1, "from");
    var (prefix, length) :- SplitField(r2, "len");
    var n :- Decimal.ParseInt(length);
    var a :- Decimal.ParseInt(first);
    var b :- Decimal.ParseInt(last);
    if n < 0 then None else Some(HeaderInfo(prefix, Span(n, a, b)))
  }

  /** The header gives back the timestamp and name, the length, and the first and last offsets of the frame. */
  lemma HeaderRoundTrip(timestamp: string, name: string, f: Frame)
    ensures ParseHeader(Header(timestamp, name, f))
      == Some(HeaderInfo(timestamp + " " + name, Span(|f.data|, f.offset, f.offset + |f.data| - 1)))
  {
    var span := SpanOf(f);
    var p := timestamp + " " + name;
    var a := Decimal.IntToString(span.length);
    var b := Decimal.IntToString(span.first);
    var c := Decimal.IntToString(span.last);
    var r2 := p + " " + "len" + " " + a;
    var r1 := r2 + " " + "from" + " " + b;
    assert p + " len " + a == r2;
    assert r2 + " from " + b == r1;
    assert r1 + " to " + c == r1 + " " + "to" + " " + c;
    SplitFieldJoin(r1, "to", c);
    SplitFieldJoin(r2, "from", b);
    SplitFieldJoin(p, "len", a);
    Decimal.IntToStringRoundTrip(span.length);
    Decimal.IntToStringRoundTrip(span.first);
    Decimal.IntToStringRoundTrip(span.last);
  }

  /** One line of the log file: timestamp, name, the payload in lower-case hex, newline. */
  function LogLine(timestamp: string, name: string, data: seq<byte>): (r: string)
    ensures |r| == |timestamp| + |name| + 2 * |data| + 3
    ensures r[|r| - 1] == '\n'
  {
    timestamp + " " + name + " " + Hex.Encode(data) + "\n"
  }

  datatype LogRecord = LogRecord(timestamp: string, name: string, data: seq<byte>)

  /** Reads a log line back: the timestamp up to the first space, the hex payload after the last one. */
  function ParseLogLine(line: string): Option<LogRecord>
  {
    if line == [] || line[|line| - 1] != '\n' then None
    else
      var (head, hex) :- SplitLast(line[..|line| - 1]);
      var i :- FirstIndexOf(head, ' ');
      var data :- Hex.Decode(hex);
      Some(LogRecord(head[..i], head[i + 1..], data))
  }

  /** A log line gives back its timestamp, its name (spaces and all) and exactly the payload bytes. */
  lemma LogLineRoundTrip(timestamp: string, name: string, data: seq<byte>)
    requires ' ' !in timestamp
    ensures ParseLogLine(LogLine(timestamp, name, data)) == Some(LogRecord(timestamp, name, data))
  {
    var hex := Hex.Encode(data);
    var head := timestamp + " " + name;
    var line := LogLine(timestamp, name, data);
    assert line[..|line| - 1] == head + " " + hex;
    assert forall k :: 0 <= k < |hex| ==> hex[k] != ' ' by {
      assert Hex.IsLowerHex(hex);
    }
    SplitLastJoin(head, hex);
    FirstIndexOfJoin(timestamp, name);
    assert head[..|timestamp|] == timestamp && head[|timestamp| + 1..] == name;
    Hex.DecodeEncode(data);
  }

  /**
   * The headers of the frames a listener emits report adjoining ranges: each
   * frame's first offset is one past the previous frame's last offset.
   */
  lemma HeadersAdjoin(frames: seq<Frame>)
    requires Contiguous(frames, 0)
    ensures frames != [] ==> SpanOf(frames[0]).first == 0
    ensures forall j :: 0 < j < |frames| ==> SpanOf(frames[j]).first == SpanOf(frames[j - 1]).last + 1
  {
  }
}
