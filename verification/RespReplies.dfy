/** The writer of commands and replies (src/protocol/resp_writer.cpp). */
module RespWriter {
  import opened Options
  import opened Ints
  import opened Spans
  import opened RespLines
  import opened RespParser
  import opened Buffers

  datatype Reply =
    | Simple(text: string)
    | Failure(text: string)
    | Integer(n: int)
    | Bulk(text: string)
    | NullBulk
    | Array(elements: seq<Reply>)
    | NullArray

  function Blank(c: char): char
  {
    if c == '\r' || c == '\n' then ' ' else c
  }

  function Sanitised(s: string): (r: string)
    ensures |r| == |s| && forall i :: 0 <= i < |s| ==> r[i] == Blank(s[i])
  {
    seq(|s|, i requires 0 <= i < |s| => Blank(s[i]))
  }

  function LineText(marker: char, line: string): string { [marker] + (line + CRLF) }

  function BulkText(s: string): string { LineText('$', Digits(|s|)) + (s + CRLF) }

  function ReplyText(r: Reply): string
    decreases r
  {
    match r
    case Simple(s) => LineText('+', s)
    case Failure(s) => LineText('-', Sanitised(s))
    case Integer(n) => LineText(':', IntText(n))
    case Bulk(s) => BulkText(s)
    case NullBulk => LineText('$', "-1")
    case Array(es) => LineText('*', Digits(|es|)) + RepliesText(es)
    case NullArray => LineText('*', "-1")
  }

  function RepliesText(es: seq<Reply>): string
    decreases es
  {
    if es == [] then "" else ReplyText(es[0]) + RepliesText(es[1..])
  }

  function BulksText(args: seq<string>): string
  {
    if args == [] then "" else BulkText(args[0]) + BulksText(args[1..])
  }

  function CommandText(args: seq<string>): string { LineText('*', Digits(|args|)) + BulksText(args) }

  // The writer appends to a buffer piece by piece.

  method WriteLine(out: Buffer, marker: char, line: string)
    requires out.Valid()
    modifies out
    ensures out.Valid() && out.Contents() == old(out.Contents()) + LineText(marker, line)
  {
    out.Append([marker]);
    out.Append(line);
    out.Append(CRLF);
  }

  method WriteBulk(out: Buffer, s: string)
    requires out.Valid()
    modifies out
    ensures out.Valid() && out.Contents() == old(out.Contents()) + BulkText(s)
  {
    hide Digits, LineText;
    WriteLine(out, '$', Digits(|s|));
    out.Append(s);
    out.Append(CRLF);
  }

  /** The copy that an error message is cleaned in. */
  method SanitizeErrorText(s: string) returns (r: string)
    ensures r == Sanitised(s)
    ensures forall i :: 0 <= i < |r| ==> r[i] != '\r' && r[i] != '\n'
  {
    var a := new char[|s|](i requires 0 <= i < |s| => s[i]);
    for i := 0 to |s|
      invariant forall j :: 0 <= j < |s| ==> a[j] == if j < i then Blank(s[j]) else s[j]
    {
      if a[i] == '\r' || a[i] == '\n' {
        a[i] := ' ';
      }
    }
    r := a[..];
  }

  method WriteError(out: Buffer, s: string)
    requires out.Valid()
    modifies out
    ensures out.Valid() && out.Contents() == old(out.Contents()) + ReplyText(Failure(s))
  {
    hide LineText;
    var clean := SanitizeErrorText(s);
    WriteLine(out, '-', clean);
  }

  /** A request: an array header and its bulk strings. */
  method WriteCommand(out: Buffer, args: seq<string>)
    requires out.Valid()
    modifies out
    ensures out.Valid() && out.Contents() == old(out.Contents()) + CommandText(args)
  {
    hide Digits, LineText, BulkText;
    WriteLine(out, '*', Digits(|args|));
    ghost var header := LineText('*', Digits(|args|));
    for i := 0 to |args|
      invariant out.Valid() && out.Contents() + BulksText(args[i..]) == old(out.Contents()) + (header + BulksText(args))
    {
      assert args[i..][1..] == args[i + 1..];
      WriteBulk(out, args[i]);
    }
  }

  /** A reply, its elements depth first. */
  method WriteReply(out: Buffer, r: Reply)
    requires out.Valid()
    modifies out
    ensures out.Valid() && out.Contents() == old(out.Contents()) + ReplyText(r)
    decreases r
  {
    hide Digits, IntText, LineText, BulkText, Sanitised;
    match r
    case Simple(s) => WriteLine(out, '+', s);
    case Failure(s) => WriteError(out, s);
    case Integer(n) => WriteLine(out, ':', IntText(n));
    case Bulk(s) => WriteBulk(out, s);
    case NullBulk => WriteLine(out, '$', "-1");
    case NullArray => WriteLine(out, '*', "-1");
    case Array(es) =>
      WriteLine(out, '*', Digits(|es|));
      ghost var header := LineText('*', Digits(|es|));
      for i := 0 to |es|
        invariant out.Valid() && out.Contents() + RepliesText(es[i..]) == old(out.Contents()) + (header + RepliesText(es))
      {
        assert es[i..][1..] == es[i + 1..];
        WriteReply(out, es[i]);
      }
  }

  // Commands: the parser undoes the writer.

  lemma LineParts(d: string, pos: nat, marker: char, line: string)
    requires HasAt(d, pos, LineText(marker, line))
    ensures pos < |d| && d[pos] == marker && HasAt(d, pos + 1, line + CRLF) && |LineText(marker, line)| == |line| + 3
    ensures d[pos + 1..pos + 1 + |line|] == line
  {
    HasAtConcat(d, pos, [marker], line + CRLF);
    assert d[pos + 0] == [marker][0];
    HasAtConcat(d, pos + 1, line, CRLF);
    SliceIs(d, pos + 1, line);
  }

  lemma DigitsClean(n: nat)
    ensures Clean(Digits(n)) && (n <= INT64_MAX ==> ParseInt(Digits(n)) == Some(n) && |Digits(n)| <= 20)
  {
    IntTextClean(n);
    if n <= INT64_MAX {
      ParseIntText(n);
      IntTextShort(n);
    }
  }

  lemma HeaderParses(d: string, pos: nat, marker: char, n: nat, max: nat)
    requires n <= max < 100_000_000 && HasAt(d, pos, LineText(marker, Digits(n)))
    ensures ParseHeader(d, pos, max) == Ok(n, pos + |LineText(marker, Digits(n))|)
  {
    hide Digits, LineText, Clean, HasAt, ParseInt;
    LineParts(d, pos, marker, Digits(n));
    DigitsClean(n);
    DigitsShort(n);
    FindLine(d, pos + 1, Digits(n), pos + 1 + MAX_LINE);
  }

  lemma BulkParses(d: string, pos: nat, s: string)
    requires |s| <= MAX_BULK && HasAt(d, pos, BulkText(s))
    ensures pos <= |d| && ParseBulk(d, pos) == Ok(s, pos + |BulkText(s)|)
  {
    hide Digits, LineText, ParseHeader;
    var header := LineText('$', Digits(|s|));
    var start := pos + |header|;
    HasAtConcat(d, pos, header, s + CRLF);
    LineParts(d, pos, '$', Digits(|s|));
    HeaderParses(d, pos, '$', |s|, MAX_BULK);
    HasAtConcat(d, start, s, CRLF);
    SliceIs(d, start, s);
    assert d[start + |s| + 0] == CRLF[0] && d[start + |s| + 1] == CRLF[1];
  }

  ghost predicate WithinLimits(args: seq<string>)
  {
    |args| <= MAX_ARRAY && BulksWithin(args)
  }

  ghost predicate BulksWithin(args: seq<string>)
  {
    forall i :: 0 <= i < |args| ==> |args[i]| <= MAX_BULK
  }

  lemma {:induction false} ArgsParse(d: string, pos: nat, args: seq<string>)
    requires BulksWithin(args) && HasAt(d, pos, BulksText(args))
    ensures pos <= |d| && ParseArgs(d, pos, |args|) == Ok(args, pos + |BulksText(args)|)
    decreases |args|
  {
    hide BulkText, ParseBulk;
    if args != [] {
      assert args == [args[0]] + args[1..];
      HasAtConcat(d, pos, BulkText(args[0]), BulksText(args[1..]));
      BulkParses(d, pos, args[0]);
      ArgsParse(d, pos + |BulkText(args[0])|, args[1..]);
    }
  }

  lemma {:induction false} ArgsWithin(d: string, pos: nat, n: nat)
    requires pos <= |d| && ParseArgs(d, pos, n).Ok?
    ensures BulksWithin(ParseArgs(d, pos, n).value)
    decreases n
  {
    hide ParseBulk;
    if n > 0 {
      ArgsWithin(d, ParseBulk(d, pos).next, n - 1);
    }
  }

  /** A written command parses back to itself, consuming exactly its own bytes whatever follows them, if and only if it
      is within the parser's limits. */
  lemma CommandRoundTrip(args: seq<string>, rest: string)
    ensures ParseCommand(CommandText(args) + rest) == Ok(args, |CommandText(args)|) <==> WithinLimits(args)
  {
    hide Digits, LineText, ParseHeader, BulksText, ParseArgs, BulksWithin;
    var header := LineText('*', Digits(|args|));
    var d := CommandText(args) + rest;
    assert HasAt(d, 0, header + BulksText(args));
    HasAtConcat(d, 0, header, BulksText(args));
    LineParts(d, 0, '*', Digits(|args|));
    if WithinLimits(args) {
      HeaderParses(d, 0, '*', |args|, MAX_ARRAY);
      ArgsParse(d, |header|, args);
    }
    if ParseCommand(d) == Ok(args, |CommandText(args)|) {
      var h := ParseHeader(d, 0, MAX_ARRAY);
      ArgsWithin(d, h.next, h.value);
    }
  }

  /** Until its last byte has arrived, a written command is incomplete. */
  lemma CommandPrefix(args: seq<string>, k: nat)
    requires WithinLimits(args) && k < |CommandText(args)|
    ensures ParseCommand(CommandText(args)[..k]) == Incomplete
  {
    hide ParseCommand, CommandText, WithinLimits;
    var d := CommandText(args);
    assert d + "" == d;
    CommandRoundTrip(args, "");
    if !ParseCommand(d[..k]).Incomplete? {
      CommandStable(d[..k], d);
      assert false;
    }
  }
}

/** The load generator's reply scanner (bench/loadgen/reply_parser.cpp). */
module ReplyParser {
  import opened Options
  import opened Ints
  import opened Spans
  import opened RespLines
  import opened RespWriter

  const MAX_LINE: nat := 512

  datatype Scan = More | Bad | Done(next: nat)

  predicate IsMarker(c: char)
  {
    c == '+' || c == '-' || c == ':' || c == '$' || c == '*'
  }

  /** One value at pos. */
  function ParseValue(d: string, pos: nat): (r: Scan)
    requires pos <= |d|
    ensures r.Done? ==> pos < r.next <= |d|
    decreases |d| - pos, 0
  {
    if pos >= |d| then More
    else if !IsMarker(d[pos]) then Bad
    else
      match FindCrlf(d, pos + 1, Min(|d|, pos + 1 + MAX_LINE + 2))
      case None => More
      case Some(end) =>
        if d[pos] == '+' || d[pos] == '-' || d[pos] == ':' then Done(end + 2)
        else
          match ParseInt(d[pos + 1..end])
          case None => Bad
          case Some(n) =>
            if n < -1 then Bad
            else if n == -1 then Done(end + 2)
            else if d[pos] == '$' then ParseBody(d, end + 2, n)
            else ParseElements(d, end + 2, n)
  }

  function ParseBody(d: string, start: nat, n: nat): (r: Scan)
    requires start <= |d|
    ensures r.Done? ==> start < r.next <= |d|
  {
    if |d| < start + n + 2 then More
    else if d[start + n] != '\r' || d[start + n + 1] != '\n' then Bad
    else Done(start + n + 2)
  }

  function ParseElements(d: string, pos: nat, n: nat): (r: Scan)
    requires pos <= |d|
    ensures r.Done? ==> pos <= r.next <= |d|
    decreases |d| - pos, n + 1
  {
    if n == 0 then Done(pos) else
      match ParseValue(d, pos)
      case More => More
      case Bad => Bad
      case Done(next) => ParseElements(d, next, n - 1)
  }

  method ReadValue(d: string, pos: nat) returns (r: Scan)
    requires pos <= |d|
    ensures r == ParseValue(d, pos)
    decreases |d| - pos
  {
    hide ParseInt, FindCrlf;
    if pos >= |d| {
      return More;
    }
    if !IsMarker(d[pos]) {
      return Bad;
    }
    var end := FindCrlfFrom(d, pos + 1, Min(|d|, pos + 1 + MAX_LINE + 2));
    if end.None? {
      return More;
    }
    if d[pos] == '+' || d[pos] == '-' || d[pos] == ':' {
      return Done(end.value + 2);
    }
    var n := ParseInt(d[pos + 1..end.value]);
    if n.None? || n.value < -1 {
      return Bad;
    }
    if n.value == -1 {
      return Done(end.value + 2);
    }
    if d[pos] == '$' {
      return ParseBody(d, end.value + 2, n.value);
    }
    var cursor: nat := end.value + 2;
    for i := 0 to n.value
      invariant pos < cursor <= |d| && ParseValue(d, pos) == ParseElements(d, cursor, n.value - i)
    {
      var element := ReadValue(d, cursor);
      if !element.Done? {
        return element;
      }
      cursor := element.next;
    }
    r := Done(cursor);
  }

  /** A verdict on a prefix is final here too. */
  lemma {:induction false} ValueStable(d: string, e: string, pos: nat)
    requires d <= e && pos <= |d| && !ParseValue(d, pos).More?
    ensures ParseValue(e, pos) == ParseValue(d, pos)
    decreases |d| - pos, 0
  {
    hide ParseInt, FindCrlf;
    if IsMarker(d[pos]) {
      FindStable(d, e, pos + 1, pos + 1 + MAX_LINE + 2);
      var end := FindCrlf(d, pos + 1, Min(|d|, pos + 1 + MAX_LINE + 2)).value;
      assert d[pos + 1..end] == e[pos + 1..end];
      var n := ParseInt(d[pos + 1..end]);
      if d[pos] == '*' && n.Some? && n.value >= 0 {
        ElementsStable(d, e, end + 2, n.value);
      }
    }
  }

  lemma {:induction false} ElementsStable(d: string, e: string, pos: nat, n: nat)
    requires d <= e && pos <= |d| && !ParseElements(d, pos, n).More?
    ensures ParseElements(e, pos, n) == ParseElements(d, pos, n)
    decreases |d| - pos, n + 1
  {
    hide ParseInt, FindCrlf;
    if n > 0 {
      ValueStable(d, e, pos);
      if ParseValue(d, pos).Done? {
        ElementsStable(d, e, ParseValue(d, pos).next, n - 1);
      }
    }
  }

  /** Lines of at most 512 bytes; a simple string must not hold a CRLF, an error is cleaned by the writer. */
  ghost predicate Scannable(r: Reply)
    decreases r
  {
    match r
    case Simple(s) => |s| <= MAX_LINE && Clean(s)
    case Failure(s) => |s| <= MAX_LINE
    case Integer(n) => Int64(n)
    case Bulk(s) => |s| <= INT64_MAX
    case Array(es) => |es| <= INT64_MAX && forall i :: 0 <= i < |es| ==> Scannable(es[i])
    case _ => true
  }

  lemma LineFound(d: string, pos: nat, marker: char, line: string)
    requires HasAt(d, pos, LineText(marker, line)) && Clean(line) && |line| <= MAX_LINE
    ensures pos < |d| && d[pos] == marker && d[pos + 1..pos + 1 + |line|] == line && |LineText(marker, line)| == |line| + 3
    ensures FindCrlf(d, pos + 1, Min(|d|, pos + 1 + MAX_LINE + 2)) == Some(pos + 1 + |line|)
  {
    LineParts(d, pos, marker, line);
    hide LineText, Clean, HasAt, FindCrlf;
    FindLine(d, pos + 1, line, pos + 1 + MAX_LINE + 2);
  }

  lemma SanitisedClean(s: string)
    ensures Clean(Sanitised(s))
  {
  }

  /** Every reply the writer produces within the limits is consumed exactly. */
  lemma {:induction false} ValueParses(d: string, pos: nat, r: Reply)
    requires Scannable(r) && HasAt(d, pos, ReplyText(r))
    ensures pos <= |d| && ParseValue(d, pos) == Done(pos + |ReplyText(r)|)
    decreases r
  {
    hide LineText, Clean, HasAt, FindCrlf, Digits, IntText, ParseInt, ParseElements, ParseBody, Sanitised, RepliesText;
    match r
    case Simple(s) =>
      LineFound(d, pos, '+', s);
    case Failure(s) =>
      SanitisedClean(s);
      LineFound(d, pos, '-', Sanitised(s));
    case Integer(n) =>
      IntTextClean(n);
      IntTextShort(n);
      LineFound(d, pos, ':', IntText(n));
    case Bulk(s) =>
      BulkScanned(d, pos, s);
    case NullBulk =>
      NullLine(d, pos, '$');
    case NullArray =>
      NullLine(d, pos, '*');
    case Array(es) =>
      var header := LineText('*', Digits(|es|));
      HasAtConcat(d, pos, header, RepliesText(es));
      DigitsClean(|es|);
      LineFound(d, pos, '*', Digits(|es|));
      ElementsParse(d, pos + |header|, es);
  }

  lemma NullLine(d: string, pos: nat, marker: char)
    requires HasAt(d, pos, LineText(marker, "-1"))
    ensures LineFoundAt(d, pos, marker, "-1") && ParseInt("-1") == Some(-1)
  {
    ParseIntText(-1);
    assert IntText(-1) == "-1";
    LineFound(d, pos, marker, "-1");
  }

  ghost predicate LineFoundAt(d: string, pos: nat, marker: char, line: string)
  {
    && pos < |d| && d[pos] == marker && pos + 1 + |line| <= |d| && d[pos + 1..pos + 1 + |line|] == line
    && |LineText(marker, line)| == |line| + 3
    && FindCrlf(d, pos + 1, Min(|d|, pos + 1 + MAX_LINE + 2)) == Some(pos + 1 + |line|)
  }

  lemma BulkScanned(d: string, pos: nat, s: string)
    requires |s| <= INT64_MAX && HasAt(d, pos, BulkText(s))
    ensures pos <= |d| && ParseValue(d, pos) == Done(pos + |BulkText(s)|)
  {
    hide LineText, Clean, FindCrlf, Digits, ParseInt, ParseElements;
    var header := LineText('$', Digits(|s|));
    var start := pos + |header|;
    HasAtConcat(d, pos, header, s + CRLF);
    DigitsClean(|s|);
    LineFound(d, pos, '$', Digits(|s|));
    HasAtConcat(d, start, s, CRLF);
    assert d[start + |s| + 0] == CRLF[0] && d[start + |s| + 1] == CRLF[1];
  }

  lemma {:induction false} ElementsParse(d: string, pos: nat, es: seq<Reply>)
    requires (forall i :: 0 <= i < |es| ==> Scannable(es[i])) && HasAt(d, pos, RepliesText(es))
    ensures pos <= |d| && ParseElements(d, pos, |es|) == Done(pos + |RepliesText(es)|)
    decreases es
  {
    hide HasAt, ParseValue, ReplyText, Scannable;
    if es == [] {
      HasAtBound(d, pos, "");
    } else {
      HasAtConcat(d, pos, ReplyText(es[0]), RepliesText(es[1..]));
      ValueParses(d, pos, es[0]);
      ElementsParse(d, pos + |ReplyText(es[0])|, es[1..]);
    }
  }

  /** parse_reply: on Ok, the length of the first reply and whether it is an error. */
  datatype ReplyScan = ReplyScan(scan: Scan, isError: bool)

  method ReadReply(d: string) returns (r: ReplyScan)
    ensures r.scan == ParseValue(d, 0) && (r.isError <==> r.scan.Done? && d[0] == '-')
  {
    var s := ReadValue(d, 0);
    r := ReplyScan(s, s.Done? && d != "" && d[0] == '-');
  }

  /** A written reply is consumed exactly, whatever follows; it is flagged as an error exactly when it is one. */
  lemma ReplyRoundTrip(r: Reply, rest: string)
    requires Scannable(r)
    ensures ParseValue(ReplyText(r) + rest, 0) == Done(|ReplyText(r)|)
    ensures |ReplyText(r)| > 0 && ((ReplyText(r) + rest)[0] == '-' <==> r.Failure?)
  {
    var d := ReplyText(r) + rest;
    assert HasAt(d, 0, ReplyText(r));
    ValueParses(d, 0, r);
    hide Digits, IntText, Sanitised, RepliesText;
  }

  /** Until its last byte has arrived, a reply is incomplete. */
  lemma ReplyPrefix(r: Reply, k: nat)
    requires Scannable(r) && k < |ReplyText(r)|
    ensures ParseValue(ReplyText(r)[..k], 0) == More
  {
    hide ParseValue, ReplyText, Scannable;
    var d := ReplyText(r);
    assert d + "" == d;
    ReplyRoundTrip(r, "");
    if !ParseValue(d[..k], 0).More? {
      ValueStable(d[..k], d, 0);
      assert false;
    }
  }

  /** A line longer than 512 bytes is never complete for the scanner, whatever follows it. */
  lemma LongLine(marker: char, line: string, rest: string)
    requires IsMarker(marker) && Clean(line) && |line| > MAX_LINE
    ensures ParseValue(LineText(marker, line) + rest, 0) == More
  {
    var d := LineText(marker, line) + rest;
    forall i | 1 <= i && i + 2 <= 1 + MAX_LINE + 2 ensures !CrlfAt(d, i) {
      assert !CrlfAt(line, i - 1);
      assert d[i] == (line + CRLF)[i - 1] && d[i + 1] == (line + CRLF)[i];
    }
    hide FindCrlf;
  }

  /** The writer does not clean simple strings: one is consumed exactly if and only if it holds no CRLF and has at most
      512 bytes. With a CRLF the scanner stops early or never; a longer line without one stays incomplete for ever. */
  lemma SimpleExact(s: string, rest: string)
    ensures ParseValue(ReplyText(Simple(s)) + rest, 0) == Done(|ReplyText(Simple(s))|) <==> Clean(s) && |s| <= MAX_LINE
    ensures Clean(s) && |s| > MAX_LINE ==> ParseValue(ReplyText(Simple(s)) + rest, 0) == More
  {
    var d := ReplyText(Simple(s)) + rest;
    if Clean(s) && |s| <= MAX_LINE {
      ReplyRoundTrip(Simple(s), rest);
    } else if Clean(s) {
      LongLine('+', s, rest);
    } else {
      var i :| 0 <= i < |s| && CrlfAt(s, i);
      hide FindCrlf;
      assert d[i + 1] == s[i] && d[i + 2] == s[i + 1];
      assert CrlfAt(d, i + 1);
    }
  }

  /** Errors are cleaned, so only their length matters: one of at most 512 bytes is consumed exactly, a longer one, such
      as the echo of a long unknown command, is never complete. */
  lemma FailureExact(s: string, rest: string)
    ensures ParseValue(ReplyText(Failure(s)) + rest, 0) ==
            if |s| <= MAX_LINE then Done(|ReplyText(Failure(s))|) else More
  {
    if |s| <= MAX_LINE {
      ReplyRoundTrip(Failure(s), rest);
    } else {
      SanitisedClean(s);
      LongLine('-', Sanitised(s), rest);
    }
  }

  lemma SimpleWithCrlf()
    ensures ParseValue(ReplyText(Simple("a\r\nb")), 0) == Done(4) && |ReplyText(Simple("a\r\nb"))| == 7
  {
    var d := ReplyText(Simple("a\r\nb"));
    assert d == "+a\r\nb\r\n";
    assert CrlfAt(d, 2);
  }
}
