/** When the request parser answers what: its verdicts in terms of the text alone (src/protocol/resp_parser.cpp). */
module RespGrammar {
  import opened Options
  import opened Spans
  import opened RespLines
  import opened RespParser
  import opened RespWriter

  // Header lines.

  /** A line without CRLF stands at p and ends there. */
  ghost predicate LineAt(d: string, p: nat, line: string)
  {
    HasAt(d, p, line + "\r\n") && Clean(line)
  }

  /** The header behind a marker is cut off: fewer than 64 bytes and no line end yet. */
  ghost predicate Unfinished(d: string, p: nat)
  {
    p <= |d| < p + 64 && forall i :: p <= i < |d| ==> !CrlfAt(d, i)
  }

  /** No line end within the 64 bytes a header may take. */
  ghost predicate Overlong(d: string, p: nat)
  {
    |d| >= p + 64 && forall i :: p <= i < p + 63 ==> !CrlfAt(d, i)
  }

  ghost predicate NumberIn(line: string, max: nat)
  {
    ParseInt(line).Some? && 0 <= ParseInt(line).value <= max
  }

  /** A complete header that is negative, not a number, or over its limit. */
  ghost predicate BadHeader(d: string, p: nat, max: nat)
  {
    exists line :: LineAt(d, p, line) && |line| <= 62 && !NumberIn(line, max)
  }

  ghost predicate GoodHeader(d: string, p: nat, max: nat, line: string)
  {
    LineAt(d, p, line) && |line| <= 62 && NumberIn(line, max)
  }

  ghost predicate HasGoodHeader(d: string, p: nat, max: nat)
  {
    exists line :: GoodHeader(d, p, max, line)
  }

  lemma {:induction false} LineFound(d: string, p: nat, line: string)
    requires LineAt(d, p, line) && |line| <= 62
    ensures p + |line| + 2 <= |d| && d[p..p + |line|] == line
    ensures FindCrlf(d, p, Min(|d|, p + MAX_LINE)) == Some(p + |line|)
  {
    hide FindCrlf;
    FindLine(d, p, line, p + MAX_LINE);
    HasAtConcat(d, p, line, CRLF);
    SliceIs(d, p, line);
  }

  lemma {:induction false} FoundLine(d: string, p: nat, end: nat) returns (line: string)
    requires end <= |d| && FindCrlf(d, p, end).Some?
    ensures p <= FindCrlf(d, p, end).value && line == d[p..FindCrlf(d, p, end).value] && LineAt(d, p, line)
  {
    hide FindCrlf;
    var crlf := FindCrlf(d, p, end).value;
    line := d[p..crlf];
    forall i | 0 <= i < |line| ensures !CrlfAt(line, i) {
      assert !CrlfAt(d, p + i);
    }
    var all := line + "\r\n";
    forall i | 0 <= i < |all| ensures d[p + i] == all[i] {
      if i >= |line| {
        assert CrlfAt(d, crlf);
      }
    }
  }

  /** A header's verdict, exactly. */
  lemma {:induction false} HeaderVerdict(d: string, marker: nat, max: nat)
    requires marker < |d|
    ensures ParseHeader(d, marker, max).Incomplete? <==> Unfinished(d, marker + 1)
    ensures ParseHeader(d, marker, max).Error? <==> Overlong(d, marker + 1) || BadHeader(d, marker + 1, max)
    ensures ParseHeader(d, marker, max).Ok? <==> HasGoodHeader(d, marker + 1, max)
  {
    hide ParseInt, FindCrlf, LineAt;
    var p := marker + 1;
    var f := FindCrlf(d, p, Min(|d|, p + MAX_LINE));
    if f.Some? {
      var line := FoundLine(d, p, Min(|d|, p + MAX_LINE));
      assert CrlfAt(d, f.value);
      assert NumberIn(line, max) ==> GoodHeader(d, p, max, line);
    }
    forall line | LineAt(d, p, line) && |line| <= 62 ensures f == Some(p + |line|) && d[p..p + |line|] == line {
      LineFound(d, p, line);
    }
  }

  lemma {:induction false} HeaderOk(d: string, marker: nat, max: nat, line: string)
    requires marker < |d| && GoodHeader(d, marker + 1, max, line)
    ensures ParseHeader(d, marker, max) == Ok(ParseInt(line).value, marker + 3 + |line|)
  {
    hide ParseInt, FindCrlf;
    LineFound(d, marker + 1, line);
  }

  lemma {:induction false} OkHeader(d: string, marker: nat, max: nat) returns (line: string)
    requires marker < |d| && ParseHeader(d, marker, max).Ok?
    ensures GoodHeader(d, marker + 1, max, line)
    ensures ParseHeader(d, marker, max) == Ok(ParseInt(line).value, marker + 3 + |line|)
  {
    hide ParseInt, FindCrlf, LineAt;
    line := FoundLine(d, marker + 1, Min(|d|, marker + 1 + MAX_LINE));
  }

  // Bulk strings.

  /** A bulk string stands at p and ends at next. */
  ghost predicate BulkAt(d: string, p: nat, arg: string, next: nat)
  {
    p < |d| && d[p] == '$' &&
    exists line :: GoodHeader(d, p + 1, 67_108_864, line) && ParseInt(line).value == |arg| &&
                   HasAt(d, p + 3 + |line|, arg + "\r\n") && next == p + 3 + |line| + |arg| + 2
  }

  /** No continuation can make a bulk string of what stands at p: another marker, a header that is too long or bad, or a
      payload with something else than CRLF behind it. */
  ghost predicate BadBulk(d: string, p: nat)
  {
    p < |d| &&
    (d[p] != '$' || Overlong(d, p + 1) || BadHeader(d, p + 1, 67_108_864) || exists line :: BadTail(d, p, line))
  }

  ghost predicate BadTail(d: string, p: nat, line: string)
  {
    GoodHeader(d, p + 1, 67_108_864, line) &&
    var end := p + 3 + |line| + ParseInt(line).value;
    end + 2 <= |d| && !(d[end] == '\r' && d[end + 1] == '\n')
  }

  /** The input ends before the bulk string at p does: before it, in its header, or in its payload and CRLF. */
  ghost predicate CutBulk(d: string, p: nat)
  {
    p == |d| || (p < |d| && d[p] == '$' && (Unfinished(d, p + 1) || exists line :: ShortPayload(d, p, line)))
  }

  ghost predicate ShortPayload(d: string, p: nat, line: string)
  {
    GoodHeader(d, p + 1, 67_108_864, line) && |d| < p + 3 + |line| + ParseInt(line).value + 2
  }

  /** A bulk string's verdict, exactly. */
  lemma {:induction false} BulkVerdict(d: string, p: nat, arg: string, next: nat)
    requires p <= |d|
    ensures ParseBulk(d, p) == Ok(arg, next) <==> BulkAt(d, p, arg, next)
    ensures ParseBulk(d, p).Error? <==> BadBulk(d, p)
    ensures ParseBulk(d, p).Incomplete? <==> CutBulk(d, p)
  {
    hide ParseInt, ParseHeader, LineAt, Overlong, Unfinished;
    if p < |d| && d[p] == '$' {
      HeaderVerdict(d, p, MAX_BULK);
      forall line | GoodHeader(d, p + 1, MAX_BULK, line)
        ensures ParseHeader(d, p, MAX_BULK) == Ok(ParseInt(line).value, p + 3 + |line|)
      {
        HeaderOk(d, p, MAX_BULK, line);
      }
      if ParseHeader(d, p, MAX_BULK).Ok? {
        var line := OkHeader(d, p, MAX_BULK);
        BulkBody(d, p, line, arg, next);
      }
    }
  }

  lemma {:induction false} BulkBody(d: string, p: nat, line: string, arg: string, next: nat)
    requires p < |d| && d[p] == '$' && GoodHeader(d, p + 1, MAX_BULK, line)
    requires ParseHeader(d, p, MAX_BULK) == Ok(ParseInt(line).value, p + 3 + |line|)
    ensures ParseBulk(d, p) == Ok(arg, next) ==> BulkAt(d, p, arg, next)
    ensures ParseInt(line).value == |arg| && HasAt(d, p + 3 + |line|, arg + "\r\n") && next == p + 3 + |line| + |arg| + 2 ==>
              ParseBulk(d, p) == Ok(arg, next)
    ensures ParseBulk(d, p).Error? <==> BadTail(d, p, line)
    ensures ParseBulk(d, p).Incomplete? <==> ShortPayload(d, p, line)
  {
    hide ParseInt, ParseHeader, LineAt;
    var start := p + 3 + |line|;
    HasAtConcat(d, start, arg, "\r\n");
    CrlfHas(d, start + |arg|);
    if start + |arg| <= |d| {
      SliceIs(d, start, arg);
    }
  }

  lemma {:induction false} CrlfHas(d: string, i: nat)
    ensures HasAt(d, i, "\r\n") <==> i + 2 <= |d| && d[i] == '\r' && d[i + 1] == '\n'
  {
    if HasAt(d, i, "\r\n") {
      assert d[i + 0] == "\r\n"[0] && d[i + 1] == "\r\n"[1];
    }
  }

  // Sequences of bulk strings, and commands.

  ghost predicate BulksAt(d: string, p: nat, args: seq<string>, next: nat)
    decreases |args|
  {
    if args == [] then next == p
    else exists mid :: BulkAt(d, p, args[0], mid) && BulksAt(d, mid, args[1..], next)
  }

  /** After fewer than n good bulk strings comes one that is wrong, or the end. */
  ghost predicate BadArgs(d: string, p: nat, n: nat)
  {
    exists args, q :: |args| < n && BulksAt(d, p, args, q) && BadBulk(d, q)
  }

  ghost predicate CutArgs(d: string, p: nat, n: nat)
  {
    exists args, q :: |args| < n && BulksAt(d, p, args, q) && CutBulk(d, q)
  }

  lemma {:induction false} ArgsAre(d: string, p: nat, n: nat, args: seq<string>, next: nat)
    requires p <= |d|
    ensures ParseArgs(d, p, n) == Ok(args, next) <==> |args| == n && BulksAt(d, p, args, next)
    decreases n
  {
    hide ParseBulk, BulkAt, BadBulk, CutBulk;
    if n > 0 {
      var b := ParseBulk(d, p);
      if b.Ok? {
        BulkVerdict(d, p, b.value, b.next);
        if args != [] {
          ArgsAre(d, b.next, n - 1, args[1..], next);
        }
      }
      if args != [] {
        assert args == [args[0]] + args[1..];
        forall mid | BulkAt(d, p, args[0], mid) ensures b == Ok(args[0], mid) {
          BulkVerdict(d, p, args[0], mid);
        }
      }
    }
  }

  lemma {:induction false} ArgsFail(d: string, p: nat, n: nat)
    requires p <= |d|
    ensures ParseArgs(d, p, n).Error? ==> BadArgs(d, p, n)
    ensures ParseArgs(d, p, n).Incomplete? ==> CutArgs(d, p, n)
    decreases n
  {
    hide ParseBulk, BulkAt, BadBulk, CutBulk;
    if n > 0 {
      var b := ParseBulk(d, p);
      assert BulksAt(d, p, [], p);
      BulkVerdict(d, p, "", 0);
      if b.Ok? {
        BulkVerdict(d, p, b.value, b.next);
        ArgsFail(d, b.next, n - 1);
        if ParseArgs(d, b.next, n - 1).Error? {
          var args, q :| |args| < n - 1 && BulksAt(d, b.next, args, q) && BadBulk(d, q);
          BulksCons(d, p, b.value, b.next, args, q);
        } else if ParseArgs(d, b.next, n - 1).Incomplete? {
          var args, q :| |args| < n - 1 && BulksAt(d, b.next, args, q) && CutBulk(d, q);
          BulksCons(d, p, b.value, b.next, args, q);
        }
      }
    }
  }

  lemma {:induction false} BulksCons(d: string, p: nat, arg: string, mid: nat, args: seq<string>, q: nat)
    requires BulkAt(d, p, arg, mid) && BulksAt(d, mid, args, q)
    ensures BulksAt(d, p, [arg] + args, q) && |[arg] + args| == |args| + 1
  {
    hide BulkAt;
    assert ([arg] + args)[1..] == args && ([arg] + args)[0] == arg;
  }

  /** The first bulk string that is not good decides. */
  lemma {:induction false} ArgsStop(d: string, p: nat, n: nat, args: seq<string>, q: nat)
    requires p <= |d| && |args| < n && BulksAt(d, p, args, q)
    ensures q <= |d| && (BadBulk(d, q) ==> ParseArgs(d, p, n).Error?) && (CutBulk(d, q) ==> ParseArgs(d, p, n).Incomplete?)
    decreases |args|
  {
    hide ParseBulk, BulkAt, BadBulk, CutBulk;
    if args == [] {
      BulkVerdict(d, p, "", 0);
    } else {
      var mid :| BulkAt(d, p, args[0], mid) && BulksAt(d, mid, args[1..], q);
      BulkVerdict(d, p, args[0], mid);
      ArgsStop(d, mid, n - 1, args[1..], q);
    }
  }

  /** The text of a command: a count, that many bulk strings, and its end. */
  ghost predicate CommandAt(d: string, args: seq<string>, next: nat)
  {
    d != "" && d[0] == '*' &&
    exists line :: GoodHeader(d, 1, 1_048_576, line) && ParseInt(line).value == |args| && BulksAt(d, 3 + |line|, args, next)
  }

  /** Text that no continuation makes a command. */
  ghost predicate MalformedText(d: string)
  {
    d != "" &&
    (d[0] != '*' || Overlong(d, 1) || BadHeader(d, 1, 1_048_576) ||
     exists line :: GoodHeader(d, 1, 1_048_576, line) && BadArgs(d, 3 + |line|, ParseInt(line).value))
  }

  /** Text that ends too early: empty, inside the count's line, or at or inside a bulk string. */
  ghost predicate CutText(d: string)
  {
    d == "" ||
    (d[0] == '*' &&
     (Unfinished(d, 1) || exists line :: GoodHeader(d, 1, 1_048_576, line) && CutArgs(d, 3 + |line|, ParseInt(line).value)))
  }

  /** The parser's verdict on every input, exactly, in terms of the text. */
  lemma {:induction false} CommandVerdict(d: string, args: seq<string>, next: nat)
    ensures ParseCommand(d) == Ok(args, next) <==> CommandAt(d, args, next)
    ensures ParseCommand(d).Error? <==> MalformedText(d)
    ensures ParseCommand(d).Incomplete? <==> CutText(d)
  {
    hide ParseInt, ParseHeader, ParseArgs, LineAt, Overlong, Unfinished, BulksAt, BadBulk, CutBulk;
    if d != "" && d[0] == '*' {
      HeaderVerdict(d, 0, MAX_ARRAY);
      if ParseHeader(d, 0, MAX_ARRAY).Ok? {
        var line := OkHeader(d, 0, MAX_ARRAY);
        forall other | GoodHeader(d, 1, MAX_ARRAY, other) ensures other == line {
          OneLine(d, other, line);
        }
        ArgsVerdict(d, 3 + |line|, ParseInt(line).value, args, next);
      }
    }
  }

  lemma {:induction false} OneLine(d: string, a: string, b: string)
    requires d != "" && GoodHeader(d, 1, MAX_ARRAY, a) && GoodHeader(d, 1, MAX_ARRAY, b)
    ensures a == b
  {
    hide ParseInt, FindCrlf;
    LineFound(d, 1, a);
    LineFound(d, 1, b);
  }

  lemma {:induction false} ArgsVerdict(d: string, p: nat, n: nat, args: seq<string>, next: nat)
    requires p <= |d|
    ensures ParseArgs(d, p, n) == Ok(args, next) <==> |args| == n && BulksAt(d, p, args, next)
    ensures ParseArgs(d, p, n).Error? <==> BadArgs(d, p, n)
    ensures ParseArgs(d, p, n).Incomplete? <==> CutArgs(d, p, n)
  {
    hide ParseArgs, BulksAt, BadBulk, CutBulk;
    ArgsAre(d, p, n, args, next);
    ArgsFail(d, p, n);
    forall a, q | |a| < n && BulksAt(d, p, a, q)
      ensures (BadBulk(d, q) ==> ParseArgs(d, p, n).Error?) && (CutBulk(d, q) ==> ParseArgs(d, p, n).Incomplete?)
    {
      ArgsStop(d, p, n, a, q);
    }
  }

  // Incomplete input.

  /** An incomplete command is no longer than its limits allow, so the parser cannot be made to wait for more than that. */
  lemma {:induction false} IncompleteBound(d: string)
    requires ParseCommand(d).Incomplete?
    ensures |d| <= 65 + 1_048_576 * (67_108_864 + 67)
  {
    hide ParseHeader, ParseArgs;
    if d != "" {
      HeaderSpan(d, 0, MAX_ARRAY);
      var h := ParseHeader(d, 0, MAX_ARRAY);
      if h.Ok? {
        ArgsBound(d, h.next, h.value);
      }
    }
  }

  lemma {:induction false} HeaderSpan(d: string, marker: nat, max: nat)
    requires marker < |d|
    ensures ParseHeader(d, marker, max).Incomplete? ==> |d| < marker + 65
    ensures ParseHeader(d, marker, max).Ok? ==> ParseHeader(d, marker, max).next <= marker + 65
  {
    hide ParseInt, FindCrlf;
  }

  lemma {:induction false} ArgsBound(d: string, p: nat, n: nat)
    requires p <= |d| && ParseArgs(d, p, n).Incomplete?
    ensures |d| <= p + n * (67_108_864 + 67)
    decreases n
  {
    hide ParseHeader;
    if p < |d| {
      HeaderSpan(d, p, MAX_BULK);
    }
    var b := ParseBulk(d, p);
    if b.Ok? {
      ArgsBound(d, b.next, n - 1);
    }
  }

  /** The input ends inside the header line of the bulk string at p. */
  ghost predicate HeaderCutAt(d: string, p: nat)
  {
    p < |d| && d[p] == '$' && Unfinished(d, p + 1)
  }

  /** The input ends one byte behind the payload of the bulk string at p, and that byte is not the CR that must follow. */
  ghost predicate StrayAt(d: string, p: nat)
  {
    p < |d| && d[p] == '$' &&
    exists line :: GoodHeader(d, p + 1, 67_108_864, line) &&
                   var end := p + 3 + |line| + ParseInt(line).value;
                   |d| == end + 1 && d[end] != '\r'
  }

  ghost predicate HeaderCutArgs(d: string, p: nat, n: nat)
  {
    exists args, q :: |args| < n && BulksAt(d, p, args, q) && HeaderCutAt(d, q)
  }

  ghost predicate StrayArgs(d: string, p: nat, n: nat)
  {
    exists args, q :: |args| < n && BulksAt(d, p, args, q) && StrayAt(d, q)
  }

  /** A command's text that ends inside a header line. */
  ghost predicate HeaderCut(d: string)
  {
    d != "" && d[0] == '*' &&
    (Unfinished(d, 1) || exists line :: GoodHeader(d, 1, 1_048_576, line) && HeaderCutArgs(d, 3 + |line|, ParseInt(line).value))
  }

  /** A command's text that ends with a stray byte behind a payload. */
  ghost predicate Stray(d: string)
  {
    d != "" && d[0] == '*' &&
    exists line :: GoodHeader(d, 1, 1_048_576, line) && StrayArgs(d, 3 + |line|, ParseInt(line).value)
  }

  lemma {:induction false} Deeper(d: string, p: nat, n: nat, arg: string, mid: nat)
    requires n > 0 && BulkAt(d, p, arg, mid)
    ensures StrayArgs(d, mid, n - 1) ==> StrayArgs(d, p, n)
    ensures HeaderCutArgs(d, mid, n - 1) ==> HeaderCutArgs(d, p, n)
  {
    hide BulkAt, BulksAt, StrayAt, HeaderCutAt;
    if StrayArgs(d, mid, n - 1) {
      var args, q :| |args| < n - 1 && BulksAt(d, mid, args, q) && StrayAt(d, q);
      BulksCons(d, p, arg, mid, args, q);
    }
    if HeaderCutArgs(d, mid, n - 1) {
      var args, q :| |args| < n - 1 && BulksAt(d, mid, args, q) && HeaderCutAt(d, q);
      BulksCons(d, p, arg, mid, args, q);
    }
  }

  lemma {:induction false} Here(d: string, p: nat, n: nat)
    requires n > 0
    ensures StrayAt(d, p) ==> StrayArgs(d, p, n)
    ensures HeaderCutAt(d, p) ==> HeaderCutArgs(d, p, n)
  {
    hide StrayAt, HeaderCutAt;
    assert BulksAt(d, p, [], p);
  }

  function Blanks(n: nat): (s: seq<string>)
    ensures |s| == n && forall i :: 0 <= i < n ==> s[i] == ""
  {
    seq(n, _ => "")
  }

  /** Input that is waited for can be completed to a command, unless it ends in a header line or with a stray byte. */
  lemma {:induction false} Completable(d: string) returns (e: string)
    requires ParseCommand(d).Incomplete? && !HeaderCut(d) && !Stray(d)
    ensures ParseCommand(d + e).Ok?
  {
    hide ParseHeader, ParseArgs, ParseInt, LineAt, Unfinished, StrayArgs, HeaderCutArgs;
    if d == "" {
      e := CommandText([]);
      assert d + e == e + "";
      CommandRoundTrip([], "");
    } else {
      HeaderVerdict(d, 0, MAX_ARRAY);
      var line := OkHeader(d, 0, MAX_ARRAY);
      e := ArgsCompletable(d, 3 + |line|, ParseInt(line).value);
      HeaderStable(d, d + e, 0, MAX_ARRAY);
    }
  }

  lemma {:induction false} ArgsCompletable(d: string, p: nat, n: nat) returns (e: string)
    requires p <= |d| && ParseArgs(d, p, n).Incomplete? && !HeaderCutArgs(d, p, n) && !StrayArgs(d, p, n)
    ensures ParseArgs(d + e, p, n).Ok?
    decreases n
  {
    hide ParseBulk, HeaderCutArgs, StrayArgs, HeaderCutAt, StrayAt, BulkAt, BadBulk, CutBulk;
    var b := ParseBulk(d, p);
    if b.Ok? {
      BulkVerdict(d, p, b.value, b.next);
      Deeper(d, p, n, b.value, b.next);
      e := ArgsCompletable(d, b.next, n - 1);
      BulkStable(d, d + e, p);
    } else {
      Here(d, p, n);
      var f := BulkCompletable(d, p);
      e := f + BulksText(Blanks(n - 1));
      AddBlanks(d, f, p, n);
    }
  }

  lemma {:induction false} AddBlanks(d: string, f: string, p: nat, n: nat)
    requires p <= |d| && n > 0 && ParseBulk(d + f, p).Ok? && ParseBulk(d + f, p).next == |d + f|
    ensures ParseArgs(d + (f + BulksText(Blanks(n - 1))), p, n).Ok?
  {
    hide ParseBulk, BulkText;
    var t := BulksText(Blanks(n - 1));
    var all := d + (f + t);
    assert all == (d + f) + t && d + f <= all;
    BulkStable(d + f, all, p);
    assert HasAt(all, |d + f|, t);
    ArgsParse(all, |d + f|, Blanks(n - 1));
  }

  lemma {:induction false} BulkCompletable(d: string, p: nat) returns (f: string)
    requires p <= |d| && ParseBulk(d, p).Incomplete? && !HeaderCutAt(d, p) && !StrayAt(d, p)
    ensures ParseBulk(d + f, p).Ok? && ParseBulk(d + f, p).next == |d + f|
  {
    hide ParseBulk, ParseHeader, ParseInt, LineAt, HeaderCutAt;
    if p == |d| {
      f := BulkText("");
      BlankAfter(d);
    } else {
      ShortOf(d, p);
      var line := OkHeader(d, p, MAX_BULK);
      var end := p + 3 + |line| + ParseInt(line).value;
      assert |d| == end + 1 ==> d[end] == '\r';
      hide StrayAt;
      f := PayloadCompletable(d, p, ParseInt(line).value, p + 3 + |line|);
    }
  }

  /** A bulk string waited for, its header complete, has its payload cut off. */
  lemma {:induction false} ShortOf(d: string, p: nat)
    requires p < |d| && ParseBulk(d, p).Incomplete? && !HeaderCutAt(d, p)
    ensures d[p] == '$' && ParseHeader(d, p, MAX_BULK).Ok?
    ensures |d| < ParseHeader(d, p, MAX_BULK).next + ParseHeader(d, p, MAX_BULK).value + 2
  {
    HeaderVerdict(d, p, MAX_BULK);
    hide ParseHeader, Unfinished, Overlong, BadHeader, HasGoodHeader;
  }

  lemma {:induction false} BlankAfter(d: string)
    ensures ParseBulk(d + BulkText(""), |d|).Ok? && ParseBulk(d + BulkText(""), |d|).next == |d + BulkText("")|
  {
    hide ParseBulk, BulkText;
    var f := BulkText("");
    assert HasAt(d + f, |d|, f);
    BulkParses(d + f, |d|, "");
  }

  lemma {:induction false} PayloadCompletable(d: string, p: nat, len: nat, start: nat) returns (f: string)
    requires p < |d| && d[p] == '$' && ParseHeader(d, p, MAX_BULK) == Ok(len, start) && |d| < start + len + 2
    requires |d| == start + len + 1 ==> d[start + len] == '\r'
    ensures ParseBulk(d + f, p).Ok? && ParseBulk(d + f, p).next == |d + f|
  {
    hide ParseHeader;
    if |d| == start + len + 1 {
      f := "\n";
    } else {
      f := seq(start + len - |d|, _ => 'x') + "\r\n";
    }
    HeaderStable(d, d + f, p, MAX_BULK);
    assert |d + f| == start + len + 2 && (d + f)[start + len] == '\r' && (d + f)[start + len + 1] == '\n';
  }

  /** A stray byte is waited on, and every further byte makes an error: such input has no completion. */
  lemma {:induction false} StrayFails(d: string, e: string)
    requires Stray(d)
    ensures ParseCommand(d).Incomplete? && (e != "" ==> ParseCommand(d + e).Error?)
  {
    hide ParseHeader, ParseArgs, ParseInt, LineAt, StrayArgs;
    var line :| GoodHeader(d, 1, MAX_ARRAY, line) && StrayArgs(d, 3 + |line|, ParseInt(line).value);
    HeaderOk(d, 0, MAX_ARRAY, line);
    StrayCut(d, 3 + |line|, ParseInt(line).value);
    HeaderStable(d, d + e, 0, MAX_ARRAY);
    if e != "" {
      ArgsStray(d, d + e, 3 + |line|, ParseInt(line).value);
    }
  }

  lemma {:induction false} StrayCut(d: string, p: nat, n: nat)
    requires p <= |d| && StrayArgs(d, p, n)
    ensures ParseArgs(d, p, n).Incomplete?
  {
    hide ParseArgs, BulksAt, BadBulk, ParseInt, LineAt;
    var args: seq<string>, q: nat :| |args| < n && BulksAt(d, p, args, q) && StrayAt(d, q);
    var line: string :| GoodHeader(d, q + 1, 67_108_864, line) && |d| == q + 3 + |line| + ParseInt(line).value + 1;
    assert ShortPayload(d, q, line);
    ArgsStop(d, p, n, args, q);
  }

  lemma {:induction false} ArgsStray(d: string, w: string, p: nat, n: nat)
    requires p <= |d| < |w| && d <= w && StrayArgs(d, p, n)
    ensures ParseArgs(w, p, n).Error?
  {
    hide ParseArgs, BulksAt, StrayAt;
    var args, q :| |args| < n && BulksAt(d, p, args, q) && StrayAt(d, q);
    StrayStop(d, w, p, n, args, q);
  }

  lemma {:induction false} StrayStop(d: string, w: string, p: nat, n: nat, args: seq<string>, q: nat)
    requires p <= |d| < |w| && d <= w && |args| < n && BulksAt(d, p, args, q) && StrayAt(d, q)
    ensures ParseArgs(w, p, n).Error?
    decreases |args|
  {
    hide ParseBulk, BulkAt, StrayAt, ParseArgs, BadBulk, CutBulk;
    if args == [] {
      StrayBulk(d, w, p);
    } else {
      var mid :| BulkAt(d, p, args[0], mid) && BulksAt(d, mid, args[1..], q);
      hide BulksAt;
      BulkVerdict(d, p, args[0], mid);
      BulkStable(d, w, p);
      StrayStop(d, w, mid, n - 1, args[1..], q);
    }
    FirstError(w, p, n);
  }

  lemma {:induction false} FirstError(d: string, p: nat, n: nat)
    requires p <= |d| && n > 0
    ensures ParseBulk(d, p).Error? ==> ParseArgs(d, p, n).Error?
    ensures ParseBulk(d, p).Ok? && ParseArgs(d, ParseBulk(d, p).next, n - 1).Error? ==> ParseArgs(d, p, n).Error?
  {
    hide ParseBulk;
  }

  lemma {:induction false} StrayBulk(d: string, w: string, p: nat)
    requires StrayAt(d, p) && d <= w && |d| < |w|
    ensures p <= |w| && ParseBulk(w, p).Error?
  {
    hide ParseInt, ParseHeader, LineAt;
    var line :| GoodHeader(d, p + 1, MAX_BULK, line) &&
                |d| == p + 3 + |line| + ParseInt(line).value + 1 && d[p + 3 + |line| + ParseInt(line).value] != '\r';
    HeaderOk(d, p, MAX_BULK, line);
    HeaderStable(d, w, p, MAX_BULK);
  }

  /** Such an input: an empty payload and one byte that is not CR. It waits; one more byte shows the error. */
  lemma {:induction false} StrayInput()
    ensures ParseCommand("*1\r\n$0\r\nx").Incomplete? && ParseCommand("*1\r\n$0\r\nx\n").Error?
  {
    var d := "*1\r\n$0\r\nx";
    var w := "*1\r\n$0\r\nx\n";
    StrayHeaders(d);
    StrayHeaders(w);
    hide ParseHeader;
    assert ParseBulk(d, 4).Incomplete? && ParseBulk(w, 4).Error?;
  }

  lemma {:induction false} StrayHeaders(d: string)
    requires |d| >= 9 && d[..8] == "*1\r\n$0\r\n"
    ensures ParseHeader(d, 0, MAX_ARRAY) == Ok(1, 4) && ParseHeader(d, 4, MAX_BULK) == Ok(0, 8)
  {
    var t := "*1\r\n$0\r\n";
    assert LineText('*', Digits(1)) == "*1\r\n" && LineText('$', Digits(0)) == "$0\r\n";
    assert t == "*1\r\n" + "$0\r\n";
    hide Digits, LineText;
    assert forall i :: 0 <= i < 8 ==> d[i] == d[..8][i];
    assert HasAt(d, 0, t);
    HasAtConcat(d, 0, "*1\r\n", "$0\r\n");
    HeaderParses(d, 0, '*', 1, MAX_ARRAY);
    HeaderParses(d, 4, '$', 0, MAX_BULK);
  }
}

/** What a stream of bytes makes a connection do, in terms of the text alone (process() in src/net/server.cpp). */
module StreamGrammar {
  import opened Options
  import opened Ints
  import opened Spans
  import opened RespLines
  import opened RespParser
  import opened RespWriter
  import opened RespGrammar
  import opened RespStream

  /** d is the texts of these commands, one after the other, and then rest. */
  ghost predicate Reads(d: string, cmds: seq<Command>, rest: string)
    decreases |cmds|
  {
    if cmds == [] then rest == d
    else exists n :: 0 < n <= |d| && CommandAt(d, cmds[0], n) && Reads(d[n..], cmds[1..], rest)
  }

  /** Commands of no arguments are skipped. */
  function Real(cmds: seq<Command>): seq<Command>
  {
    if cmds == [] then [] else (if cmds[0] == [] then [] else [cmds[0]]) + Real(cmds[1..])
  }

  /** None of them closes the connection. */
  ghost predicate Harmless(cmds: seq<Command>, closes: Command -> bool)
  {
    forall i :: 0 <= i < |cmds| && cmds[i] != [] ==> !closes(cmds[i])
  }

  /** The first command decides: a no-op, the last one, or one of several. Without one the stream waits or ends. */
  lemma {:induction false} RunFront(d: string, closes: Command -> bool, args: Command, n: nat)
    ensures CommandAt(d, args, n) && n <= |d| ==>
              Run(d, closes) == if args == [] then Run(d[n..], closes)
                                else if closes(args) then Outcome([args], d[n..], Closing)
                                else Then([args], Run(d[n..], closes))
    ensures MalformedText(d) ==> Run(d, closes) == Outcome([], d, Malformed)
    ensures CutText(d) ==> Run(d, closes) == Outcome([], d, Open)
  {
    CommandVerdict(d, args, n);
    hide ParseCommand, CommandAt, MalformedText, CutText;
  }

  /** Complete commands of which none closes are dispatched in order, and what follows is read as if it came first. */
  lemma {:induction false} RunReads(d: string, cmds: seq<Command>, rest: string, closes: Command -> bool)
    requires Reads(d, cmds, rest) && Harmless(cmds, closes)
    ensures Run(d, closes) == Then(Real(cmds), Run(rest, closes))
    decreases |cmds|
  {
    hide CommandAt, MalformedText, CutText, Run;
    if cmds == [] {
      ThenNothing(Run(d, closes));
    } else {
      var n :| 0 < n <= |d| && CommandAt(d, cmds[0], n) && Reads(d[n..], cmds[1..], rest);
      RunFront(d, closes, cmds[0], n);
      RunReads(d[n..], cmds[1..], rest, closes);
      ThenThen([cmds[0]], Real(cmds[1..]), Run(rest, closes));
      assert [] + Real(cmds[1..]) == Real(cmds[1..]);
    }
  }

  /** Every stream splits into the commands read and the text at which reading stopped. */
  lemma {:induction false} RunStops(d: string, closes: Command -> bool) returns (cmds: seq<Command>, rest: string)
    ensures Reads(d, cmds, rest) && Harmless(cmds, closes)
    ensures MalformedText(rest) || CutText(rest) || exists args, n :: Closer(rest, args, n, closes)
    decreases |d|
  {
    hide CommandAt, MalformedText, CutText;
    var r := ParseCommand(d);
    if r.Ok? {
      CommandVerdict(d, r.value, r.next);
      hide ParseCommand;
      if r.value != [] && closes(r.value) {
        cmds, rest := [], d;
        assert Closer(rest, r.value, r.next, closes);
      } else {
        var more;
        more, rest := RunStops(d[r.next..], closes);
        cmds := [r.value] + more;
        assert cmds[0] == r.value && cmds[1..] == more;
      }
    } else {
      CommandVerdict(d, [], 0);
      cmds, rest := [], d;
    }
  }

  ghost predicate Closer(d: string, args: Command, n: nat, closes: Command -> bool)
  {
    n <= |d| && args != [] && CommandAt(d, args, n) && closes(args)
  }

  /** A stream ends as malformed exactly if, behind complete commands of which none closes, comes malformed text; it
      waits exactly if cut text comes there. The commands dispatched are those. */
  lemma {:induction false} RunMalformed(d: string, closes: Command -> bool)
    ensures Run(d, closes).end.Malformed? <==> exists cmds, rest :: Stops(d, cmds, rest, closes) && MalformedText(rest)
    ensures Run(d, closes).end.Open? <==> exists cmds, rest :: Stops(d, cmds, rest, closes) && CutText(rest)
  {
    hide Reads, Harmless, MalformedText, CutText, Run, CommandAt;
    forall cmds, rest | Stops(d, cmds, rest, closes) && MalformedText(rest) ensures Run(d, closes).end.Malformed? {
      RunReads(d, cmds, rest, closes);
      RunFront(rest, closes, [], 0);
    }
    forall cmds, rest | Stops(d, cmds, rest, closes) && CutText(rest) ensures Run(d, closes).end.Open? {
      RunReads(d, cmds, rest, closes);
      RunFront(rest, closes, [], 0);
    }
    var cmds, rest := RunStops(d, closes);
    assert Stops(d, cmds, rest, closes);
    if !MalformedText(rest) && !CutText(rest) {
      var args, n :| Closer(rest, args, n, closes);
      RunFront(rest, closes, args, n);
      RunReads(d, cmds, rest, closes);
    }
  }

  ghost predicate Stops(d: string, cmds: seq<Command>, rest: string, closes: Command -> bool)
  {
    Reads(d, cmds, rest) && Harmless(cmds, closes)
  }

  /** An inline command, as a telnet user would type it, is an error at once. */
  lemma NotAnArray(d: string, closes: Command -> bool)
    requires d != "" && d[0] != '*'
    ensures ParseCommand(d).Error? && Run(d, closes) == Outcome([], d, Malformed)
  {
  }

  // Decimal integers and the bytes on the wire.

  /** What a header line may be: an optional minus and digits, nothing else; and a 64-bit value. */
  lemma {:induction false} ParseIntLaws(s: string, i: nat, n: int)
    ensures ParseInt("").None? && ParseInt("-").None?
    ensures i < |s| && !IsDigit(s[i]) && !(i == 0 && s[0] == '-') ==> ParseInt(s).None?
    ensures Int64(n) <==> ParseInt(IntText(n)) == Some(n)
    ensures AllDigits(s) && s != "" ==> ParseInt("0" + s) == ParseInt(s)
  {
    assert "-"[1..] == "";
    if Int64(n) {
      ParseIntText(n);
    }
    if i < |s| && !IsDigit(s[i]) && s != "" && s[0] == '-' && i > 0 {
      assert s[1..][i - 1] == s[i];
    }
    if AllDigits(s) && s != "" {
      LeadingZero(s);
      assert ("0" + s)[0] == '0' && s[0] != '-';
    }
  }

  lemma {:induction false} LeadingZero(s: string)
    requires AllDigits(s)
    ensures AllDigits("0" + s) && NatValue("0" + s) == NatValue(s)
    decreases |s|
  {
    var t := "0" + s;
    if s == "" {
      assert t[..|t| - 1] == "" && t[|t| - 1] == '0';
    } else {
      var n := |s| - 1;
      LeadingZero(s[..n]);
      assert t[..|t| - 1] == "0" + s[..n];
    }
  }

  /** Decimal means decimal. */
  lemma DecimalExample()
    ensures Digits(1048576) == "1048576" && IntText(-907) == "-907" && Digits(0) == "0"
  {
    assert Digits(10) == "10" && Digits(104) == "104";
    assert Digits(1048) == "1048" && Digits(10485) == "10485";
    assert Digits(104857) == "104857";
    assert Digits(90) == "90" && Digits(907) == "907";
  }

  /** A request as it goes over the wire. */
  lemma {:induction false} WireCommand()
    ensures CommandText(["k"]) == "*1\r\n$1\r\nk\r\n"
  {
    assert Digits(1) == "1";
    assert BulkText("k") == "$1\r\nk\r\n";
    assert LineText('*', Digits(1)) == "*1\r\n";
    hide Digits, LineText, BulkText;
    assert ["k"][1..] == [];
    assert BulksText(["k"]) == BulkText("k") + BulksText([]);
    assert CommandText(["k"]) == LineText('*', Digits(1)) + BulksText(["k"]);
  }

  /** The kinds of reply as they go over the wire. */
  lemma {:induction false} WireReplies()
    ensures ReplyText(Simple("OK")) == "+OK\r\n" && ReplyText(Integer(-7)) == ":-7\r\n"
    ensures ReplyText(NullBulk) == "$-1\r\n" && ReplyText(NullArray) == "*-1\r\n"
  {
    assert Digits(7) == "7";
  }

  lemma {:induction false} WireError()
    ensures ReplyText(Failure("a\nb")) == "-a b\r\n"
  {
    assert Sanitised("a\nb") == "a b";
  }

  lemma {:induction false} WireArray()
    ensures ReplyText(Array([Integer(1), NullBulk])) == "*2\r\n:1\r\n$-1\r\n"
  {
    assert Digits(1) == "1" && Digits(2) == "2";
    assert ReplyText(Integer(1)) == ":1\r\n" && ReplyText(NullBulk) == "$-1\r\n" && LineText('*', Digits(2)) == "*2\r\n";
    hide Digits, LineText;
    var es := [Integer(1), NullBulk];
    assert es[1..] == [NullBulk] && [NullBulk][1..] == [];
    assert RepliesText([NullBulk]) == ReplyText(NullBulk) + RepliesText([]);
    assert RepliesText(es) == ReplyText(Integer(1)) + RepliesText([NullBulk]);
    assert ReplyText(Array(es)) == LineText('*', Digits(2)) + RepliesText(es);
  }
}

/** When the load generator's scanner answers what (bench/loadgen/reply_parser.cpp). */
module ReplyGrammar {
  import opened Options
  import opened Spans
  import opened RespLines
  import opened RespWriter
  import opened ReplyParser
  import G = RespGrammar

  /** The line behind a marker, of at most 512 bytes. */
  ghost predicate HeadAt(d: string, p: nat, line: string)
  {
    p < |d| && G.LineAt(d, p + 1, line) && |line| <= 512
  }

  predicate OneLiner(c: char) { c == '+' || c == '-' || c == ':' }

  /** A value stands at p and ends at q. */
  ghost predicate ValueAt(d: string, p: nat, q: nat)
    decreases |d| - p, 0
  {
    p < |d| && exists line :: HeadAt(d, p, line) && ValueBehind(d, p, line, q)
  }

  ghost predicate ValueBehind(d: string, p: nat, line: string, q: nat)
    requires p < |d|
    decreases |d| - p - 1, 1, 0
  {
    var start := p + 3 + |line|;
    if OneLiner(d[p]) then q == start
    else if d[p] != '$' && d[p] != '*' then false
    else if ParseInt(line).None? || ParseInt(line).value < -1 then false
    else if ParseInt(line).value == -1 then q == start
    else if d[p] == '$' then q == start + ParseInt(line).value + 2 && q <= |d| && d[q - 2] == '\r' && d[q - 1] == '\n'
    else start <= |d| && ElementsAt(d, start, ParseInt(line).value, q)
  }

  ghost predicate ElementsAt(d: string, p: nat, n: nat, q: nat)
    requires p <= |d|
    decreases |d| - p, n + 2
  {
    if n == 0 then q == p else exists mid :: p < mid <= |d| && ValueAt(d, p, mid) && ElementsAt(d, mid, n - 1, q)
  }

  /** What stands at p is no value, whatever follows: no marker, a line that must be a number and is none or below -1, a
      payload without its CRLF, or a wrong element. */
  ghost predicate BadValue(d: string, p: nat)
    decreases |d| - p, 0
  {
    p < |d| &&
    ((!OneLiner(d[p]) && d[p] != '$' && d[p] != '*') || exists line :: HeadAt(d, p, line) && BadBehind(d, p, line))
  }

  ghost predicate BadBehind(d: string, p: nat, line: string)
    requires p < |d|
    decreases |d| - p - 1, 1, 0
  {
    var start := p + 3 + |line|;
    if OneLiner(d[p]) then false
    else if ParseInt(line).None? || ParseInt(line).value < -1 then true
    else if ParseInt(line).value == -1 then false
    else if d[p] == '$' then
      var end := start + ParseInt(line).value;
      end + 2 <= |d| && !(d[end] == '\r' && d[end + 1] == '\n')
    else start <= |d| && BadElements(d, start, ParseInt(line).value)
  }

  ghost predicate BadElements(d: string, p: nat, n: nat)
    requires p <= |d|
    decreases |d| - p, n + 2
  {
    n > 0 && (BadValue(d, p) || exists mid :: p < mid <= |d| && ValueAt(d, p, mid) && BadElements(d, mid, n - 1))
  }

  lemma {:induction false} HeadFound(d: string, p: nat, line: string)
    requires HeadAt(d, p, line)
    ensures p + 3 + |line| <= |d| && d[p + 1..p + 1 + |line|] == line
    ensures FindCrlf(d, p + 1, Min(|d|, p + 1 + MAX_LINE + 2)) == Some(p + 1 + |line|)
  {
    hide FindCrlf;
    FindLine(d, p + 1, line, p + 1 + MAX_LINE + 2);
    HasAtConcat(d, p + 1, line, CRLF);
    SliceIs(d, p + 1, line);
  }

  /** The scanner's verdict on every input, exactly, in terms of the text; it waits in all other cases. */
  lemma {:induction false} ValueVerdict(d: string, p: nat, q: nat)
    requires p <= |d|
    ensures ParseValue(d, p) == Done(q) <==> ValueAt(d, p, q)
    ensures ParseValue(d, p).Bad? <==> BadValue(d, p)
    decreases |d| - p, 0
  {
    hide ParseInt, FindCrlf, HeadAt, ValueBehind, BadBehind;
    if p < |d| {
      var f := FindCrlf(d, p + 1, Min(|d|, p + 1 + MAX_LINE + 2));
      forall line | HeadAt(d, p, line) ensures f == Some(p + 1 + |line|) && d[p + 1..p + 1 + |line|] == line {
        HeadFound(d, p, line);
      }
      if f.Some? {
        var line := G.FoundLine(d, p + 1, Min(|d|, p + 1 + MAX_LINE + 2));
        HeadIs(d, p, line);
        assert forall other :: HeadAt(d, p, other) ==> other == line;
        BehindVerdict(d, p, line, q);
      }
    }
  }

  lemma {:induction false} HeadIs(d: string, p: nat, line: string)
    requires p < |d| && G.LineAt(d, p + 1, line) && |line| <= 512
    ensures HeadAt(d, p, line)
  {
  }

  lemma {:induction false} BehindVerdict(d: string, p: nat, line: string, q: nat)
    requires p < |d| && HeadAt(d, p, line)
    ensures IsMarker(d[p]) ==> (ParseValue(d, p) == Done(q) <==> ValueBehind(d, p, line, q))
    ensures IsMarker(d[p]) ==> (ParseValue(d, p).Bad? <==> BadBehind(d, p, line))
    ensures !IsMarker(d[p]) ==> !ValueBehind(d, p, line, q)
    decreases |d| - p - 1, 1, 1
  {
    hide ParseInt, HeadAt, ParseValue, ParseBody, ParseElements, ElementsAt, BadElements, ValueBehind, BadBehind;
    if d[p] == '$' {
      BehindBulk(d, p, line, q);
    } else if d[p] == '*' {
      BehindArray(d, p, line, q);
    } else {
      BehindLine(d, p, line, q);
    }
  }

  lemma {:induction false} BehindLine(d: string, p: nat, line: string, q: nat)
    requires p < |d| && HeadAt(d, p, line) && d[p] != '$' && d[p] != '*'
    ensures OneLiner(d[p]) ==> (ParseValue(d, p) == Done(q) <==> ValueBehind(d, p, line, q)) && !ParseValue(d, p).Bad? && !BadBehind(d, p, line)
    ensures !OneLiner(d[p]) ==> !ValueBehind(d, p, line, q)
  {
    Unfold(d, p, line);
    hide ParseInt, HeadAt, ParseValue, ParseBody, ParseElements, ElementsAt, BadElements;
  }

  lemma {:induction false} BehindBulk(d: string, p: nat, line: string, q: nat)
    requires p < |d| && HeadAt(d, p, line) && d[p] == '$'
    ensures ParseValue(d, p) == Done(q) <==> ValueBehind(d, p, line, q)
    ensures ParseValue(d, p).Bad? <==> BadBehind(d, p, line)
  {
    Unfold(d, p, line);
    hide ParseInt, HeadAt, ParseValue, ParseBody, ParseElements, ElementsAt, BadElements;
    if ParseInt(line).Some? && ParseInt(line).value >= 0 {
      BodyVerdict(d, p + 3 + |line|, ParseInt(line).value, q);
    }
  }

  lemma {:induction false} BehindArray(d: string, p: nat, line: string, q: nat)
    requires p < |d| && HeadAt(d, p, line) && d[p] == '*'
    ensures ParseValue(d, p) == Done(q) <==> ValueBehind(d, p, line, q)
    ensures ParseValue(d, p).Bad? <==> BadBehind(d, p, line)
    decreases |d| - p - 1, 1, 0
  {
    hide *;
    Unfold(d, p, line);
    ArrayBehind(d, p, line, q);
    if ParseInt(line).Some? && ParseInt(line).value >= 0 {
      ElementsVerdict(d, p + 3 + |line|, ParseInt(line).value, q);
    }
  }

  lemma {:induction false} ArrayBehind(d: string, p: nat, line: string, q: nat)
    requires p < |d| && d[p] == '*' && p + 3 + |line| <= |d|
    ensures ParseInt(line).None? || ParseInt(line).value < -1 ==> !ValueBehind(d, p, line, q) && BadBehind(d, p, line)
    ensures ParseInt(line).Some? && ParseInt(line).value == -1 ==>
              (ValueBehind(d, p, line, q) <==> q == p + 3 + |line|) && !BadBehind(d, p, line)
    ensures ParseInt(line).Some? && ParseInt(line).value >= 0 ==>
              && (ValueBehind(d, p, line, q) <==> ElementsAt(d, p + 3 + |line|, ParseInt(line).value, q))
              && (BadBehind(d, p, line) <==> BadElements(d, p + 3 + |line|, ParseInt(line).value))
  {
    hide ParseInt, ElementsAt, BadElements;
  }

  lemma {:induction false} BodyVerdict(d: string, start: nat, n: nat, q: nat)
    requires start <= |d|
    ensures ParseBody(d, start, n) == Done(q) <==> q == start + n + 2 && q <= |d| && d[q - 2] == '\r' && d[q - 1] == '\n'
    ensures ParseBody(d, start, n).Bad? <==> start + n + 2 <= |d| && !(d[start + n] == '\r' && d[start + n + 1] == '\n')
  {
  }

  /** The scanner's answer once the line is known. */
  lemma {:induction false} Unfold(d: string, p: nat, line: string)
    requires HeadAt(d, p, line)
    ensures p + 3 + |line| <= |d|
    ensures OneLiner(d[p]) ==> ParseValue(d, p) == Done(p + 3 + |line|)
    ensures (d[p] == '$' || d[p] == '*') ==>
              ParseValue(d, p) == if ParseInt(line).None? || ParseInt(line).value < -1 then Bad
                                  else if ParseInt(line).value == -1 then Done(p + 3 + |line|)
                                  else if d[p] == '$' then ParseBody(d, p + 3 + |line|, ParseInt(line).value)
                                  else ParseElements(d, p + 3 + |line|, ParseInt(line).value)
  {
    HeadFound(d, p, line);
    hide ParseInt, FindCrlf, HeadAt, ParseBody, ParseElements;
  }

  lemma {:induction false} ElementsVerdict(d: string, p: nat, n: nat, q: nat)
    requires p <= |d|
    ensures ParseElements(d, p, n) == Done(q) <==> ElementsAt(d, p, n, q)
    ensures ParseElements(d, p, n).Bad? <==> BadElements(d, p, n)
    decreases |d| - p, n + 2
  {
    hide ParseValue, ValueAt, BadValue;
    if n > 0 {
      var v := ParseValue(d, p);
      ValueVerdict(d, p, 0);
      if v.Done? {
        ValueVerdict(d, p, v.next);
        ElementsVerdict(d, v.next, n - 1, q);
      }
      forall mid | p < mid <= |d| && ValueAt(d, p, mid) ensures v == Done(mid) {
        ValueVerdict(d, p, mid);
      }
    }
  }
}
