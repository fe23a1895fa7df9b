/** Header lines of the Redis serialization protocol: bounded line search and decimal integers. */
module RespLines {
  import opened Options
  import opened Ints
  import opened Spans

  const CRLF: string := "\r\n"

  predicate CrlfAt(d: string, i: nat)
  {
    i + 1 < |d| && d[i] == '\r' && d[i + 1] == '\n'
  }

  /** The first CRLF lying entirely in d[from..end]. */
  function FindCrlf(d: string, from: nat, end: nat): (r: Option<nat>)
    requires end <= |d|
    ensures r.Some? ==> from <= r.value && r.value + 2 <= end && CrlfAt(d, r.value)
    ensures r.Some? ==> forall i :: from <= i < r.value ==> !CrlfAt(d, i)
    ensures r.None? ==> forall i :: from <= i && i + 2 <= end ==> !CrlfAt(d, i)
    decreases end - from
  {
    if from + 1 >= end then None
    else if d[from] == '\r' && d[from + 1] == '\n' then Some(from)
    else FindCrlf(d, from + 1, end)
  }

  method FindCrlfFrom(d: string, from: nat, end: nat) returns (r: Option<nat>)
    requires end <= |d|
    ensures r == FindCrlf(d, from, end)
  {
    var i := from;
    while i + 1 < end
      invariant from <= i && FindCrlf(d, from, end) == FindCrlf(d, i, end)
    {
      if d[i] == '\r' && d[i + 1] == '\n' {
        return Some(i);
      }
      i := i + 1;
    }
    r := None;
  }

  function Min(a: nat, b: nat): nat { if a <= b then a else b }

  /** A line found in a prefix is found, at the same place, in any longer input. */
  lemma FindStable(d: string, e: string, from: nat, limit: nat)
    requires d <= e && FindCrlf(d, from, Min(|d|, limit)).Some?
    ensures FindCrlf(e, from, Min(|e|, limit)) == FindCrlf(d, from, Min(|d|, limit))
  {
    var i := FindCrlf(d, from, Min(|d|, limit)).value;
    assert CrlfAt(e, i);
    assert forall j :: from <= j < i ==> (CrlfAt(e, j) <==> CrlfAt(d, j));
  }

  /** The line that stands at `from` is the one found, if it is short enough and holds no CRLF itself. */
  lemma FindLine(d: string, from: nat, line: string, limit: nat)
    requires HasAt(d, from, line + CRLF) && Clean(line) && from + |line| + 2 <= limit
    ensures FindCrlf(d, from, Min(|d|, limit)) == Some(from + |line|)
  {
    var n := |line|;
    var all := line + CRLF;
    assert all[n] == '\r' && all[n + 1] == '\n';
    assert d[from + n] == all[n] && d[from + n + 1] == all[n + 1];
    assert CrlfAt(d, from + n);
    forall i | from <= i < from + n ensures !CrlfAt(d, i) {
      assert d[from + (i - from)] == all[i - from];
      assert d[from + (i - from + 1)] == all[i - from + 1];
      if i + 1 < from + n {
        assert !CrlfAt(line, i - from);
      }
    }
  }

  ghost predicate Clean(line: string)
  {
    forall i :: 0 <= i < |line| ==> !CrlfAt(line, i)
  }

  // Decimal integers.

  predicate IsDigit(c: char) { '0' <= c <= '9' }

  function DigitValue(c: char): nat
    requires IsDigit(c)
  {
    (c as int) - ('0' as int)
  }

  function DigitChar(n: nat): (c: char)
    requires n < 10
    ensures IsDigit(c) && DigitValue(c) == n
  {
    (n + ('0' as int)) as char
  }

  predicate AllDigits(s: string)
  {
    forall i :: 0 <= i < |s| ==> IsDigit(s[i])
  }

  function NatValue(s: string): nat
    requires AllDigits(s)
    decreases |s|
  {
    if s == "" then 0 else NatValue(s[..|s| - 1]) * 10 + DigitValue(s[|s| - 1])
  }

  /** from_chars over the whole line: an optional minus, at least one digit, nothing else, and a 64-bit value. */
  function ParseInt(s: string): (r: Option<int>)
    ensures r.Some? ==> Int64(r.value)
  {
    var neg := s != "" && s[0] == '-';
    var digits := if neg then s[1..] else s;
    if digits == "" || !AllDigits(digits) then None
    else
      var n: int := NatValue(digits);
      var v := if neg then -n else n;
      if Int64(v) then Some(v) else None
  }

  /** to_string of a non-negative number. */
  function Digits(n: nat): (s: string)
    ensures |s| > 0 && AllDigits(s)
  {
    if n < 10 then [DigitChar(n)] else Digits(n / 10) + [DigitChar(n % 10)]
  }

  function IntText(n: int): string
  {
    if n < 0 then "-" + Digits(-n) else Digits(n)
  }

  lemma {:induction false} DigitsValue(n: nat)
    ensures NatValue(Digits(n)) == n
  {
    if n >= 10 {
      DigitsValue(n / 10);
      assert Digits(n)[..|Digits(n)| - 1] == Digits(n / 10);
    } else {
      assert Digits(n)[..0] == "";
    }
  }

  /** Printing and parsing a 64-bit integer gives it back. */
  lemma ParseIntText(n: int)
    requires Int64(n)
    ensures ParseInt(IntText(n)) == Some(n)
  {
    hide NatValue;
    var a := if n < 0 then -n else n;
    DigitsValue(a);
    var s := IntText(n);
    if n < 0 {
      assert s[1..] == Digits(a);
    } else {
      assert IsDigit(s[0]);
    }
  }

  function Pow10(k: nat): nat { if k == 0 then 1 else 10 * Pow10(k - 1) }

  lemma {:induction false} DigitsLength(n: nat, k: nat)
    requires k > 0 && n < Pow10(k)
    ensures |Digits(n)| <= k
  {
    if n >= 10 {
      assert Pow10(1) == 10;
      DigitsLength(n / 10, k - 1);
    }
  }

  lemma Pow10Eight()
    ensures Pow10(8) == 100_000_000
  {
    assert Pow10(4) == 10_000;
  }

  /** Numbers below a hundred million print in at most eight characters. */
  lemma DigitsShort(n: nat)
    requires n < 100_000_000
    ensures |Digits(n)| <= 8
  {
    Pow10Eight();
    DigitsLength(n, 8);
  }

  lemma Pow10Nineteen()
    ensures Pow10(19) == 10_000_000_000_000_000_000
  {
    assert Pow10(4) == 10_000;
    assert Pow10(8) == 100_000_000;
    assert Pow10(12) == 1_000_000_000_000;
    assert Pow10(16) == 10_000_000_000_000_000;
  }

  /** A 64-bit integer prints in at most twenty characters. */
  lemma IntTextShort(n: int)
    requires Int64(n)
    ensures |IntText(n)| <= 20
  {
    Pow10Nineteen();
    DigitsLength(if n < 0 then -n else n, 19);
  }

  lemma IntTextClean(n: int)
    ensures Clean(IntText(n))
  {
    var s := IntText(n);
    forall i | 0 <= i < |s| ensures s[i] != '\r' {
      if n < 0 && i > 0 {
        assert s[i] == Digits(-n)[i - 1];
        assert IsDigit(s[i]);
      } else if n >= 0 {
        assert IsDigit(s[i]);
      }
    }
  }
}

/** The request parser (src/protocol/resp_parser.cpp). */
module RespParser {
  import opened Options
  import opened RespLines

  const MAX_BULK: nat := 67_108_864
  const MAX_ARRAY: nat := 1_048_576
  const MAX_LINE: nat := 64

  datatype Parsed<+T> = Incomplete | Error | Ok(value: T, next: nat)

  /** A count after a one-character marker: negative and non-numeric lines are errors, so are lines too long. */
  function ParseHeader(d: string, marker: nat, max: nat): (r: Parsed<nat>)
    ensures r.Ok? ==> marker + 3 < r.next <= |d| && r.value <= max
  {
    var from := marker + 1;
    match FindCrlf(d, from, Min(|d|, from + MAX_LINE))
    case None => if |d| >= from + MAX_LINE then Error else Incomplete
    case Some(crlf) =>
      match ParseInt(d[from..crlf])
      case None => Error
      case Some(v) => if v < 0 || v > max then Error else Ok(v, crlf + 2)
  }

  /** n more bulk strings. */
  function ParseArgs(d: string, pos: nat, n: nat): (r: Parsed<seq<string>>)
    requires pos <= |d|
    ensures r.Ok? ==> pos <= r.next <= |d| && |r.value| == n
    decreases n
  {
    if n == 0 then Ok([], pos) else
      match ParseBulk(d, pos)
      case Incomplete => Incomplete
      case Error => Error
      case Ok(arg, mid) =>
        match ParseArgs(d, mid, n - 1)
        case Incomplete => Incomplete
        case Error => Error
        case Ok(args, next) => Ok([arg] + args, next)
  }

  function ParseBulk(d: string, pos: nat): (r: Parsed<string>)
    requires pos <= |d|
    ensures r.Ok? ==> pos < r.next <= |d| && |r.value| <= MAX_BULK
  {
    if pos >= |d| then Incomplete
    else if d[pos] != '$' then Error
    else
      match ParseHeader(d, pos, MAX_BULK)
      case Incomplete => Incomplete
      case Error => Error
      case Ok(len, start) =>
        if |d| < start + len + 2 then Incomplete
        else if d[start + len] != '\r' || d[start + len + 1] != '\n' then Error
        else Ok(d[start..start + len], start + len + 2)
  }

  function ParseCommand(d: string): (r: Parsed<seq<string>>)
    ensures r.Ok? ==> 0 < r.next <= |d|
  {
    if d == "" then Incomplete
    else if d[0] != '*' then Error
    else
      match ParseHeader(d, 0, MAX_ARRAY)
      case Incomplete => Incomplete
      case Error => Error
      case Ok(n, pos) => ParseArgs(d, pos, n)
  }

  // The verdict on a prefix is final.

  lemma HeaderStable(d: string, e: string, marker: nat, max: nat)
    requires d <= e && !ParseHeader(d, marker, max).Incomplete?
    ensures ParseHeader(e, marker, max) == ParseHeader(d, marker, max)
  {
    hide ParseInt, FindCrlf;
    var from := marker + 1;
    var f := FindCrlf(d, from, Min(|d|, from + MAX_LINE));
    if f.Some? {
      FindStable(d, e, from, from + MAX_LINE);
      assert d[from..f.value] == e[from..f.value];
    } else {
      forall i | from <= i && i + 2 <= from + MAX_LINE ensures !CrlfAt(e, i) {
        assert !CrlfAt(d, i);
      }
    }
  }

  lemma BulkStable(d: string, e: string, pos: nat)
    requires d <= e && pos <= |d| && !ParseBulk(d, pos).Incomplete?
    ensures ParseBulk(e, pos) == ParseBulk(d, pos)
  {
    hide ParseHeader;
    if d[pos] == '$' {
      HeaderStable(d, e, pos, MAX_BULK);
      var h := ParseHeader(d, pos, MAX_BULK);
      if h.Ok? {
        assert d[h.next..h.next + h.value] == e[h.next..h.next + h.value];
      }
    }
  }

  lemma {:induction false} ArgsStable(d: string, e: string, pos: nat, n: nat)
    requires d <= e && pos <= |d| && !ParseArgs(d, pos, n).Incomplete?
    ensures ParseArgs(e, pos, n) == ParseArgs(d, pos, n)
    decreases n
  {
    hide ParseBulk;
    if n > 0 {
      BulkStable(d, e, pos);
      if ParseBulk(d, pos).Ok? {
        ArgsStable(d, e, ParseBulk(d, pos).next, n - 1);
      }
    }
  }

  /** An Ok or Error on a prefix is unchanged by more bytes. */
  lemma CommandStable(d: string, e: string)
    requires d <= e && !ParseCommand(d).Incomplete?
    ensures ParseCommand(e) == ParseCommand(d)
  {
    hide ParseHeader, ParseArgs;
    if d[0] == '*' {
      HeaderStable(d, e, 0, MAX_ARRAY);
      var h := ParseHeader(d, 0, MAX_ARRAY);
      if h.Ok? {
        ArgsStable(d, e, h.next, h.value);
      }
    }
  }

  /** Parsing looks at no byte past what it consumes. */
  lemma CommandLocal(d: string)
    requires ParseCommand(d).Ok?
    ensures ParseCommand(d[..ParseCommand(d).next]) == ParseCommand(d)
  {
    hide ParseHeader, ParseArgs;
    var r := ParseCommand(d);
    var c := d[..r.next];
    var h := ParseHeader(d, 0, MAX_ARRAY);
    HeaderLocal(d, 0, MAX_ARRAY, r.next);
    ArgsLocal(d, h.next, h.value, r.next);
  }

  lemma HeaderLocal(d: string, marker: nat, max: nat, k: nat)
    requires ParseHeader(d, marker, max).Ok? && ParseHeader(d, marker, max).next <= k <= |d|
    ensures ParseHeader(d[..k], marker, max) == ParseHeader(d, marker, max)
  {
    hide ParseInt, FindCrlf;
    var c, from := d[..k], marker + 1;
    var crlf := FindCrlf(d, from, Min(|d|, from + MAX_LINE)).value;
    assert CrlfAt(c, crlf);
    assert crlf + 2 <= Min(|c|, from + MAX_LINE);
    assert FindCrlf(c, from, Min(|c|, from + MAX_LINE)).Some?;
    FindStable(c, d, from, from + MAX_LINE);
    assert c[from..crlf] == d[from..crlf];
  }

  lemma {:induction false} ArgsLocal(d: string, pos: nat, n: nat, k: nat)
    requires pos <= |d| && ParseArgs(d, pos, n).Ok? && ParseArgs(d, pos, n).next <= k <= |d|
    ensures ParseArgs(d[..k], pos, n) == ParseArgs(d, pos, n)
    decreases n
  {
    hide ParseBulk;
    if n > 0 {
      var b := ParseBulk(d, pos);
      ArgsLocal(d, b.next, n - 1, k);
      BulkLocal(d, pos, k);
    }
  }

  lemma BulkLocal(d: string, pos: nat, k: nat)
    requires pos <= |d| && ParseBulk(d, pos).Ok? && ParseBulk(d, pos).next <= k <= |d|
    ensures ParseBulk(d[..k], pos) == ParseBulk(d, pos)
  {
    hide ParseHeader;
    HeaderLocal(d, pos, MAX_BULK, k);
    var h := ParseHeader(d, pos, MAX_BULK);
    assert d[..k][h.next..h.next + h.value] == d[h.next..h.next + h.value];
  }

  // The parser's own loop.

  method ReadHeader(d: string, marker: nat, max: nat) returns (r: Parsed<nat>)
    ensures r == ParseHeader(d, marker, max)
  {
    var from := marker + 1;
    var crlf := FindCrlfFrom(d, from, Min(|d|, from + MAX_LINE));
    if crlf.None? {
      return if |d| >= from + MAX_LINE then Error else Incomplete;
    }
    var v := ParseInt(d[from..crlf.value]);
    if v.None? || v.value < 0 || v.value > max {
      return Error;
    }
    r := Ok(v.value, crlf.value + 2);
  }

  method ReadCommand(d: string) returns (r: Parsed<seq<string>>)
    ensures r == ParseCommand(d)
  {
    hide ParseHeader, ParseBulk;
    if d == "" {
      return Incomplete;
    }
    if d[0] != '*' {
      return Error;
    }
    var header := ReadHeader(d, 0, MAX_ARRAY);
    if !header.Ok? {
      return if header.Error? then Error else Incomplete;
    }
    var pos: nat, parsed: seq<string> := header.next, [];
    After([], ParseArgs(d, pos, header.value));
    for i := 0 to header.value
      invariant pos <= |d|
      invariant ParseCommand(d) == Prepend(parsed, ParseArgs(d, pos, header.value - i))
    {
      var bulk := ReadBulk(d, pos);
      if !bulk.Ok? {
        return if bulk.Error? then Error else Incomplete;
      }
      PrependMore(parsed, bulk.value, ParseArgs(d, bulk.next, header.value - i - 1));
      parsed, pos := parsed + [bulk.value], bulk.next;
    }
    assert parsed + [] == parsed;
    r := Ok(parsed, pos);
  }

  method ReadBulk(d: string, pos: nat) returns (r: Parsed<string>)
    requires pos <= |d|
    ensures r == ParseBulk(d, pos)
  {
    hide ParseHeader;
    if pos >= |d| {
      return Incomplete;
    }
    if d[pos] != '$' {
      return Error;
    }
    var header := ReadHeader(d, pos, MAX_BULK);
    if !header.Ok? {
      return if header.Error? then Error else Incomplete;
    }
    var len, start := header.value, header.next;
    if |d| < start + len + 2 {
      return Incomplete;
    }
    if d[start + len] != '\r' || d[start + len + 1] != '\n' {
      return Error;
    }
    r := Ok(d[start..start + len], start + len + 2);
  }

  ghost function Prepend(done: seq<string>, r: Parsed<seq<string>>): Parsed<seq<string>>
  {
    if r.Ok? then r.(value := done + r.value) else r
  }

  lemma After(done: seq<string>, r: Parsed<seq<string>>)
    ensures done == [] ==> Prepend(done, r) == r
  {
    if r.Ok? && done == [] { assert done + r.value == r.value; }
  }

  lemma PrependMore(done: seq<string>, x: string, r: Parsed<seq<string>>)
    ensures r.Ok? ==> Prepend(done, r.(value := [x] + r.value)) == Prepend(done + [x], r)
  {
    if r.Ok? { assert done + ([x] + r.value) == done + [x] + r.value; }
  }
}
