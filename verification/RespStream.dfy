/** Byte buffers with a read cursor (src/net/buffer.cpp). */
module Buffers {
  class Buffer {
    var data: string
    var readPos: nat
    var writeMark: nat

    ghost predicate Valid()
      reads this
    {
      readPos <= |data|
    }

    /** What has been appended and not yet consumed. */
    ghost function Contents(): string
      requires Valid()
      reads this
    {
      data[readPos..]
    }

    constructor ()
      ensures Valid() && Contents() == ""
    {
      data, readPos, writeMark := "", 0, 0;
    }

    method Readable() returns (s: string)
      requires Valid()
      ensures s == Contents()
    {
      s := data[readPos..];
    }

    method Size() returns (n: nat)
      requires Valid()
      ensures n == |Contents()|
    {
      n := |data| - readPos;
    }

    /** Drops the consumed bytes once they are more than half of the allocation, whatever that is. */
    method MaybeCompact()
      requires Valid()
      modifies this
      ensures Valid() && Contents() == old(Contents())
    {
      if readPos == 0 {
        return;
      }
      var capacity: nat :| capacity >= |data|;
      if readPos > capacity / 2 {
        data, readPos := data[readPos..], 0;
      }
    }

    method Append(s: string)
      requires Valid()
      modifies this
      ensures Valid() && Contents() == old(Contents()) + s
    {
      MaybeCompact();
      data := data + s;
    }

    method Consume(n: nat)
      requires Valid() && n <= |Contents()|
      modifies this
      ensures Valid() && Contents() == old(Contents())[n..]
    {
      readPos := readPos + n;
      if readPos == |data| {
        Clear();
      }
    }

    method Clear()
      modifies this
      ensures Valid() && Contents() == ""
    {
      data, readPos := "", 0;
    }

    /** Reserves n zeroed bytes behind the contents. */
    method PrepareWrite(n: nat)
      requires Valid()
      modifies this
      ensures Valid() && readPos <= writeMark && |data| == writeMark + n && data[readPos..writeMark] == old(Contents())
    {
      MaybeCompact();
      writeMark := |data|;
      data := data + seq(n, _ => '\0');
    }

    /** What recv does to the reserved bytes. */
    method Fill(bytes: string)
      requires readPos <= writeMark && writeMark + |bytes| <= |data|
      modifies this`data
      ensures |data| == old(|data|) && data[..writeMark] == old(data[..writeMark]) && data[writeMark..writeMark + |bytes|] == bytes
    {
      data := data[..writeMark] + bytes + data[writeMark + |bytes|..];
    }

    /** Gives back the part of the reservation that was not written. */
    method CommitWritten(n: nat)
      requires readPos <= writeMark && writeMark + n <= |data|
      modifies this`data
      ensures Valid() && Contents() == old(data[readPos..writeMark + n])
    {
      data := data[..writeMark + n];
    }

    /** One recv of at most `chunk` bytes: exactly the received bytes are added. */
    method Receive(bytes: string, chunk: nat)
      requires Valid() && |bytes| <= chunk
      modifies this
      ensures Valid() && Contents() == old(Contents()) + bytes
    {
      PrepareWrite(chunk);
      ghost var before := data[readPos..writeMark];
      Fill(bytes);
      assert data[readPos..writeMark] == data[..writeMark][readPos..] == before;
      assert data[readPos..writeMark + |bytes|] == data[readPos..writeMark] + data[writeMark..writeMark + |bytes|];
      CommitWritten(|bytes|);
    }
  }
}

/** A connection's input side: recv, buffer, parse, dispatch (src/net/server.cpp). */
module RespStream {
  import opened RespParser
  import opened Buffers

  type Command = seq<string>

  /** Why parsing stopped: it waits for more bytes, met a protocol error, ran a command that closes, or the unparsed
      input exceeded its limit. */
  datatype End = Open | Malformed | Closing | OverLimit

  datatype Outcome = Outcome(cmds: seq<Command>, rest: string, end: End)

  /** Reference: parsing a whole stream at once. */
  function Run(d: string, closes: Command -> bool): Outcome
    decreases |d|
  {
    match ParseCommand(d)
    case Incomplete => Outcome([], d, Open)
    case Error => Outcome([], d, Malformed)
    case Ok(argv, n) =>
      if argv == [] then Run(d[n..], closes)
      else if closes(argv) then Outcome([argv], d[n..], Closing)
      else Then([argv], Run(d[n..], closes))
  }

  function Then(cmds: seq<Command>, o: Outcome): Outcome
  {
    o.(cmds := cmds + o.cmds)
  }

  lemma ThenThen(a: seq<Command>, b: seq<Command>, o: Outcome)
    ensures Then(a, Then(b, o)) == Then(a + b, o)
  {
    assert a + (b + o.cmds) == a + b + o.cmds;
  }

  lemma ThenNothing(o: Outcome)
    ensures Then([], o) == o
  {
    assert [] + o.cmds == o.cmds;
  }

  /** Cutting a stream anywhere: what the first part yields stays, and parsing goes on from what it left over. */
  lemma {:induction false} RunSplit(d: string, e: string, closes: Command -> bool)
    ensures Run(d, closes).end.Open? ==> Run(d + e, closes) == Then(Run(d, closes).cmds, Run(Run(d, closes).rest + e, closes))
    ensures !Run(d, closes).end.Open? ==> Run(d + e, closes) == Run(d, closes).(rest := Run(d, closes).rest + e)
    decreases |d|
  {
    hide ParseCommand;
    var r := ParseCommand(d);
    assert d <= d + e;
    if r.Incomplete? {
      ThenNothing(Run(d + e, closes));
    } else {
      CommandStable(d, d + e);
      if r.Ok? {
        Remainder(d, e, r.next);
        RunSplit(d[r.next..], e, closes);
        var o := Run(d[r.next..], closes);
        ThenThen([r.value], o.cmds, Run(o.rest + e, closes));
      }
    }
  }

  lemma Remainder(d: string, e: string, n: nat)
    requires n <= |d|
    ensures (d + e)[n..] == d[n..] + e
  {
  }

  const CHUNK: nat := 16384

  class Connection {
    const input: Buffer
    const closes: Command -> bool
    const limit: nat
    /** Every command dispatched so far. */
    var log: seq<Command>
    var end: End
    /** Every byte received so far. */
    ghost var stream: string

    ghost predicate Valid()
      reads this, input
    {
      && input.Valid()
      && (!end.OverLimit? ==> Run(stream, closes) == Outcome(log, input.Contents(), end))
      && (end.OverLimit? ==> log <= Run(stream, closes).cmds)
    }

    constructor (closes: Command -> bool, limit: nat)
      ensures Valid() && log == [] && end.Open? && stream == "" && fresh(input)
      ensures this.closes == closes && this.limit == limit
    {
      this.closes, this.limit := closes, limit;
      input := new Buffer();
      log, end, stream := [], Open, "";
    }

    /** process(): dispatches every complete command in the buffer. */
    method Process()
      requires input.Valid() && end.Open? && Run(stream, closes) == Then(log, Run(input.Contents(), closes))
      modifies this`log, this`end, input
      ensures Valid() && !end.OverLimit?
    {
      hide ParseCommand;
      while true
        invariant input.Valid() && end.Open? && Run(stream, closes) == Then(log, Run(input.Contents(), closes))
        decreases |input.Contents()|
      {
        var readable := input.Readable();
        var r := ReadCommand(readable);
        if r.Incomplete? {
          return;
        }
        if r.Error? {
          end := Malformed;
          return;
        }
        input.Consume(r.next);
        if r.value != [] {
          ThenThen(log, [r.value], Run(input.Contents(), closes));
          log := log + [r.value];
          if closes(r.value) {
            end := Closing;
            return;
          }
        }
      }
    }

    method ReceiveAll(received: seq<string>)
      requires input.Valid() && forall i :: 0 <= i < |received| ==> |received[i]| <= CHUNK
      modifies input
      ensures input.Valid() && input.Contents() == old(input.Contents()) + Joined(received, |received|)
    {
      for i := 0 to |received|
        invariant input.Valid() && input.Contents() == old(input.Contents()) + Joined(received, i)
      {
        input.Receive(received[i], CHUNK);
      }
    }

    /** handle_read(): one wakeup's recv calls, the limit check, then process(). */
    method HandleRead(received: seq<string>)
      requires Valid() && end.Open? && forall i :: 0 <= i < |received| ==> |received[i]| <= CHUNK
      modifies this`log, this`end, this`stream, input
      ensures Valid() && stream == old(stream) + Joined(received, |received|)
      ensures end.OverLimit? ==> log == old(log) && |input.Contents()| > limit
    {
      hide Run;
      ReceiveAll(received);
      ghost var more := Joined(received, |received|);
      RunSplit(stream, more, closes);
      stream := stream + more;
      var size := input.Size();
      if size > limit {
        end := OverLimit;
        return;
      }
      Process();
    }
  }

  ghost function Joined(parts: seq<string>, n: nat): string
    requires n <= |parts|
  {
    if n == 0 then "" else Joined(parts, n - 1) + parts[n - 1]
  }

  ghost function Whole(wakeups: seq<seq<string>>, n: nat): string
    requires n <= |wakeups|
  {
    if n == 0 then "" else Whole(wakeups, n - 1) + Joined(wakeups[n - 1], |wakeups[n - 1]|)
  }

  /** However a stream is cut into recv results and wakeups, the commands dispatched are those of the whole stream;
      exceeding the input limit can only cut the sequence short. A closing connection is not read any more. */
  method Serve(wakeups: seq<seq<string>>, closes: Command -> bool, limit: nat) returns (log: seq<Command>, end: End)
    requires forall i, j :: 0 <= i < |wakeups| && 0 <= j < |wakeups[i]| ==> |wakeups[i][j]| <= CHUNK
    ensures var whole := Run(Whole(wakeups, |wakeups|), closes);
            && log <= whole.cmds
            && (!end.OverLimit? ==> log == whole.cmds && end == whole.end)
  {
    hide Run;
    var c := new Connection(closes, limit);
    for i := 0 to |wakeups|
      invariant c.Valid() && c.closes == closes && fresh(c) && fresh(c.input)
      invariant c.end.Open? ==> c.stream == Whole(wakeups, i)
      invariant !c.end.OverLimit? ==> Run(Whole(wakeups, i), closes).cmds == c.log && Run(Whole(wakeups, i), closes).end == c.end
      invariant c.log <= Run(Whole(wakeups, i), closes).cmds
    {
      RunSplit(Whole(wakeups, i), Joined(wakeups[i], |wakeups[i]|), closes);
      if c.end.Open? {
        c.HandleRead(wakeups[i]);
      }
    }
    log, end := c.log, c.end;
  }
}
