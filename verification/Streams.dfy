/**
 * The stream operations the file loops use, with their status flags. Data that a stream
 * can still deliver ends either at end of file or at a device fault; a sink accepts a
 * limited number of bytes before it fails.
 */
module Streams {
  import opened ByteStrings

  /** What reading can still obtain: `bytes`, then end of file or (`fault`) a device error. */
  datatype Source = Source(bytes: Bytes, fault: bool)

  /** An input stream with `std::istream`'s three status bits. */
  class InputStream {
    const data: Bytes
    const broken: bool
    var pos: nat
    var eof: bool
    var fail: bool
    var bad: bool

    constructor (data: Bytes, broken: bool)
      ensures Valid() && Good() && pos == 0
      ensures this.data == data && this.broken == broken
    {
      this.data, this.broken := data, broken;
      pos, eof, fail, bad := 0, false, false, false;
    }

    ghost predicate Valid()
      reads this
    {
      pos <= |data|
    }

    ghost predicate Good()
      reads this
    {
      !eof && !fail && !bad
    }

    ghost function Rest(): Bytes
      reads this
      requires Valid()
    {
      data[pos..]
    }

    /** What a seal obtains: a stream already at end of file counts as empty input. */
    ghost function SealSource(): Source
      reads this
      requires Valid()
    {
      if Good() then Source(Rest(), broken) else Source([], !eof)
    }

    /** What an open obtains: here the bad bit is looked at even at end of file. */
    ghost function OpenSource(): Source
      reads this
      requires Valid()
    {
      if Good() then Source(Rest(), broken) else Source([], bad || !eof)
    }

    /**
     * `read` followed by `gcount`. A stream that is not good delivers nothing; a device
     * fault sets the bad bit and delivers nothing; end of file delivers what is left.
     */
    method Read(buffer: array<byte>, n: nat) returns (count: nat)
      requires Valid() && n <= buffer.Length
      modifies this`pos, this`eof, this`fail, this`bad, buffer
      ensures Valid() && count <= n
      ensures !old(Good()) ==>
                count == 0 && fail && pos == old(pos) && eof == old(eof) && bad == old(bad)
      ensures old(Good()) && n <= |old(Rest())| ==>
                Good() && count == n && pos == old(pos) + n
      ensures old(Good()) && n > |old(Rest())| && broken ==>
                bad && !eof && count == 0
      ensures old(Good()) && n > |old(Rest())| && !broken ==>
                eof && fail && !bad && count == |old(Rest())|
      ensures old(Good()) ==> buffer[..count] == old(Rest())[..count]
    {
      if eof || fail || bad {
        fail := true;
        return 0;
      }
      var available := |data| - pos;
      if n <= available {
        count := n;
      } else if broken {
        bad := true;
        return 0;
      } else {
        count := available;
        eof, fail := true, true;
      }
      forall k | 0 <= k < count {
        buffer[k] := data[pos + k];
      }
      pos := pos + count;
    }

    /** `peek`: whether the next character is end of file; looking may set a status bit. */
    method Peek() returns (atEnd: bool)
      requires Valid()
      modifies this`eof, this`fail, this`bad
      ensures !old(Good()) ==> atEnd && fail && eof == old(eof) && bad == old(bad)
      ensures old(Good()) && old(Rest()) != [] ==> !atEnd && Good()
      ensures old(Good()) && old(Rest()) == [] ==> atEnd && bad == broken && eof == !broken && !fail
    {
      if eof || fail || bad {
        fail := true;
        return true;
      }
      if pos < |data| {
        return false;
      }
      if broken {
        bad := true;
      } else {
        eof := true;
      }
      return true;
    }

    /** Fills the first `n` cells, or reports a short input (`Ok(false)`) or a failed read. */
    method ReadExact(buffer: array<byte>, n: nat) returns (r: Result<bool>)
      requires Valid() && n <= buffer.Length
      modifies this`pos, this`eof, this`fail, this`bad, buffer
      ensures Valid()
      ensures var source := old(OpenSource());
              if n == 0 && !old(Good()) then r == Ok(true)
              else if n <= |source.bytes| then
                r == Ok(true) && Good() && OpenSource() == Source(source.bytes[n..], source.fault)
                && buffer[..n] == source.bytes[..n]
              else if source.fault then r == Err(BackendFailure)
              else r == Ok(false)
    {
      var count := Read(buffer, n);
      if count == n {
        return Ok(true);
      }
      if bad || (!eof && fail) {
        return Err(BackendFailure);
      }
      return Ok(false);
    }

    /** Succeeds exactly when the stream ends here, and ends properly. */
    method RejectTrailingData() returns (r: Result<()>)
      requires Valid() && Good()
      modifies this`pos, this`eof, this`fail, this`bad
      ensures Valid()
      ensures r == if old(Rest()) != [] then Err(InvalidPacket)
                   else if broken then Err(BackendFailure) else Ok(())
    {
      var trailing := new byte[1];
      var count := Read(trailing, 1);
      if count != 0 {
        return Err(InvalidPacket);
      }
      if bad || (!eof && fail) {
        return Err(BackendFailure);
      }
      return Ok(());
    }
  }

  /** A sink: what it holds, how many more bytes it takes (`None`: no limit), and whether it has failed. */
  datatype Sink = Sink(bytes: Bytes, room: Option<nat>, failed: bool) {
    /** A write that does not fit leaves what fits behind and fails the sink for good. */
    function Write(part: Bytes): Sink {
      if failed then this
      else match room
        case None => this.(bytes := bytes + part)
        case Some(n) =>
          if |part| <= n then Sink(bytes + part, Some(n - |part|), false)
          else Sink(bytes + part[..n], Some(0), true)
    }
  }

  class OutputStream {
    var bytes: Bytes
    var room: Option<nat>
    var failed: bool

    constructor (room: Option<nat>)
      ensures State() == Sink([], room, false)
    {
      bytes, this.room, failed := [], room, false;
    }

    function State(): Sink
      reads this
    {
      Sink(bytes, room, failed)
    }

    method WriteAll(part: Bytes) returns (r: Result<()>)
      modifies this
      ensures State() == old(State()).Write(part)
      ensures r == if State().failed then Err(BackendFailure) else Ok(())
    {
      if !failed {
        match room {
          case None =>
            bytes := bytes + part;
          case Some(n) =>
            if |part| <= n {
              bytes, room := bytes + part, Some(n - |part|);
            } else {
              bytes, room, failed := bytes + part[..n], Some(0), true;
            }
        }
      }
      if failed {
        return Err(BackendFailure);
      }
      return Ok(());
    }
  }

  // ---------------------------------------------------------------- runs against a sink

  datatype Outcome = Done | Failed(error: ErrorCode)

  /** The writes a payload loop attempts, in order, and how it ends when all of them succeed. */
  datatype Run = Run(writes: seq<Bytes>, outcome: Outcome)

  datatype Finished = Finished(sink: Sink, outcome: Outcome)

  /** Performs a run's writes on a sink; the first write that fails ends the run. */
  function Execute(s: Sink, r: Run): Finished
    decreases |r.writes|
  {
    if r.writes == [] then Finished(s, r.outcome)
    else
      var t := s.Write(r.writes[0]);
      if t.failed then Finished(t, Failed(BackendFailure))
      else Execute(t, Run(r.writes[1..], r.outcome))
  }

  /** Against any sink the bytes added are a prefix of the run's output, and all of it unless a write failed. */
  lemma {:induction false} ExecuteAddsPrefix(s: Sink, r: Run)
    ensures var end := Execute(s, r);
            && s.bytes <= end.sink.bytes <= s.bytes + Concat(r.writes)
            && (end.outcome == Done ==> r.outcome == Done && end.sink.bytes == s.bytes + Concat(r.writes))
            && (end.outcome == Failed(BackendFailure)
                || (end.outcome == r.outcome && end.sink.bytes == s.bytes + Concat(r.writes)))
    decreases |r.writes|
  {
    if r.writes != [] {
      var t := s.Write(r.writes[0]);
      var rest := Run(r.writes[1..], r.outcome);
      ExecuteAddsPrefix(t, rest);
      assert Concat(r.writes) == r.writes[0] + Concat(rest.writes);
      if !t.failed {
        assert t.bytes + Concat(rest.writes) == s.bytes + Concat(r.writes);
      } else if !s.failed {
        var n := s.room.value;
        assert t.bytes == (s.bytes + Concat(r.writes))[..|s.bytes| + n];
      }
    }
  }

  /** A sink that does not fail receives the whole output. */
  lemma {:induction false} ExecuteUnlimited(s: Sink, r: Run)
    requires !s.failed && s.room == None
    ensures Execute(s, r) == Finished(s.(bytes := s.bytes + Concat(r.writes)), r.outcome)
    decreases |r.writes|
  {
    if r.writes != [] {
      ExecuteUnlimited(s.Write(r.writes[0]), Run(r.writes[1..], r.outcome));
      assert s.bytes + Concat(r.writes) == s.bytes + r.writes[0] + Concat(r.writes[1..]);
    }
  }

  /** Performing the first write of a run and going on is performing the run. */
  lemma {:induction false} ExecuteStep(s: Sink, part: Bytes, rest: seq<Bytes>, outcome: Outcome)
    ensures var t := s.Write(part);
            Execute(s, Run([part] + rest, outcome))
            == if t.failed then Finished(t, Failed(BackendFailure)) else Execute(t, Run(rest, outcome))
  {
    assert ([part] + rest)[1..] == rest;
  }
}
