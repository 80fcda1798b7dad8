/** A connection as its reader sees it: a script of reads that may cut the stream anywhere and may fail. */
module Net {
  import opened Bytes

  datatype Fault = NoFault | Eof | Timeout | Broken

  /** One read of the operating system: some bytes, possibly together with an error. */
  datatype ReadEvent = ReadEvent(data: bytes, fault: Fault)

  function Joined(script: seq<ReadEvent>): bytes {
    if script == [] then [] else script[0].data + Joined(script[1..])
  }

  function TotalSize(script: seq<ReadEvent>): nat {
    |Joined(script)| + |script|
  }

  /** Nothing but the end of the stream will be reported. */
  predicate IsClean(script: seq<ReadEvent>) {
    forall e :: e in script ==> e.fault == NoFault
  }

  datatype ReadStep = ReadStep(data: bytes, fault: Fault, rest: seq<ReadEvent>)

  /** A read of at most `max` bytes; a scripted error comes with the last bytes of its event. */
  function NextRead(script: seq<ReadEvent>, max: nat): ReadStep {
    if script == [] then ReadStep([], if max == 0 then NoFault else Eof, [])
    else
      var e := script[0];
      if |e.data| <= max then ReadStep(e.data, e.fault, script[1..])
      else ReadStep(e.data[..max], NoFault, [ReadEvent(e.data[max..], e.fault)] + script[1..])
  }

  /** Reads take bytes off the front, and use up the script unless it is at its end or nothing was asked for. */
  lemma NextReadTakesFront(script: seq<ReadEvent>, max: nat)
    ensures var r := NextRead(script, max);
      && |r.data| <= max
      && Joined(script) == r.data + Joined(r.rest)
      && TotalSize(r.rest) <= TotalSize(script)
      && (r.data != [] || r.fault == Timeout || r.fault == Broken || (r.fault == NoFault && max > 0) ==>
            TotalSize(r.rest) < TotalSize(script))
      && (IsClean(script) ==>
            && IsClean(r.rest)
            && (r.fault == NoFault || (r.fault == Eof && r.data == [] && Joined(r.rest) == [])))
  {
    if script != [] {
      var e := script[0];
      if |e.data| > max {
        var rest := [ReadEvent(e.data[max..], e.fault)] + script[1..];
        assert rest[1..] == script[1..];
        assert e.data == e.data[..max] + e.data[max..];
        assert Joined(script) == e.data[..max] + (e.data[max..] + Joined(script[1..]));
      }
      assert e in script;
    }
  }

  class Conn {
    var script: seq<ReadEvent>
    var sent: bytes

    constructor (script: seq<ReadEvent>)
      ensures this.script == script && sent == []
    {
      this.script, sent := script, [];
    }

    /** What will still be read, however it is cut. */
    function Remaining(): bytes
      reads `script
    {
      Joined(script)
    }

    /** Bounds the number of reads still to come. */
    function Size(): nat
      reads `script
    {
      TotalSize(script)
    }

    predicate Clean()
      reads `script
    {
      IsClean(script)
    }

    method Read(max: nat) returns (data: bytes, fault: Fault)
      modifies `script
      ensures ReadStep(data, fault, script) == NextRead(old(script), max)
      ensures |data| <= max
      ensures old(Remaining()) == data + Remaining()
      ensures Size() <= old(Size())
      ensures data != [] || fault == Timeout || fault == Broken || (fault == NoFault && max > 0) ==> Size() < old(Size())
      ensures old(Clean()) ==>
        && Clean()
        && (fault == NoFault || (fault == Eof && data == [] && Remaining() == []))
    {
      NextReadTakesFront(script, max);
      if script == [] {
        return [], if max == 0 then NoFault else Eof;
      }
      var e := script[0];
      if |e.data| <= max {
        script := script[1..];
        return e.data, e.fault;
      }
      data, fault := e.data[..max], NoFault;
      script := [ReadEvent(e.data[max..], e.fault)] + script[1..];
    }

    /** Passes on a prefix of `p`, all of it unless the write fails. */
    method Write(p: bytes) returns (n: nat, fault: Fault)
      modifies `sent
      ensures n <= |p| && sent == old(sent) + p[..n]
      ensures fault == NoFault ==> n == |p|
    {
      n := *;
      if 0 <= n < |p| {
        fault := Broken;
      } else {
        n, fault := |p|, NoFault;
      }
      sent := sent + p[..n];
    }
  }
}
