/** Splitting the received byte stream into frames, and handing them to the read handler. */
module TcpSocket {
  import opened Bytes
  import opened DoipMessage
  import opened Options

  /** A frame as it stands in the stream: its length field counts the bytes after the header. */
  predicate WellFormed(frame: seq<byte>) {
    |frame| > 8 && BigEndian(frame[4..8]) == |frame| - 8
  }

  function Concat(frames: seq<seq<byte>>): seq<byte> {
    if frames == [] then [] else frames[0] + Concat(frames[1..])
  }

  /** What one blocking read of `n` bytes leaves in a buffer of `n` zeroes when the peer then closes. */
  function Filled(stream: seq<byte>, n: nat): seq<byte> {
    if |stream| >= n then stream[..n] else Resize(stream, n)
  }

  function Dropped(stream: seq<byte>, n: nat): seq<byte> {
    if |stream| >= n then stream[n..] else []
  }

  /** The frames the reading loop hands over until its first failing read. */
  function Delivered(stream: seq<byte>): seq<seq<byte>>
    decreases |stream|
  {
    if |stream| < HEADER_SIZE || PayloadLength(stream) == 0 then []
    else
      var n := HEADER_SIZE + PayloadLength(stream);
      [Filled(stream, n)] + Delivered(Dropped(stream, n))
  }

  lemma DeliveredFirst(stream: seq<byte>)
    requires |stream| >= HEADER_SIZE && PayloadLength(stream) != 0
    ensures var n := HEADER_SIZE + PayloadLength(stream);
            && Delivered(stream) == [Filled(stream, n)] + Delivered(Dropped(stream, n))
            && |Dropped(stream, n)| < |stream|
  {
  }

  lemma AppendOne<T>(s: seq<T>, x: T, t: seq<T>)
    ensures (s + [x]) + t == s + ([x] + t)
  {
  }

  /** Two ways to write one sequence as a front and a back. */
  lemma Prefix<T>(s: seq<T>, d: seq<T>, s': seq<T>, d': seq<T>)
    requires s' + d' == s + d && |s'| >= |s|
    ensures s' == s + d[..|s'| - |s|]
  {
    assert (s' + d')[..|s'|] == s';
    assert (s + d)[..|s'|] == s + d[..|s'| - |s|];
  }

  class TcpSocket {
    /** The bytes the peer still sends before it closes the connection. */
    var stream: seq<byte>

    constructor (stream: seq<byte>)
      ensures this.stream == stream
    {
      this.stream := stream;
    }

    /** Fills part of a buffer from the stream; fails at the end of the stream. */
    method ReadInto(buffer: seq<byte>, from: nat) returns (filled: seq<byte>, ok: bool)
      requires from <= |buffer|
      modifies this
      ensures |filled| == |buffer| && filled[..from] == buffer[..from]
      ensures ok <==> |old(stream)| >= |buffer| - from
      ensures stream == Dropped(old(stream), |buffer| - from)
      ensures forall i :: from <= i < |buffer| ==>
                filled[i] == if i - from < |old(stream)| then old(stream)[i - from] else buffer[i]
    {
      var n := |buffer| - from;
      if |stream| >= n {
        filled := buffer[..from] + stream[..n];
        ok := true;
        stream := stream[n..];
      } else {
        filled := buffer[..from] + stream + buffer[from + |stream|..];
        ok := false;
        stream := [];
      }
    }

    /** Header first, then as many bytes as it announces; the second read is not checked for errors. */
    method Read() returns (result: Option<seq<byte>>)
      modifies this
      ensures result.None? <==> |old(stream)| < HEADER_SIZE || PayloadLength(old(stream)) == 0
      ensures result.None? ==> stream == Dropped(old(stream), HEADER_SIZE)
      ensures result.Some? ==>
                var n := HEADER_SIZE + PayloadLength(old(stream));
                result.value == Filled(old(stream), n) && stream == Dropped(old(stream), n)
    {
      var rxBuffer := Resize([], HEADER_SIZE);
      var ok;
      rxBuffer, ok := ReadInto(rxBuffer, 0);
      if ok {
        assert rxBuffer == old(stream)[..HEADER_SIZE];
        var readNextBytes := U32FromBytes(rxBuffer[4], rxBuffer[5], rxBuffer[6], rxBuffer[7]);
        if readNextBytes != 0 {
          rxBuffer := Resize(rxBuffer, HEADER_SIZE + readNextBytes);
          rxBuffer, ok := ReadInto(rxBuffer, HEADER_SIZE);
          assert rxBuffer == Filled(old(stream), HEADER_SIZE + readNextBytes);
          return Some(rxBuffer);
        }
      }
      result := None;
    }
  }

  class TcpConnection {
    const socket: TcpSocket
    var running: bool
    /** The frames given to the read handler, in order. */
    var handled: seq<seq<byte>>

    constructor (socket: TcpSocket)
      ensures this.socket == socket && !running && handled == []
    {
      this.socket, running, handled := socket, false, [];
    }

    method ReadMessage() returns (ok: bool)
      modifies this`handled, socket
      ensures ok <==> |old(socket.stream)| >= HEADER_SIZE && PayloadLength(old(socket.stream)) != 0
      ensures handled + (if ok then Delivered(socket.stream) else [])
              == old(handled) + Delivered(old(socket.stream))
      ensures |handled| == |old(handled)| + if ok then 1 else 0
    {
      ghost var stream := socket.stream;
      var message := socket.Read();
      if message.Some? {
        handled := handled + [message.value];
        DeliveredFirst(stream);
        AppendOne(old(handled), message.value, Delivered(socket.stream));
      }
      ok := message.Some?;
    }

    /** The reading loop of the worker on one connection, stopped from outside after some number of reads. */
    method ReadConnection(stopAfter: nat)
      requires running
      modifies this, socket
      ensures var d := Delivered(old(socket.stream));
              && handled == old(handled) + (if stopAfter < |d| then d[..stopAfter] else d)
              && (running <==> stopAfter <= |d|)
    {
      ghost var d := Delivered(socket.stream);
      var count := 0;
      while running && count < stopAfter
        invariant handled + (if running then Delivered(socket.stream) else []) == old(handled) + d
        invariant running ==> count <= stopAfter && |handled| == |old(handled)| + count
        invariant !running ==> |d| < stopAfter
        decreases stopAfter - count
      {
        running := ReadMessage();
        count := count + 1;
      }
      if running { Prefix(old(handled), d, handled, Delivered(socket.stream)); }
    }
  }

  /** One well-formed frame is split off exactly. */
  lemma FirstFrame(frame: seq<byte>, tail: seq<byte>)
    requires WellFormed(frame)
    ensures Delivered(frame + tail) == [frame] + Delivered(tail)
  {
    var stream := frame + tail;
    assert PayloadLength(stream) == |frame| - HEADER_SIZE by {
      HeaderFields(frame);
      SameHeader(frame, stream);
    }
    assert stream[..|frame|] == frame && stream[|frame|..] == tail;
  }

  /** Any list of well-formed frames comes back from the stream in order, followed by what the tail gives. */
  lemma {:induction false} FramesComeBack(frames: seq<seq<byte>>, tail: seq<byte>)
    requires forall f :: f in frames ==> WellFormed(f)
    ensures Delivered(Concat(frames) + tail) == frames + Delivered(tail)
  {
    if frames == [] {
      assert Concat(frames) + tail == tail;
    } else {
      var stream := Concat(frames[1..]) + tail;
      assert Concat(frames) + tail == frames[0] + stream by { ConcatFirst(frames, tail); }
      assert Delivered(stream) == frames[1..] + Delivered(tail) by { FramesComeBack(frames[1..], tail); }
      assert Delivered(frames[0] + stream) == [frames[0]] + Delivered(stream) by { FirstFrame(frames[0], stream); }
      Regroup(frames, Delivered(tail));
    }
  }

  lemma ConcatFirst(frames: seq<seq<byte>>, tail: seq<byte>)
    requires frames != []
    ensures Concat(frames) + tail == frames[0] + (Concat(frames[1..]) + tail)
  {
  }

  lemma Regroup<T>(s: seq<T>, t: seq<T>)
    requires s != []
    ensures [s[0]] + (s[1..] + t) == s + t
  {
  }

  lemma NothingAnnounced(stream: seq<byte>)
    requires |stream| >= HEADER_SIZE && stream[4..HEADER_SIZE] == [0, 0, 0, 0]
    ensures Delivered(stream) == []
  {
    assert PayloadLength(stream) == 0 by {
      var field := stream[4..HEADER_SIZE];
      assert field[0] == 0 && field[1] == 0 && field[2] == 0 && field[3] == 0;
    }
  }

  /** A header that announces no bytes ends delivery, whatever follows it. */
  lemma {:induction false} ZeroLengthStops(frames: seq<seq<byte>>, typeFields: seq<byte>, tail: seq<byte>)
    requires forall f :: f in frames ==> WellFormed(f)
    requires |typeFields| == 4
    ensures Delivered(Concat(frames) + (typeFields + [0, 0, 0, 0] + tail)) == frames
  {
    var rest := typeFields + [0, 0, 0, 0] + tail;
    NothingAnnounced(rest);
    FramesComeBack(frames, rest);
    assert frames + [] == frames;
  }

  /**
   * A peer that closes inside a frame: the complete frames are handed over, and after them, if the
   * whole header got through, the cut frame filled up with zeroes.
   */
  lemma {:induction false} CutStream(frames: seq<seq<byte>>, whole: nat, cut: seq<byte>)
    requires forall f :: f in frames ==> WellFormed(f)
    requires whole < |frames| && cut < frames[whole]
    ensures var d := Delivered(Concat(frames[..whole]) + cut);
            && frames[..whole] <= d && |d| <= whole + 1
            && (|d| == whole + 1 <==> |cut| >= HEADER_SIZE)
            && (|d| == whole + 1 ==> d[whole] == Resize(cut, |frames[whole]|))
  {
    forall f | f in frames[..whole] ensures WellFormed(f) {
      assert f in frames;
    }
    FramesComeBack(frames[..whole], cut);
    var f := frames[whole];
    assert f in frames && WellFormed(f);
    if |cut| >= HEADER_SIZE {
      assert PayloadLength(cut) == |f| - HEADER_SIZE by {
        HeaderFields(f);
        SameHeader(f[..|cut|], f);
      }
      assert Delivered([]) == [];
    }
  }
}
