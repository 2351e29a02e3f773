/**
 Byte streams. A socket delivers what the peer sent in pieces of its own choosing; a read returns at
 most one piece. `PrefixedStream` replays the peeked bytes before it reads from the socket.
 */
module Streams {
  import opened Basics

  /** What a read meets once every byte that arrives has been read: end of stream, or a failure or timeout. */
  datatype Ending = Eof | Broken

  datatype IoError = UnexpectedEof | ReadFailed | WriteFailed

  /** A connection with the fragmentation forgotten. Writes fail after `writesLeft` more of them. */
  datatype Wire = Wire(input: seq<byte>, ending: Ending, sent: seq<byte>, writesLeft: nat)

  function EndError(ending: Ending): IoError {
    match ending
    case Eof => UnexpectedEof
    case Broken => ReadFailed
  }

  /** Reading exactly `n` bytes; a short stream is drained by the attempt. */
  function Take(w: Wire, n: nat): (Result<seq<byte>, IoError>, Wire) {
    if n <= |w.input| then (Ok(w.input[..n]), w.(input := w.input[n..]))
    else (Err(EndError(w.ending)), w.(input := []))
  }

  function Put(w: Wire, bytes: seq<byte>): (Result<(), IoError>, Wire) {
    if w.writesLeft == 0 then (Err(WriteFailed), w)
    else (Ok(()), w.(sent := w.sent + bytes, writesLeft := w.writesLeft - 1))
  }

  ghost predicate Arriving(pieces: seq<seq<byte>>) {
    forall i :: 0 <= i < |pieces| ==> pieces[i] != []
  }

  class TcpStream {
    var arrivals: seq<seq<byte>>
    const ending: Ending
    var sent: seq<byte>
    var writesLeft: nat

    ghost predicate Valid()
      reads this
    {
      Arriving(arrivals)
    }

    ghost function View(): Wire
      reads this
    {
      Wire(Concat(arrivals), ending, sent, writesLeft)
    }

    constructor (arrivals: seq<seq<byte>>, ending: Ending, writesLeft: nat)
      requires Arriving(arrivals)
      ensures Valid() && View() == Wire(Concat(arrivals), ending, [], writesLeft)
    {
      this.arrivals, this.ending := arrivals, ending;
      this.sent, this.writesLeft := [], writesLeft;
    }

    /** At least one byte, unless the stream has ended or no room was offered. */
    method Read(n: nat) returns (r: Result<seq<byte>, IoError>)
      requires Valid()
      modifies this
      ensures Valid()
      ensures match r
              case Ok(bytes) =>
                && |bytes| <= n
                && old(View()) == View().(input := bytes + View().input)
                && (bytes == [] && n > 0 ==> View().input == [] && ending.Eof?)
              case Err(e) =>
                && e == ReadFailed && n > 0 && old(View()) == View() && View().input == [] && ending.Broken?
    {
      if n == 0 {
        return Ok([]);
      }
      if arrivals == [] {
        return if ending.Eof? then Ok([]) else Err(ReadFailed);
      }
      var piece := arrivals[0];
      if |piece| <= n {
        arrivals := arrivals[1..];
        return Ok(piece);
      }
      arrivals := [piece[n..]] + arrivals[1..];
      assert piece == piece[..n] + piece[n..];
      assert arrivals[1..] == old(arrivals)[1..];
      return Ok(piece[..n]);
    }

    method WriteAll(bytes: seq<byte>) returns (r: Result<(), IoError>)
      modifies this
      ensures arrivals == old(arrivals)
      ensures (r, View()) == Put(old(View()), bytes)
    {
      if writesLeft == 0 {
        return Err(WriteFailed);
      }
      sent, writesLeft := sent + bytes, writesLeft - 1;
      return Ok(());
    }
  }

  class PrefixedStream {
    const prefix: seq<byte>
    var cursor: nat
    const stream: TcpStream

    ghost predicate Valid()
      reads this, stream
    {
      cursor <= |prefix| && stream.Valid()
    }

    /** Everything the reader has yet to see, peeked bytes first. */
    ghost function View(): Wire
      requires Valid()
      reads this, stream
    {
      stream.View().(input := prefix[cursor..] + stream.View().input)
    }

    constructor (stream: TcpStream, prefix: seq<byte>)
      requires stream.Valid()
      ensures Valid() && this.stream == stream
      ensures View() == stream.View().(input := prefix + stream.View().input)
    {
      this.stream, this.prefix, this.cursor := stream, prefix, 0;
    }

    method Read(n: nat) returns (r: Result<seq<byte>, IoError>)
      requires Valid()
      modifies this, stream
      ensures Valid()
      ensures match r
              case Ok(bytes) =>
                && |bytes| <= n
                && old(View()) == View().(input := bytes + View().input)
                && (bytes == [] && n > 0 ==> View().input == [] && View().ending.Eof?)
              case Err(e) =>
                && e == ReadFailed && n > 0 && old(View()) == View() && View().input == [] && View().ending.Broken?
    {
      if cursor < |prefix| && n > 0 {
        var available := prefix[cursor..];
        var count := if |available| < n then |available| else n;
        cursor := cursor + count;
        assert available == available[..count] + prefix[cursor..];
        return Ok(available[..count]);
      }
      r := stream.Read(n);
    }

    /** However the bytes are fragmented, this is `Take` on the whole stream. */
    method ReadExact(n: nat) returns (r: Result<seq<byte>, IoError>)
      requires Valid()
      modifies this, stream
      ensures Valid()
      ensures (r, View()) == Take(old(View()), n)
    {
      ghost var start := View();
      var buf := [];
      while |buf| < n
        invariant Valid() && |buf| <= n
        invariant start == View().(input := buf + View().input)
        decreases n - |buf|
      {
        var got := Read(n - |buf|);
        if got.Err? {
          return Err(got.error);
        }
        if got.value == [] {
          return Err(UnexpectedEof);
        }
        Assoc(buf, got.value, View().input);
        buf := buf + got.value;
      }
      FrontAndBack(buf, View().input);
      return Ok(buf);
    }

    method WriteAll(bytes: seq<byte>) returns (r: Result<(), IoError>)
      requires Valid()
      modifies stream
      ensures Valid()
      ensures (r, View()) == Put(old(View()), bytes)
    {
      r := stream.WriteAll(bytes);
    }
  }
}
