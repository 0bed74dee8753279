/** One connection: the socket it owns, the bytes the peer has sent that are
    not read yet, the bytes written so far, the time of the last send, the
    timeout and the two heartbeat strings. */
module Connections {
  import opened Text
  import opened Framing

  /** The socket field: absent (a client before its first connect), a socket
      whose connect failed (it exists and is not closed, but has no streams),
      open, or closed. */
  datatype SocketState = NoSocket | Unconnected | Open | Closed

  const DefaultTimeOut: int := 10_000
  const DefaultHeartbeat: string := "still alive"

  function Min(a: int, b: int): int {
    if a <= b then a else b
  }

  class TdSocket {
    var id: int
    var socket: SocketState
    /** What the input stream has still to deliver. */
    var input: seq<byte>
    /** Everything written to the output stream, in order. */
    var output: seq<byte>
    var lastSentTime: int
    var timeOut: int
    /** The read timeout last set on the socket itself (0: none). */
    var soTimeout: int
    var heartbeatRequest: string
    var heartbeatResponse: string

    ghost predicate Valid()
      reads this
    {
      IsAscii(heartbeatRequest) && IsAscii(heartbeatResponse)
    }

    /** A client-side connection, created before it has a socket. */
    constructor ()
      ensures Valid() && socket == NoSocket && id == 0
      ensures input == [] && output == [] && lastSentTime == 0 && soTimeout == 0
      ensures timeOut == DefaultTimeOut
      ensures heartbeatRequest == DefaultHeartbeat && heartbeatResponse == DefaultHeartbeat
    {
      id, socket, input, output := 0, NoSocket, [], [];
      lastSentTime, timeOut, soTimeout := 0, DefaultTimeOut, 0;
      heartbeatRequest, heartbeatResponse := DefaultHeartbeat, DefaultHeartbeat;
      new;
      assert IsAscii(DefaultHeartbeat) by {
        forall i | 0 <= i < |DefaultHeartbeat| ensures DefaultHeartbeat[i] as int < 128 { }
      }
    }

    /** A connection around a socket the server accepted: open from the start. */
    constructor Accepted(stream: seq<byte>)
      ensures Valid() && socket == Open && id == 0
      ensures input == stream
      ensures output == [] && lastSentTime == 0 && soTimeout == 0
      ensures timeOut == DefaultTimeOut
      ensures heartbeatRequest == DefaultHeartbeat && heartbeatResponse == DefaultHeartbeat
    {
      id, socket, input, output := 0, Open, stream, [];
      lastSentTime, timeOut, soTimeout := 0, DefaultTimeOut, 0;
      heartbeatRequest, heartbeatResponse := DefaultHeartbeat, DefaultHeartbeat;
      new;
      assert IsAscii(DefaultHeartbeat) by {
        forall i | 0 <= i < |DefaultHeartbeat| ensures DefaultHeartbeat[i] as int < 128 { }
      }
    }

    /** "socket != null && !socket.isClosed()": the guard of the reader and
        writer loops and of the close in removeTdSocket. */
    predicate Live()
      reads this
    {
      socket == Open || socket == Unconnected
    }

    /** The client's connect: a fresh socket replaces the old one, so its read
        timeout is unset whatever setTimeOut stored before; peer is what the
        other side will send, or None when the connect fails. */
    method Connect(peer: Option<seq<byte>>) returns (r: Result<()>)
      requires Valid()
      modifies this`socket, this`input, this`output, this`soTimeout
      ensures Valid() && soTimeout == 0
      ensures peer.None? ==> r == Err(ConnectFailed) && socket == Unconnected && Live() && !IsConnect()
      ensures peer.None? ==> input == old(input) && output == old(output)
      ensures peer.Some? ==> r == Ok(()) && socket == Open && IsConnect() && input == peer.value && output == []
    {
      socket, soTimeout := Unconnected, 0;
      if peer.None? {
        return Err(ConnectFailed);
      }
      socket, input, output := Open, peer.value, [];
      return Ok(());
    }

    method GetTimeOut() returns (t: int)
      ensures t == timeOut
    {
      t := timeOut;
    }

    /** Stores the timeout, then hands it to the socket when there is one;
        the socket refuses when it is closed or the value is negative, after
        the field has already changed. */
    method SetTimeOut(t: int) returns (r: Result<()>)
      modifies this`timeOut, this`soTimeout
      ensures timeOut == t
      ensures socket == NoSocket ==> r == Ok(()) && soTimeout == old(soTimeout)
      ensures socket == Closed ==> r == Err(SocketClosed) && soTimeout == old(soTimeout)
      ensures Live() && t < 0 ==> r == Err(NegativeTimeout) && soTimeout == old(soTimeout)
      ensures Live() && t >= 0 ==> r == Ok(()) && soTimeout == t
    {
      timeOut := t;
      if socket == NoSocket {
        return Ok(());
      } else if socket == Closed {
        return Err(SocketClosed);
      } else if t < 0 {
        return Err(NegativeTimeout);
      }
      soTimeout := t;
      return Ok(());
    }

    /** isConnect: a socket that connected and is not closed. */
    predicate IsConnect()
      reads this
    {
      socket == Open
    }

    /** Closing closes the socket there is; without one, nothing changes. */
    method Close()
      modifies this`socket
      ensures socket == if old(socket) == NoSocket then NoSocket else Closed
      ensures !Live() && !IsConnect()
    {
      if socket != NoSocket {
        socket := Closed;
      }
    }

    /** readHeader: reads one byte at a time up to the first newline while the
        socket is open. With no socket, or a closed one, nothing is read and
        the header is empty; a socket without streams cannot be read. */
    method ReadHeader() returns (r: Result<string>)
      requires Valid()
      modifies this`input
      ensures socket == Unconnected ==> r == Err(NotConnected) && input == old(input)
      ensures socket == NoSocket || socket == Closed ==> r == Ok([]) && input == old(input)
      ensures socket == Open ==>
                match ScanHeader(old(input))
                case Ok((h, rest)) => r == Ok(Chars(h)) && input == rest
                case Err(e) => r == Err(e) && input == []
    {
      if socket == Unconnected {
        return Err(NotConnected);
      }
      var header: seq<byte> := [];
      while socket == Open
        invariant old(input) == header + input && NL !in header
        invariant socket != Open ==> header == []
        decreases |input|
      {
        if input == [] {
          assert NL !in old(input);
          return Err(EndOfStream);
        }
        var b := input[0];
        input := input[1..];
        assert old(input) == header + [b] + input;
        if b == NL {
          ScanHeaderOf(header, input);
          return Ok(Chars(header));
        }
        header := header + [b];
      }
      assert header == [] && old(input) == [] + input;
      assert input == old(input);
      assert Chars([]) == [];
      r := Ok([]);
    }

    /** getParameters: stores the key and value of every ';'-separated piece
        that splits on '=' into exactly two fields. */
    static method GetParameters(header: string) returns (m: map<string, string>)
      ensures m == Parameters(header)
    {
      m := map[];
      var parameters := Split(header, ';');
      for i := 0 to |parameters|
        invariant Collect(parameters[i..], m) == Parameters(header)
      {
        assert parameters[i..][1..] == parameters[i + 1..];
        var strs := Split(parameters[i], '=');
        if |strs| != 2 {
          continue;
        }
        m := m[strs[0] := strs[1]];
      }
      assert parameters[|parameters|..] == [];
    }

    /** One read call of the input stream: at the end of the stream it
        returns -1; otherwise it copies into buf from offset off some number
        of bytes between 1 and len, no more than the stream holds, and says
        how many. Which number is left open, as InputStream leaves it. */
    method Read(buf: array<byte>, off: nat, len: nat) returns (n: int)
      requires Valid() && len >= 1 && off + len <= buf.Length
      modifies this`input, buf
      ensures old(input) == [] ==> n == -1 && input == [] && buf[..] == old(buf[..])
      ensures old(input) != [] ==>
                && 1 <= n <= Min(len, |old(input)|)
                && input == old(input)[n..]
                && (forall k :: 0 <= k < buf.Length && !(off <= k < off + n) ==> buf[k] == old(buf[k]))
                && (forall k :: 0 <= k < n ==> buf[off + k] == old(input)[k])
    {
      if input == [] {
        return -1;
      }
      n :| 1 <= n <= len && n <= |input|;
      forall k | off <= k < off + n {
        buf[k] := input[k - off];
      }
      input := input[n..];
    }

    /** readMessage: reads the header, looks up its length, then reads
        exactly that many bytes, however the stream splits them up. */
    method ReadMessage() returns (r: Result<seq<byte>>)
      requires Valid()
      modifies this`input
      ensures socket == Open ==> r == DecodeFrame(old(input)).result && input == DecodeFrame(old(input)).rest
      ensures socket == Unconnected ==> r == Err(NotConnected) && input == old(input)
      ensures socket == NoSocket || socket == Closed ==> r == Err(MissingLength) && input == old(input)
    {
      var header := ReadHeader();
      if header.Err? {
        return Err(header.error);
      }
      var params := GetParameters(header.value);
      if socket == NoSocket || socket == Closed {
        assert Split([], ';') == [[]] && Split([], '=') == [[]];
      }
      if LengthKey !in params {
        return Err(MissingLength);
      }
      var lengthStr := params[LengthKey];
      var parsed := ParseInt(lengthStr);
      if parsed.None? {
        return Err(BadLength(lengthStr));
      }
      var contentLen := parsed.value;
      if contentLen < 1 {
        return Err(EmptyContent);
      }
      r := ReadContent(contentLen);
    }

    /** The payload loop of readMessage: repeated read calls until
        contentLen bytes have arrived. */
    method ReadContent(contentLen: int) returns (r: Result<seq<byte>>)
      requires Valid() && contentLen >= 1
      modifies this`input
      ensures |old(input)| < contentLen ==> r == Err(EndOfStream) && input == []
      ensures |old(input)| >= contentLen ==>
                r == Ok(old(input)[..contentLen]) && input == old(input)[contentLen..]
    {
      var result := new byte[contentLen];
      var readSize := 0;
      while readSize < contentLen
        invariant 0 <= readSize <= contentLen && readSize <= |old(input)|
        invariant input == old(input)[readSize..]
        invariant forall k :: 0 <= k < readSize ==> result[k] == old(input)[k]
        decreases contentLen - readSize
      {
        var len := Read(result, readSize, contentLen - readSize);
        if len < 0 {
          return Err(EndOfStream);
        }
        readSize := readSize + len;
      }
      assert result[..] == old(input)[..contentLen];
      return Ok(result[..]);
    }

    /** sendMessage: records the send time, then writes the header
        `length=<n>` and a newline, then the message itself. */
    method SendMessage(message: seq<byte>, now: int) returns (r: Result<()>)
      modifies this`lastSentTime, this`output
      ensures lastSentTime == now
      ensures socket == Open ==> r == Ok(()) && output == old(output) + EncodeFrame(message)
      ensures socket != Open ==> r == Err(NotConnected) && output == old(output)
    {
      lastSentTime := now;
      if socket != Open {
        return Err(NotConnected);
      }
      EncodeFrameParts(message);
      var key := LengthKey + "=";
      var digits := Decimal(|message|);
      ghost var sent := Bytes(key);
      output := output + Bytes(key);
      output := output + Bytes(digits);
      assert output == old(output) + (sent + Bytes(digits));
      sent := sent + Bytes(digits);
      output := output + [NL];
      assert output == old(output) + (sent + [NL]);
      sent := sent + [NL];
      output := output + message;
      assert output == old(output) + (sent + message);
      return Ok(());
    }
  }
}
