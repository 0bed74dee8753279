/** The wire protocol of one connection: a text header made of `key=value`
    pieces separated by ';' and terminated by a newline byte, followed by
    exactly `length` payload bytes. Only the `length` key is read. */
module Framing {
  import opened Text

  const NL: byte := 10
  const LengthKey: string := "length"

  /** Why a read or a write failed. */
  datatype Error =
    | EndOfStream              // the input ended ("read return -1")
    | MissingLength            // "failed to parse the protocol header"
    | BadLength(text: string)  // Integer.parseInt refused the length value
    | EmptyContent             // "empty content": a length below 1
    | NotConnected             // reading or writing a socket without streams
    | ConnectFailed            // the client's connect was refused
    | SocketClosed             // setSoTimeout on a closed socket
    | NegativeTimeout          // setSoTimeout with a negative value

  datatype Result<T> = Ok(value: T) | Err(error: Error)

  // ---------------------------------------------------------------------
  // Header reader

  /** What readHeader does to an open stream: the bytes before the first
      newline are the header, the newline is consumed and dropped, the rest
      stays unread; a stream that ends before any newline is an error. */
  function ScanHeader(s: seq<byte>): (r: Result<(seq<byte>, seq<byte>)>)
    ensures r.Ok? <==> NL in s
    ensures r.Err? ==> r.error == EndOfStream
    ensures r.Ok? ==> s == r.value.0 + [NL] + r.value.1 && NL !in r.value.0
  {
    if s == [] then Err(EndOfStream)
    else if s[0] == NL then
      assert s == [] + [NL] + s[1..];
      Ok(([], s[1..]))
    else
      match ScanHeader(s[1..])
      case Err(e) => Err(e)
      case Ok((h, rest)) =>
        assert s == [s[0]] + h + [NL] + rest by { assert s == [s[0]] + s[1..]; }
        Ok(([s[0]] + h, rest))
  }

  /** The header is everything up to the FIRST newline. */
  lemma {:induction false} ScanHeaderOf(h: seq<byte>, rest: seq<byte>)
    requires NL !in h
    ensures ScanHeader(h + [NL] + rest) == Ok((h, rest))
  {
    var s := h + [NL] + rest;
    if h == [] {
      assert s[1..] == rest;
    } else {
      assert s[1..] == h[1..] + [NL] + rest;
      ScanHeaderOf(h[1..], rest);
      assert [h[0]] + h[1..] == h;
    }
  }

  // ---------------------------------------------------------------------
  // Header parser

  /** The key and value one header piece defines: only a piece that splits
      on '=' into exactly two fields defines one. */
  function Entry(piece: string): Option<(string, string)> {
    var fields := Split(piece, '=');
    if |fields| == 2 then Some((fields[0], fields[1])) else None
  }

  predicate Defines(piece: string, k: string) {
    Entry(piece).Some? && Entry(piece).value.0 == k
  }

  /** The map after storing the entries of pieces into m, in order. */
  function Collect(pieces: seq<string>, m: map<string, string>): map<string, string> {
    if pieces == [] then m
    else
      var m' := match Entry(pieces[0]) case Some((k, v)) => m[k := v] case None => m;
      Collect(pieces[1..], m')
  }

  /** getParameters: the entries of the ';'-separated pieces of the header. */
  function Parameters(header: string): map<string, string> {
    Collect(Split(header, ';'), map[])
  }

  /** Collect keeps k exactly when m or some piece has it. */
  lemma {:induction false} CollectHas(pieces: seq<string>, m: map<string, string>, k: string)
    ensures k in Collect(pieces, m) <==>
              k in m || exists i :: 0 <= i < |pieces| && Defines(pieces[i], k)
  {
    if pieces != [] {
      var tail := pieces[1..];
      var m' := match Entry(pieces[0]) case Some((key, v)) => m[key := v] case None => m;
      CollectHas(tail, m', k);
      if exists i :: 0 <= i < |tail| && Defines(tail[i], k) {
        var i :| 0 <= i < |tail| && Defines(tail[i], k);
        assert Defines(pieces[i + 1], k);
      }
      if exists i :: 0 <= i < |pieces| && Defines(pieces[i], k) {
        var i :| 0 <= i < |pieces| && Defines(pieces[i], k);
        if i > 0 { assert Defines(tail[i - 1], k); }
      }
    }
  }

  /** With no piece defining k, Collect leaves m's value for k alone. */
  lemma {:induction false} CollectUntouched(pieces: seq<string>, m: map<string, string>, k: string)
    requires forall i :: 0 <= i < |pieces| ==> !Defines(pieces[i], k)
    requires k in m
    ensures k in Collect(pieces, m) && Collect(pieces, m)[k] == m[k]
  {
    if pieces != [] {
      var tail := pieces[1..];
      var m' := match Entry(pieces[0]) case Some((key, v)) => m[key := v] case None => m;
      assert !Defines(pieces[0], k);
      forall j | 0 <= j < |tail| ensures !Defines(tail[j], k) {
        assert tail[j] == pieces[j + 1];
      }
      CollectUntouched(tail, m', k);
    }
  }

  /** The value of the last piece that defines k wins. */
  lemma {:induction false} CollectLast(pieces: seq<string>, m: map<string, string>, k: string, i: nat)
    requires i < |pieces| && Defines(pieces[i], k)
    requires forall j :: i < j < |pieces| ==> !Defines(pieces[j], k)
    ensures k in Collect(pieces, m) && Collect(pieces, m)[k] == Entry(pieces[i]).value.1
  {
    var tail := pieces[1..];
    var m' := match Entry(pieces[0]) case Some((key, v)) => m[key := v] case None => m;
    forall j | i - 1 < j < |tail| ensures !Defines(tail[j], k) {
      assert tail[j] == pieces[j + 1];
    }
    if i > 0 {
      assert tail[i - 1] == pieces[i];
      CollectLast(tail, m', k, i - 1);
    } else {
      CollectUntouched(tail, m', k);
    }
  }

  /** getParameters finds a key exactly when some piece of the header defines
      it, and a later piece overrides an earlier one. */
  lemma ParametersLookup(header: string, k: string)
    ensures k in Parameters(header) <==>
              exists i :: 0 <= i < |Split(header, ';')| && Defines(Split(header, ';')[i], k)
    ensures forall i :: 0 <= i < |Split(header, ';')| && Defines(Split(header, ';')[i], k) &&
                        (forall j :: i < j < |Split(header, ';')| ==> !Defines(Split(header, ';')[j], k)) ==>
              k in Parameters(header) && Parameters(header)[k] == Entry(Split(header, ';')[i]).value.1
  {
    var pieces := Split(header, ';');
    CollectHas(pieces, map[], k);
    forall i | 0 <= i < |pieces| && Defines(pieces[i], k) &&
               (forall j :: i < j < |pieces| ==> !Defines(pieces[j], k))
      ensures k in Parameters(header) && Parameters(header)[k] == Entry(pieces[i]).value.1
    {
      CollectLast(pieces, map[], k, i);
    }
  }

  /** The header the encoder writes for a payload of n bytes. */
  function Header(n: nat): (h: string)
    ensures IsAscii(h)
    ensures h == LengthKey + "=" + Decimal(n)
  {
    var h := LengthKey + "=" + Decimal(n);
    assert forall i :: 0 <= i < |h| ==> h[i] as int < 128 by {
      forall i | 0 <= i < |h| ensures h[i] as int < 128 {
        if i >= 7 { assert h[i] == Decimal(n)[i - 7]; }
      }
    }
    h
  }

  /** The encoder's header defines exactly the length, and nothing else. */
  lemma HeaderParameters(n: nat)
    ensures Parameters(Header(n)) == map[LengthKey := Decimal(n)]
  {
    var h := Header(n);
    var d := Decimal(n);
    assert ';' !in h by {
      forall i | 7 <= i < |h| ensures h[i] != ';' { assert h[i] == d[i - 7]; }
    }
    assert '=' !in d by {
      forall i | 0 <= i < |d| ensures d[i] != '=' { assert IsDigit(d[i]); }
    }
    SplitPair(LengthKey, d);
    assert Entry(h) == Some((LengthKey, d));
    assert Split(h, ';') == [h];
    assert Collect([h], map[]) == Collect([], map[LengthKey := d]);
  }

  // ---------------------------------------------------------------------
  // Frame decoder

  /** The payload length a header announces, as readMessage checks it. */
  function ContentLength(header: seq<byte>): (r: Result<int>)
    ensures r.Ok? ==> 1 <= r.value <= MaxInt
    ensures r == Err(MissingLength) <==> LengthKey !in Parameters(Chars(header))
    ensures r.Err? && r.error.BadLength? ==> ParseInt(r.error.text).None?
    ensures var p := Parameters(Chars(header));
            LengthKey in p && ParseInt(p[LengthKey]).None? ==> r == Err(BadLength(p[LengthKey]))
    ensures var p := Parameters(Chars(header));
            LengthKey in p && ParseInt(p[LengthKey]).Some? && ParseInt(p[LengthKey]).value < 1 ==> r == Err(EmptyContent)
    ensures var p := Parameters(Chars(header));
            LengthKey in p && ParseInt(p[LengthKey]).Some? && ParseInt(p[LengthKey]).value >= 1 ==> r == Ok(ParseInt(p[LengthKey]).value)
    ensures r.Ok? ==> ParseInt(Parameters(Chars(header))[LengthKey]) == Some(r.value)
  {
    var params := Parameters(Chars(header));
    if LengthKey !in params then Err(MissingLength)
    else match ParseInt(params[LengthKey])
      case None => Err(BadLength(params[LengthKey]))
      case Some(n) => if n < 1 then Err(EmptyContent) else Ok(n)
  }

  /** The outcome of one readMessage, with the input it leaves unread. */
  datatype Decoded = Decoded(result: Result<seq<byte>>, rest: seq<byte>)

  /** readMessage on an open stream s. On success the payload is exactly the
      announced number of bytes, the ones right after the header's newline. */
  function DecodeFrame(s: seq<byte>): (d: Decoded)
    ensures d.result.Ok? ==>
              && ScanHeader(s).Ok?
              && ContentLength(ScanHeader(s).value.0) == Ok(|d.result.value|)
              && ScanHeader(s).value.1 == d.result.value + d.rest
    ensures d.result.Ok? ==> 1 <= |d.result.value| <= MaxInt && |d.rest| < |s|
    ensures d.result == Err(EndOfStream) ==> d.rest == []
    ensures |d.rest| <= |s|
  {
    match ScanHeader(s)
    case Err(e) => Decoded(Err(e), [])
    case Ok((header, after)) =>
      match ContentLength(header)
      case Err(e) => Decoded(Err(e), after)
      case Ok(n) => TakePayload(n, after)
  }

  /** The payload loop of readMessage on the bytes after the header: the
      next n of them, or the end of the stream when fewer arrive. */
  function TakePayload(n: nat, after: seq<byte>): (d: Decoded)
    ensures d.result.Ok? <==> n <= |after|
    ensures d.result.Ok? ==> |d.result.value| == n && after == d.result.value + d.rest
    ensures d.result.Err? ==> d == Decoded(Err(EndOfStream), [])
  {
    if |after| < n then Decoded(Err(EndOfStream), [])
    else
      assert after == after[..n] + after[n..];
      Decoded(Ok(after[..n]), after[n..])
  }

  /** When readMessage fails: a stream without a newline ends before the
      header does; a header whose length is missing, malformed or below 1 is
      refused with the rest left unread; a valid length decodes exactly when
      that many bytes follow the newline. */
  lemma DecodeFrameOutcome(s: seq<byte>)
    ensures ScanHeader(s).Err? ==> DecodeFrame(s) == Decoded(Err(EndOfStream), [])
    ensures ScanHeader(s).Ok? ==>
              var (header, after) := ScanHeader(s).value;
              && (ContentLength(header).Err? ==> DecodeFrame(s) == Decoded(Err(ContentLength(header).error), after))
              && (ContentLength(header).Ok? ==> (DecodeFrame(s).result.Ok? <==> ContentLength(header).value <= |after|))
  {
  }

  // ---------------------------------------------------------------------
  // Frame encoder

  /** The bytes sendMessage writes for message m. */
  function EncodeFrame(m: seq<byte>): seq<byte> {
    Bytes(Header(|m|)) + [NL] + m
  }

  /** The header reader finds exactly the header `length=<|m|>` in a frame,
      and the message follows its newline. */
  lemma EncodeFrameHeader(m: seq<byte>)
    ensures ScanHeader(EncodeFrame(m)) == Ok((Bytes(Header(|m|)), m))
  {
    HeaderBytesNoNewline(|m|);
    ScanHeaderOf(Bytes(Header(|m|)), m);
  }

  /** The concatenated frames of a series of messages, in order. */
  function EncodeAll(msgs: seq<seq<byte>>): seq<byte> {
    if msgs == [] then [] else EncodeFrame(msgs[0]) + EncodeAll(msgs[1..])
  }

  lemma HeaderBytesNoNewline(n: nat)
    ensures NL !in Bytes(Header(n))
  {
    var h := Header(n);
    forall i | 0 <= i < |h| ensures Bytes(h)[i] != NL {
      if i >= 7 { assert h[i] == Decimal(n)[i - 7]; }
    }
  }

  /** The frame is the four writes of sendMessage, in order: the key and
      '=', the decimal length, the newline, the message. */
  lemma EncodeFrameParts(m: seq<byte>)
    ensures IsAscii(LengthKey + "=") && IsAscii(Decimal(|m|))
    ensures EncodeFrame(m) == Bytes(LengthKey + "=") + Bytes(Decimal(|m|)) + [NL] + m
  {
    var key, digits := LengthKey + "=", Decimal(|m|);
    assert Header(|m|) == key + digits;
    assert IsAscii(key) by {
      assert forall i :: 0 <= i < |key| ==> key[i] == Header(|m|)[i];
    }
    BytesAppend(key, digits);
  }

  /** Round trip: decoding a frame written for a non-empty payload returns
      that payload and leaves whatever followed it unread. */
  lemma DecodeEncode(m: seq<byte>, rest: seq<byte>)
    requires 1 <= |m| <= MaxInt
    ensures DecodeFrame(EncodeFrame(m) + rest) == Decoded(Ok(m), rest)
  {
    var h := Bytes(Header(|m|));
    assert EncodeFrame(m) + rest == h + [NL] + (m + rest);
    HeaderBytesNoNewline(|m|);
    ScanHeaderOf(h, m + rest);
    CharsOfBytes(Header(|m|));
    HeaderParameters(|m|);
    ParseDecimal(|m|);
    assert (m + rest)[..|m|] == m && (m + rest)[|m|..] == rest;
  }

  /** The encoder accepts an empty payload, but the decoder always refuses
      the frame it produces. */
  lemma EmptyFrameRejected(rest: seq<byte>)
    ensures DecodeFrame(EncodeFrame([]) + rest).result == Err(EmptyContent)
  {
    var h := Bytes(Header(0));
    assert EncodeFrame([]) + rest == h + [NL] + rest;
    HeaderBytesNoNewline(0);
    ScanHeaderOf(h, rest);
    CharsOfBytes(Header(0));
    HeaderParameters(0);
    ParseDecimal(0);
  }
}
