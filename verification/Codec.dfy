/**
  What the program assumes of zlib.

  The compressor, the decompressor and the checksum are foreign code. They are a record of functions that
  every result is stated for all values of: a decompressor is an automaton that reads one byte at a time
  and knows when it has reached the end of the compressed body; a checksum is folded over the bytes. The two
  assumptions about them, `Inverts` and `CrcIs32Bit`, are hypotheses of the results that need them.
 */
module Codec {
  import opened Bytes
  import opened Numbers

  /** The parameters that a compressing stream was set up with. */
  datatype DeflateParams = DeflateParams(level: int, windowBits: int, memLevel: int, noHeader: bool)

  datatype Move<S> = Fail | Go(next: S, out: seq<byte>)

  datatype Codec<!S> = Codec(
    start: bool -> S,
    step: (S, byte) -> Move<S>,
    ended: S -> bool,
    deflate: (DeflateParams, seq<byte>) -> seq<byte>,
    crcByte: (nat, byte) -> nat)

  // ---- Decompression, with no limit on the room for output

  /** The fate of some input: it is refused, it is used up, or the body ends after `used` bytes. */
  datatype Fate<S> =
    | Refused(out: seq<byte>)
    | Running(state: S, out: seq<byte>)
    | Ended(state: S, used: nat, out: seq<byte>)

  function Later<S>(k: nat, out: seq<byte>, f: Fate<S>): (r: Fate<S>) {
    match f
    case Refused(o) => Refused(out + o)
    case Running(s, o) => Running(s, out + o)
    case Ended(s, used, o) => Ended(s, k + used, out + o)
  }

  function Feed<S>(c: Codec<S>, state: S, input: seq<byte>): (f: Fate<S>)
    ensures f.Ended? ==> f.used <= |input| && c.ended(f.state)
    ensures f.Running? ==> !c.ended(f.state)
  {
    if c.ended(state) then Ended(state, 0, [])
    else if input == [] then Running(state, [])
    else match c.step(state, input[0])
      case Fail => Refused([])
      case Go(next, out) => Later(1, out, Feed(c, next, input[1..]))
  }

  /** All of `input` was read and took the automaton to `to`; it may or may not have just ended. */
  predicate Reads<S(==)>(c: Codec<S>, state: S, input: seq<byte>, to: S, out: seq<byte>) {
    var f := Feed(c, state, input);
    f == Running(to, out) || f == Ended(to, |input|, out)
  }

  lemma LaterLater<S>(j: nat, k: nat, a: seq<byte>, b: seq<byte>, f: Fate<S>)
    ensures Later(j, a, Later(k, b, f)) == Later(j + k, a + b, f)
  {
    assert a + (b + f.out) == (a + b) + f.out;
  }

  lemma LaterNone<S>(f: Fate<S>)
    ensures Later(0, [], f) == f
  {
    assert [] + f.out == f.out;
  }

  /** Input that was read completely is followed by whatever comes next. */
  lemma {:induction false} FeedOn<S>(c: Codec<S>, state: S, input: seq<byte>, to: S, out: seq<byte>, more: seq<byte>)
    requires Reads(c, state, input, to, out)
    ensures Feed(c, state, input + more) == Later(|input|, out, Feed(c, to, more))
    decreases |input|
  {
    if input == [] {
      assert input + more == more;
      LaterNone(Feed(c, to, more));
    } else {
      var Go(next, o) := c.step(state, input[0]);
      var rest := Feed(c, next, input[1..]);
      assert out == o + rest.out;
      FeedOn(c, next, input[1..], to, rest.out, more);
      assert (input + more)[1..] == input[1..] + more;
      LaterLater(1, |input| - 1, o, rest.out, Feed(c, to, more));
    }
  }

  /** A verdict that has been reached stands, whatever follows. */
  lemma {:induction false} FeedSettled<S>(c: Codec<S>, state: S, input: seq<byte>, more: seq<byte>)
    requires !Feed(c, state, input).Running?
    ensures Feed(c, state, input + more) == Feed(c, state, input)
    decreases |input|
  {
    if !c.ended(state) {
      assert (input + more)[1..] == input[1..] + more;
      match c.step(state, input[0])
      case Fail =>
      case Go(next, _) => FeedSettled(c, next, input[1..], more);
    }
  }

  // ---- The inflate call, with limited room

  /** A decompressing stream: the automaton, output it has not yet found room for, and the number of
      bytes it has delivered since it was reset. */
  datatype InflateStream<S> = InflateStream(state: S, pending: seq<byte>, totalOut: nat)

  datatype Stop = Failed | AtEnd | Starved | Full

  datatype Pumped<S> = Pumped(stop: Stop, used: nat, out: seq<byte>, state: S, pending: seq<byte>)

  /** Runs the automaton until it fails, ends, has no input or has no room. */
  function Pump<S>(c: Codec<S>, state: S, pending: seq<byte>, input: seq<byte>, room: nat): (r: Pumped<S>)
    ensures r.used <= |input| && |r.out| <= room
    decreases |input|
  {
    if room < |pending| then Pumped(Full, 0, pending[..room], state, pending[room..])
    else if c.ended(state) then Pumped(AtEnd, 0, pending, state, [])
    else if input == [] then Pumped(Starved, 0, pending, state, [])
    else match c.step(state, input[0])
      case Fail => Pumped(Failed, 0, pending, state, [])
      case Go(next, out) =>
        var r := Pump(c, next, out, input[1..], room - |pending|);
        r.(used := r.used + 1, out := pending + r.out)
  }

  /** With room for everything, the pump does what `Feed` says. */
  lemma {:induction false} PumpFits<S>(c: Codec<S>, state: S, pending: seq<byte>, input: seq<byte>, room: nat)
    requires |pending| + |Feed(c, state, input).out| <= room
    ensures Pump(c, state, pending, input, room) ==
            match Feed(c, state, input)
            case Refused(o) =>
              var r := Pump(c, state, pending, input, room);
              Pumped(Failed, r.used, pending + o, r.state, [])
            case Running(s, o) => Pumped(Starved, |input|, pending + o, s, [])
            case Ended(s, used, o) => Pumped(AtEnd, used, pending + o, s, [])
    decreases |input|
  {
    if !c.ended(state) && input != [] {
      match c.step(state, input[0])
      case Fail => assert pending + [] == pending;
      case Go(next, out) =>
        PumpFits(c, next, out, input[1..], room - |pending|);
    } else {
      assert pending + [] == pending;
    }
  }

  /** Without it, the pump stops for lack of room; it has then read a stretch of the input and holds back
      the output that did not fit. */
  lemma {:induction false} PumpFull<S>(c: Codec<S>, state: S, pending: seq<byte>, input: seq<byte>, room: nat)
    requires |pending| + |Feed(c, state, input).out| > room
    ensures var r := Pump(c, state, pending, input, room);
            && r.stop == Full && |r.out| == room && r.pending != []
            && exists out ::
                 && Reads(c, state, input[..r.used], r.state, out)
                 && pending + out == r.out + r.pending
    decreases |input|
  {
    if room < |pending| {
      assert input[..0] == [];
      assert Reads(c, state, [], state, []);
      assert pending + [] == pending[..room] + pending[room..];
    } else {
      var Go(next, o) := c.step(state, input[0]);
      PumpFull(c, next, o, input[1..], room - |pending|);
      PumpedOneMore(c, state, pending, input, room, next, o);
    }
  }

  lemma PumpedOneMore<S>(c: Codec<S>, state: S, pending: seq<byte>, input: seq<byte>, room: nat, next: S, o: seq<byte>)
    requires |pending| <= room && !c.ended(state) && input != [] && c.step(state, input[0]) == Go(next, o)
    requires var r' := Pump(c, next, o, input[1..], room - |pending|);
             exists out' :: Reads(c, next, input[1..][..r'.used], r'.state, out') && o + out' == r'.out + r'.pending
    ensures var r := Pump(c, state, pending, input, room);
            exists out :: Reads(c, state, input[..r.used], r.state, out) && pending + out == r.out + r.pending
  {
    var r := Pump(c, state, pending, input, room);
    var r' := Pump(c, next, o, input[1..], room - |pending|);
    var out' :| Reads(c, next, input[1..][..r'.used], r'.state, out') && o + out' == r'.out + r'.pending;
    assert input[..r.used][1..] == input[1..][..r'.used];
    ReadsOneMore(c, state, input[..r.used], r.state, next, o, out');
    assert pending + (o + out') == r.out + r.pending;
  }

  lemma ReadsOneMore<S>(c: Codec<S>, state: S, input: seq<byte>, to: S, next: S, o: seq<byte>, out: seq<byte>)
    requires input != [] && !c.ended(state) && c.step(state, input[0]) == Go(next, o)
    requires Reads(c, next, input[1..], to, out)
    ensures Reads(c, state, input, to, o + out)
  {
  }

  datatype ZCode = Z_OK | Z_STREAM_END | Z_BUF_ERROR | Z_DATA_ERROR | Z_MEM_ERROR | Z_VERSION_ERROR

  datatype Inflated<S> = Inflated(code: ZCode, used: nat, out: seq<byte>, stream: InflateStream<S>)

  /** inflate: a call that makes no progress, or that was to finish and did not, is a buffer error. */
  function Inflate<S>(c: Codec<S>, st: InflateStream<S>, input: seq<byte>, room: nat, finish: bool): (r: Inflated<S>)
    ensures r.used <= |input| && |r.out| <= room
  {
    var r := Pump(c, st.state, st.pending, input, room);
    var code :=
      match r.stop
      case Failed => Z_DATA_ERROR
      case AtEnd => Z_STREAM_END
      case _ => if finish || (r.used == 0 && r.out == []) then Z_BUF_ERROR else Z_OK;
    Inflated(code, r.used, r.out, InflateStream(r.state, r.pending, st.totalOut + |r.out|))
  }

  /** deflate with Z_FINISH, for a whole message: all of it is written, or what there is room for. */
  function Deflate<S>(c: Codec<S>, p: DeflateParams, data: seq<byte>, room: nat): (r: (ZCode, seq<byte>))
    ensures |r.1| <= room
  {
    var body := c.deflate(p, data);
    if |body| <= room then (Z_STREAM_END, body) else (Z_OK, body[..room])
  }

  // ---- The checksum

  /** crc32(crc, data): foreign, but folded over the bytes. */
  function Crc<S>(c: Codec<S>, crc: nat, data: seq<byte>): (r: nat)
    decreases |data|
  {
    if data == [] then crc else Crc(c, c.crcByte(crc, data[0]), data[1..])
  }

  lemma {:induction false} CrcAppend<S>(c: Codec<S>, crc: nat, a: seq<byte>, b: seq<byte>)
    ensures Crc(c, crc, a + b) == Crc(c, Crc(c, crc, a), b)
    decreases |a|
  {
    if a == [] {
      assert a + b == b;
    } else {
      CrcAppend(c, c.crcByte(crc, a[0]), a[1..], b);
      assert (a + b)[1..] == a[1..] + b;
    }
  }

  /** Checksums are 32-bit values. */
  ghost predicate CrcIs32Bit<S(!new)>(c: Codec<S>) {
    forall crc: nat, b: byte :: c.crcByte(crc, b) < TWO_TO_32
  }

  lemma {:induction false} CrcBound<S(!new)>(c: Codec<S>, crc: nat, data: seq<byte>)
    requires CrcIs32Bit(c) && crc < TWO_TO_32
    ensures Crc(c, crc, data) < TWO_TO_32
    decreases |data|
  {
    if data != [] {
      CrcBound(c, c.crcByte(crc, data[0]), data[1..]);
    }
  }

  // ---- The assumption that ties the two directions together

  /** Decompressing what was compressed gives it back and ends exactly at its end. */
  ghost predicate Inverts<S(!new)>(c: Codec<S>) {
    forall p: DeflateParams, data: seq<byte> ::
      var body := c.deflate(p, data);
      var f := Feed(c, c.start(p.noHeader), body);
      f.Ended? && f.used == |body| && f.out == data
  }

  // ---- The assumptions can be met

  /** Every byte behind a one, and a zero at the end. */
  function Stored(data: seq<byte>): (body: seq<byte>) {
    if data == [] then [0] else [1, data[0]] + Stored(data[1..])
  }

  /** Reads such a body: state zero is between two bytes, one is before a byte, two is the end. */
  const STORED: Codec<nat> :=
    Codec(
      noHeader => 0,
      (s, b) => if s == 1 then Go(0, [b]) else if b == 0 then Go(2, []) else Go(1, []),
      s => s == 2,
      (p, data) => Stored(data),
      (crc, b) => 0)

  lemma {:induction false} StoredIsRead(data: seq<byte>)
    ensures Feed(STORED, 0, Stored(data)) == Ended(2, |Stored(data)|, data)
    decreases |data|
  {
    var body := Stored(data);
    if data != [] {
      StoredIsRead(data[1..]);
      assert body[1..][1..] == Stored(data[1..]);
      assert Feed(STORED, 1, body[1..]) == Later(1, [data[0]], Feed(STORED, 0, Stored(data[1..])));
      assert data == [data[0]] + data[1..];
    }
  }

  /** There are a compressor and a decompressor that match, and a checksum of 32 bits. */
  lemma AssumptionsCanBeMet()
    ensures Inverts(STORED) && CrcIs32Bit(STORED)
  {
    forall p: DeflateParams, data: seq<byte>
      ensures var body := STORED.deflate(p, data);
              var f := Feed(STORED, STORED.start(p.noHeader), body);
              f.Ended? && f.used == |body| && f.out == data
    {
      StoredIsRead(data);
    }
  }
}
