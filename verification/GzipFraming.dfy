/**
  The framing of a compressed message, stated about whole byte strings: what a string means (`Analyse`),
  which strings are accepted (`Accepts`), and what the compressor writes (`Message`). The `ZLib` class is
  proved against these.
 */
module GzipFraming {
  import opened Bytes
  import opened Codec
  import opened GzipHeader
  import opened GzipHeaderLanguage
  import opened Numbers

  const FOOTER_SIZE: nat := 8

  /** How far a string goes through header, body and footer; `rest` is what follows the body. */
  datatype Phase<S> =
    | InHeader(p: Parser)
    | BadHeader
    | BadBody(out: seq<byte>)
    | InBody(state: S, out: seq<byte>)
    | AfterBody(out: seq<byte>, rest: seq<byte>)

  /** The header of a string; outside gzip mode there is none. */
  function HeaderOf(gzip: bool, s: seq<byte>): (o: Outcome)
    ensures o.End? ==> o.consumed <= |s|
    ensures o.More? ==> WellFormed(o.p) && !Done(o.p)
  {
    if gzip then Parse(START, s) else End(0)
  }

  /** The phase in which some body leaves us, given the output from before it. */
  function PhaseOf<S>(before: seq<byte>, f: Fate<S>, body: seq<byte>): (ph: Phase<S>)
    requires f.Ended? ==> f.used <= |body|
  {
    match f
    case Refused(out) => BadBody(before + out)
    case Running(state, out) => InBody(state, before + out)
    case Ended(_, used, out) => AfterBody(before + out, body[used..])
  }

  function Analyse<S>(c: Codec<S>, noHeader: bool, gzip: bool, s: seq<byte>): (ph: Phase<S>) {
    match HeaderOf(gzip, s)
    case More(p) => InHeader(p)
    case Bad => BadHeader
    case End(n) => PhaseOf([], Feed(c, c.start(noHeader), s[n..]), s[n..])
  }

  /** The output that a string has given rise to. */
  function Decoded<S>(ph: Phase<S>): seq<byte> {
    if ph.InHeader? || ph.BadHeader? then [] else ph.out
  }

  /** No continuation of the string can be accepted. */
  predicate Rejected<S(!new)>(ph: Phase<S>) {
    ph.BadHeader? || ph.BadBody? || (ph.AfterBody? && |ph.rest| > FOOTER_SIZE)
  }

  /** Section 2.3.1 of RFC 1952: CRC32, then ISIZE, the length modulo 2^32. */
  function Footer<S>(c: Codec<S>, out: seq<byte>): (f: seq<byte>)
    ensures |f| == FOOTER_SIZE
  {
    Le32(Crc(c, 0, out)) + Le32(|out|)
  }

  /** A complete message. In gzip mode the footer must be right; otherwise there is no footer or, because
      old writers appended one, eight bytes that nobody looks at. */
  predicate Accepts<S(!new)>(c: Codec<S>, noHeader: bool, gzip: bool, s: seq<byte>) {
    var ph := Analyse(c, noHeader, gzip, s);
    ph.AfterBody? &&
    if gzip then ph.rest == Footer(c, ph.out) else |ph.rest| == 0 || |ph.rest| == FOOTER_SIZE
  }

  /** GZIP_HEADER: no flags, no modification time, XFL 2, unknown operating system. */
  const GZIP_HEADER: seq<byte> := [0x1f, 0x8b, 8, 0, 0, 0, 0, 0, 2, 0xff]

  /** What the compressor writes. */
  function Message<S>(c: Codec<S>, p: DeflateParams, gzip: bool, data: seq<byte>): (m: seq<byte>) {
    if gzip then GZIP_HEADER + c.deflate(p, data) + Footer(c, data) else c.deflate(p, data)
  }

  /** The length field of a gzip message; zero if it is too short to have one. */
  function GzipUncompressedLength(source: seq<byte>): (n: nat) {
    if |source| <= 4 then 0 else FromLe32(source[|source| - 4..])
  }

  // ---- Strings that grow

  /** What more input does to a string that is still inside its header. */
  lemma AnalyseHeader<S>(c: Codec<S>, noHeader: bool, gzip: bool, s: seq<byte>, t: seq<byte>, p: Parser)
    requires HeaderOf(gzip, s) == More(p)
    ensures HeaderOf(gzip, s + t) == Shift(|s|, Parse(p, t))
  {
    ParseSplit(START, s, t);
  }

  /** A header that has ended has ended. */
  lemma HeaderStays(gzip: bool, s: seq<byte>, t: seq<byte>)
    requires HeaderOf(gzip, s).End?
    ensures HeaderOf(gzip, s + t) == HeaderOf(gzip, s)
    ensures (s + t)[HeaderOf(gzip, s).consumed..] == s[HeaderOf(gzip, s).consumed..] + t
  {
    if gzip {
      ParseSplit(START, s, t);
    }
  }

  /** What more input does to a string that is inside its body. */
  lemma AnalyseBody<S>(c: Codec<S>, noHeader: bool, gzip: bool, s: seq<byte>, t: seq<byte>, state: S, out: seq<byte>)
    requires HeaderOf(gzip, s).End?
    requires Reads(c, c.start(noHeader), s[HeaderOf(gzip, s).consumed..], state, out)
    ensures Analyse(c, noHeader, gzip, s + t) ==
            PhaseOf(out, Feed(c, state, t), t)
  {
    HeaderStays(gzip, s, t);
    var n := HeaderOf(gzip, s).consumed;
    var body := s[n..];
    FeedOn(c, c.start(noHeader), body, state, out, t);
    var f := Feed(c, state, t);
    assert [] + (out + f.out) == out + f.out;
    if f.Ended? {
      assert (body + t)[|body| + f.used..] == t[f.used..];
    }
  }

  /** Once the body is over or refused, more input only adds to what follows it. */
  lemma AnalyseSettled<S>(c: Codec<S>, noHeader: bool, gzip: bool, s: seq<byte>, t: seq<byte>)
    requires var ph := Analyse(c, noHeader, gzip, s); ph.BadBody? || ph.AfterBody?
    ensures var ph := Analyse(c, noHeader, gzip, s);
            Analyse(c, noHeader, gzip, s + t) == if ph.BadBody? then ph else AfterBody(ph.out, ph.rest + t)
  {
    HeaderStays(gzip, s, t);
    var n := HeaderOf(gzip, s).consumed;
    var f := Feed(c, c.start(noHeader), s[n..]);
    FeedSettled(c, c.start(noHeader), s[n..], t);
    if f.Ended? {
      assert (s[n..] + t)[f.used..] == s[n..][f.used..] + t;
    }
  }

  /** Output only ever grows, and a rejected string stays rejected. */
  lemma AnalyseGrows<S(!new)>(c: Codec<S>, noHeader: bool, gzip: bool, s: seq<byte>, t: seq<byte>)
    ensures var before, after := Analyse(c, noHeader, gzip, s), Analyse(c, noHeader, gzip, s + t);
            && Decoded(before) <= Decoded(after)
            && (Rejected(before) ==> Rejected(after))
  {
    match Analyse(c, noHeader, gzip, s)
    case InHeader(p) =>
    case BadHeader => ParseSplit(START, s, t);
    case InBody(state, out) => AnalyseBody(c, noHeader, gzip, s, t, state, out);
    case BadBody(_) => AnalyseSettled(c, noHeader, gzip, s, t);
    case AfterBody(_, _) => AnalyseSettled(c, noHeader, gzip, s, t);
  }

  lemma RejectedIsNotAccepted<S(!new)>(c: Codec<S>, noHeader: bool, gzip: bool, s: seq<byte>, t: seq<byte>)
    requires Rejected(Analyse(c, noHeader, gzip, s))
    ensures !Accepts(c, noHeader, gzip, s + t)
  {
    AnalyseGrows(c, noHeader, gzip, s, t);
  }

  /** A chunk in its place: it extends what came before, and is bounded by the whole. */
  lemma ChunkOfMessage<S(!new)>(c: Codec<S>, noHeader: bool, gzip: bool, chunks: seq<seq<byte>>, i: nat)
    requires i < |chunks|
    ensures var seen := Flatten(chunks[..i + 1]);
            && seen == Flatten(chunks[..i]) + chunks[i]
            && |Decoded(Analyse(c, noHeader, gzip, seen))| <= |Decoded(Analyse(c, noHeader, gzip, Flatten(chunks)))|
            && (Rejected(Analyse(c, noHeader, gzip, seen)) ==> !Accepts(c, noHeader, gzip, Flatten(chunks)))
  {
    FlattenLast(chunks[..i + 1]);
    assert chunks[..i + 1][..i] == chunks[..i];
    FlattenSplit(chunks, i + 1);
    AnalyseGrows(c, noHeader, gzip, Flatten(chunks[..i + 1]), Flatten(chunks[i + 1..]));
  }

  // ---- Round trip

  lemma GzipHeaderParses(rest: seq<byte>)
    ensures Parse(START, GZIP_HEADER + rest) == End(|GZIP_HEADER|)
  {
    var m := Member(0, [0, 0, 0, 0, 2, 0xff], [], [], [], [0, 0]);
    EncodedHeaderParses(m, rest);
    assert Encode(m) == GZIP_HEADER;
  }

  /** A compressed body behind a header, with anything behind it, means the data. */
  lemma BodyIsDecoded<S(!new)>(c: Codec<S>, p: DeflateParams, gzip: bool, m: seq<byte>, data: seq<byte>, tail: seq<byte>)
    requires Inverts(c)
    requires HeaderOf(gzip, m).End? && m[HeaderOf(gzip, m).consumed..] == c.deflate(p, data) + tail
    ensures Analyse(c, p.noHeader, gzip, m) == AfterBody(data, tail)
  {
    var body := c.deflate(p, data);
    assert Feed(c, c.start(p.noHeader), body).Ended?;
    FeedSettled(c, c.start(p.noHeader), body, tail);
    assert [] + data == data;
    assert (body + tail)[|body|..] == tail;
  }

  /** What is written is read back: the message is accepted and means the data. */
  lemma MessageIsAccepted<S(!new)>(c: Codec<S>, p: DeflateParams, gzip: bool, data: seq<byte>)
    requires Inverts(c)
    ensures Accepts(c, p.noHeader, gzip, Message(c, p, gzip, data))
    ensures Decoded(Analyse(c, p.noHeader, gzip, Message(c, p, gzip, data))) == data
  {
    var body := c.deflate(p, data);
    var tail := if gzip then Footer(c, data) else [];
    var m := Message(c, p, gzip, data);
    var n := if gzip then |GZIP_HEADER| else 0;
    assert HeaderOf(gzip, m) == End(n) && m[n..] == body + tail by {
      if gzip {
        GzipHeaderParses(body + tail);
        assert m == GZIP_HEADER + (body + tail);
      }
    }
    BodyIsDecoded(c, p, gzip, m, data, tail);
  }

  /** The length field of a gzip message is the length of its data, modulo 2^32. */
  lemma MessageLength<S>(c: Codec<S>, p: DeflateParams, data: seq<byte>)
    ensures GzipUncompressedLength(Message(c, p, true, data)) == |data| % TWO_TO_32
  {
    var m := Message(c, p, true, data);
    assert m[|m| - 4..] == Le32(|data|);
    FromLe32Le32(|data|);
  }

  /** The gzip round trip: what is written is accepted, means the data, and says how long it is. */
  lemma GzipRoundTrip<S(!new)>(c: Codec<S>, p: DeflateParams, data: seq<byte>)
    requires Inverts(c) && |data| < TWO_TO_32
    ensures var m := Message(c, p, true, data);
            && Accepts(c, p.noHeader, true, m)
            && Decoded(Analyse(c, p.noHeader, true, m)) == data
            && GzipUncompressedLength(m) == |data|
  {
    var m := Message(c, p, true, data);
    assert GzipUncompressedLength(m) == |data| by {
      MessageLength(c, p, data);
    }
    assert Accepts(c, p.noHeader, true, m) && Decoded(Analyse(c, p.noHeader, true, m)) == data by {
      MessageIsAccepted(c, p, true, data);
    }
  }

  /** What an acceptable gzip message claims to need is what it needs, modulo 2^32. */
  lemma ClaimedLength<S(!new)>(c: Codec<S>, noHeader: bool, s: seq<byte>)
    ensures GzipUncompressedLength(s) < TWO_TO_32
    ensures Accepts(c, noHeader, true, s) ==>
              GzipUncompressedLength(s) == |Decoded(Analyse(c, noHeader, true, s))| % TWO_TO_32
  {
    if Accepts(c, noHeader, true, s) {
      var n := HeaderOf(true, s).consumed;
      var used := Feed(c, c.start(noHeader), s[n..]).used;
      var ph := Analyse(c, noHeader, true, s);
      assert ph.rest == s[n..][used..];
      assert s[|s| - 4..] == ph.rest[4..] == Le32(|ph.out|);
      FromLe32Le32(|ph.out|);
    }
  }

  /** So a buffer of the claimed size holds the output of exactly the acceptable messages that are shorter
      than 4 GiB, and checking the claim is checking the size. */
  lemma ClaimSuffices<S(!new)>(c: Codec<S>, noHeader: bool, s: seq<byte>, maxLen: nat)
    ensures var claimed := GzipUncompressedLength(s);
            var needed := |Decoded(Analyse(c, noHeader, true, s))|;
            && claimed < TWO_TO_32
            && (Accepts(c, noHeader, true, s) ==>
                  (claimed <= maxLen && needed <= claimed <==> needed < TWO_TO_32 && needed <= maxLen))
  {
    ClaimedLength(c, noHeader, s);
    if Accepts(c, noHeader, true, s) {
      SizeModulo(|Decoded(Analyse(c, noHeader, true, s))|, GzipUncompressedLength(s), maxLen);
    }
  }

  lemma SizeModulo(needed: nat, claimed: nat, maxLen: nat)
    requires claimed == needed % TWO_TO_32
    ensures claimed <= maxLen && needed <= claimed <==> needed < TWO_TO_32 && needed <= maxLen
  {
  }

  /** A message that ends inside its header leaves the parser there, and the next message is read as its
      continuation. If it ended inside the two magic bytes, the next message that the compressor writes is refused
      for the bytes of its own header. */
  lemma TruncatedMagicSpoilsNext<S(!new)>(c: Codec<S>, p: DeflateParams, data: seq<byte>, cut: seq<byte>)
    requires cut == [ID1] || cut == [ID1, ID2]
    ensures Analyse(c, p.noHeader, true, cut).InHeader?
    ensures Analyse(c, p.noHeader, true, cut + Message(c, p, true, data)).BadHeader?
  {
    FixedPart(cut);
    FixedPart(cut + Message(c, p, true, data));
  }

  /** After other cuts the next message is accepted all the same, and means its own data: the parser swallows the
      header of that message whole whenever that makes a header of what was cut off. */
  lemma SwallowedHeaderIsAccepted<S(!new)>(c: Codec<S>, p: DeflateParams, data: seq<byte>, cut: seq<byte>)
    requires Inverts(c) && IsHeader(cut + GZIP_HEADER)
    ensures Analyse(c, p.noHeader, true, cut).InHeader?
    ensures Accepts(c, p.noHeader, true, cut + Message(c, p, true, data))
    ensures Decoded(Analyse(c, p.noHeader, true, cut + Message(c, p, true, data))) == data
  {
    var body := c.deflate(p, data) + Footer(c, data);
    var m := cut + Message(c, p, true, data);
    assert Message(c, p, true, data) == GZIP_HEADER + body;
    SwallowedHeaderParses(cut, body);
    assert Analyse(c, p.noHeader, true, m) == AfterBody(data, Footer(c, data)) by {
      BodyIsDecoded(c, p, true, m, data, Footer(c, data));
    }
    assert Analyse(c, p.noHeader, true, cut).InHeader?;
  }

  lemma SwallowedHeaderParses(cut: seq<byte>, body: seq<byte>)
    requires IsHeader(cut + GZIP_HEADER)
    ensures Parse(START, cut).More?
    ensures var m := cut + (GZIP_HEADER + body);
            Parse(START, m) == End(|cut| + |GZIP_HEADER|) && m[|cut| + |GZIP_HEADER|..] == body
  {
    var member :| ValidMember(member) && Encode(member) == cut + GZIP_HEADER;
    EncodedHeaderParses(member, body);
    assert cut + (GZIP_HEADER + body) == Encode(member) + body;
    ParseSplit(START, cut, GZIP_HEADER + body);
  }

  /** A header cut off behind the length of an extra field of ten bytes. */
  const CUT_AT_EXTRA: seq<byte> := [0x1f, 0x8b, 8, 4, 0, 0, 0, 0, 0, 0, 10, 0]

  /** There is such a cut, for every compressor and every data. */
  lemma TruncatedExtraIsAccepted<S(!new)>(c: Codec<S>, p: DeflateParams, data: seq<byte>)
    requires Inverts(c)
    ensures Analyse(c, p.noHeader, true, CUT_AT_EXTRA).InHeader?
    ensures Accepts(c, p.noHeader, true, CUT_AT_EXTRA + Message(c, p, true, data))
    ensures Decoded(Analyse(c, p.noHeader, true, CUT_AT_EXTRA + Message(c, p, true, data))) == data
  {
    var member := Member(4, [0, 0, 0, 0, 0, 0], GZIP_HEADER, [], [], [0, 0]);
    assert ValidMember(member) && Encode(member) == CUT_AT_EXTRA + GZIP_HEADER;
    SwallowedHeaderIsAccepted(c, p, data, CUT_AT_EXTRA);
  }

  /** Comparing the two numbers in a footer is comparing its bytes. */
  lemma FooterMatches<S(!new)>(c: Codec<S>, out: seq<byte>, rest: seq<byte>)
    requires CrcIs32Bit(c) && |rest| == FOOTER_SIZE
    ensures rest == Footer(c, out)
            <==> FromLe32(rest[4..]) == |out| % TWO_TO_32 && FromLe32(rest[..4]) == Crc(c, 0, out)
  {
    var crc := Crc(c, 0, out);
    assert crc % TWO_TO_32 == crc by {
      CrcBound(c, 0, out);
    }
    Le32Iff(rest[..4], crc);
    Le32Iff(rest[4..], |out|);
    Halves(rest, Le32(crc), Le32(|out|));
  }

  lemma Halves(s: seq<byte>, a: seq<byte>, b: seq<byte>)
    requires |s| == FOOTER_SIZE && |a| == |b| == 4
    ensures s == a + b <==> s[..4] == a && s[4..] == b
  {
    assert s == s[..4] + s[4..];
    assert (a + b)[..4] == a && (a + b)[4..] == b;
  }
}
