/**
  What the decompressing side of the wrapper knows while it is inside a message, as a relation between
  the bytes it has been given so far and its fields, and what one inflate call does to it.
 */
module InflateProgress {
  import opened Bytes
  import opened Codec
  import opened GzipHeader
  import opened GzipFraming
  import opened Wrappers

  /** What the wrapper has kept of a message whose header is behind it: the stream, the running checksum
      and size, and, once the body is over, the footer bytes seen so far. */
  datatype Kept<S> = Kept(stream: InflateStream<S>, crc: nat, size: nat, footer: Option<seq<byte>>)

  /** The fields are right for the bytes `seen` so far, of whose output `delivered` was handed out. */
  predicate Tracks<S(!new,==)>(
    c: Codec<S>, noHeader: bool, gzip: bool, seen: seq<byte>, delivered: seq<byte>, k: Kept<S>)
  {
    && HeaderOf(gzip, seen).End?
    && k.stream.totalOut == |delivered|
    && (gzip ==> k.crc == Crc(c, 0, delivered))
    && if k.footer.Some? then
         && k.stream.pending == []
         && k.size == |delivered|
         && |k.footer.value| <= FOOTER_SIZE
         && Analyse(c, noHeader, gzip, seen) == AfterBody(delivered, k.footer.value)
       else
         Reads(c, c.start(noHeader), seen[HeaderOf(gzip, seen).consumed..], k.stream.state, delivered + k.stream.pending)
  }

  /** The phase that a wrapper in this situation is in. */
  lemma TrackedPhase<S(!new)>(
    c: Codec<S>, noHeader: bool, gzip: bool, seen: seq<byte>, delivered: seq<byte>, k: Kept<S>)
    requires Tracks(c, noHeader, gzip, seen, delivered, k)
    ensures var ph := Analyse(c, noHeader, gzip, seen);
            && !Rejected(ph) && !ph.InHeader?
            && Decoded(ph) == delivered + k.stream.pending
            && (k.footer.None? && ph.AfterBody? ==> ph.rest == [] && c.ended(k.stream.state))
            && (k.footer.None? && ph.InBody? ==> !c.ended(k.stream.state))
  {
    var n := HeaderOf(gzip, seen).consumed;
    assert [] + (delivered + k.stream.pending) == delivered + k.stream.pending;
    assert seen[n..][|seen[n..]|..] == [];
  }

  /** A message whose header has just ended starts with a fresh stream. */
  lemma TracksStart<S(!new)>(
    c: Codec<S>, noHeader: bool, gzip: bool, seen: seq<byte>, k: Kept<S>)
    requires HeaderOf(gzip, seen) == End(|seen|)
    requires k.stream == InflateStream(c.start(noHeader), [], 0) && (gzip ==> k.crc == 0) && k.footer == None
    ensures Tracks(c, noHeader, gzip, seen, [], k)
  {
  }

  /** The call had room for everything that the input gives rise to. */
  predicate Fits<S(!new)>(ph: Phase<S>, delivered: seq<byte>, room: nat) {
    |Decoded(ph)| <= |delivered| + room
  }

  /** The stream, the checksum and the size after a call. */
  function AfterCall<S(!new)>(c: Codec<S>, gzip: bool, k: Kept<S>, r: Inflated<S>): Kept<S> {
    k.(stream := r.stream, crc := if gzip then Crc(c, k.crc, r.out) else k.crc, size := r.stream.totalOut)
  }

  /** The phase after more input, in terms of the automaton. */
  lemma PhaseAfterInput<S(!new)>(
    c: Codec<S>, noHeader: bool, gzip: bool, seen: seq<byte>, delivered: seq<byte>, k: Kept<S>, input: seq<byte>)
    requires Tracks(c, noHeader, gzip, seen, delivered, k) && k.footer.None?
    ensures Analyse(c, noHeader, gzip, seen + input)
            == PhaseOf(delivered + k.stream.pending, Feed(c, k.stream.state, input), input)
  {
    AnalyseBody(c, noHeader, gzip, seen, input, k.stream.state, delivered + k.stream.pending);
  }

  /** Reading on: the new input is read up to `used`, and the output is `out` plus what is now pending. */
  lemma TracksOn<S(!new)>(
    c: Codec<S>, noHeader: bool, gzip: bool, seen: seq<byte>, delivered: seq<byte>, k: Kept<S>,
    input: seq<byte>, more: seq<byte>, r: Inflated<S>)
    requires Tracks(c, noHeader, gzip, seen, delivered, k) && k.footer.None?
    requires Reads(c, k.stream.state, input, r.stream.state, more)
    requires k.stream.pending + more == r.out + r.stream.pending
    requires r.stream.totalOut == k.stream.totalOut + |r.out|
    ensures Tracks(c, noHeader, gzip, seen + input, delivered + r.out, AfterCall(c, gzip, k, r))
  {
    HeaderStays(gzip, seen, input);
    var n := HeaderOf(gzip, seen).consumed;
    FeedOn(c, c.start(noHeader), seen[n..], k.stream.state, delivered + k.stream.pending, input);
    assert (delivered + k.stream.pending) + more == (delivered + r.out) + r.stream.pending by {
      assert (delivered + k.stream.pending) + more == delivered + (k.stream.pending + more);
    }
    CrcAppend(c, 0, delivered, r.out);
  }

  /** Reading to the end of the body: what is left of the input starts the footer. */
  lemma TracksEnd<S(!new)>(
    c: Codec<S>, noHeader: bool, gzip: bool, seen: seq<byte>, delivered: seq<byte>, k: Kept<S>,
    input: seq<byte>, r: Inflated<S>, f: Fate<S>)
    requires Tracks(c, noHeader, gzip, seen, delivered, k) && k.footer.None?
    requires f == Feed(c, k.stream.state, input) && f.Ended? && |input| - f.used <= FOOTER_SIZE
    requires r.out == k.stream.pending + f.out && r.stream.pending == []
    requires r.stream.totalOut == k.stream.totalOut + |r.out|
    ensures Tracks(c, noHeader, gzip, seen + input, delivered + r.out,
                   AfterCall(c, gzip, k, r).(footer := Some(input[f.used..])))
  {
    PhaseAfterInput(c, noHeader, gzip, seen, delivered, k, input);
    HeaderStays(gzip, seen, input);
    assert delivered + r.out == (delivered + k.stream.pending) + f.out;
    CrcAppend(c, 0, delivered, r.out);
  }

  /** A call with room for everything reports the phase that the input leads to. */
  lemma InflateFits<S(!new)>(
    c: Codec<S>, noHeader: bool, gzip: bool, seen: seq<byte>, delivered: seq<byte>, k: Kept<S>,
    input: seq<byte>, room: nat, finish: bool)
    requires Tracks(c, noHeader, gzip, seen, delivered, k) && k.footer.None?
    requires Fits(Analyse(c, noHeader, gzip, seen + input), delivered, room)
    ensures var r := Inflate(c, k.stream, input, room, finish);
            var ph := Analyse(c, noHeader, gzip, seen + input);
            && (ph.BadBody? || ph.InBody? || ph.AfterBody?)
            && (ph.BadBody? ==> r.code == Z_DATA_ERROR)
            && (ph.InBody? ==>
                  && r.used == |input| && r.stream.pending == []
                  && r.code == (if finish || (input == [] && r.out == []) then Z_BUF_ERROR else Z_OK)
                  && Tracks(c, noHeader, gzip, seen + input, delivered + r.out, AfterCall(c, gzip, k, r)))
            && (ph.AfterBody? ==>
                  && r.code == Z_STREAM_END && r.stream.pending == [] && ph.rest == input[r.used..]
                  && (|ph.rest| <= FOOTER_SIZE ==>
                        Tracks(c, noHeader, gzip, seen + input, delivered + r.out,
                               AfterCall(c, gzip, k, r).(footer := Some(ph.rest)))))
  {
    PhaseAfterInput(c, noHeader, gzip, seen, delivered, k, input);
    PumpFits(c, k.stream.state, k.stream.pending, input, room);
    var f := Feed(c, k.stream.state, input);
    var r := Inflate(c, k.stream, input, room, finish);
    if f.Running? {
      assert r.out + [] == r.out;
      TracksOn(c, noHeader, gzip, seen, delivered, k, input, f.out, r);
    } else if f.Ended? && |input| - f.used <= FOOTER_SIZE {
      TracksEnd(c, noHeader, gzip, seen, delivered, k, input, r, f);
    }
  }

  /** Once the body is over, input is footer. */
  lemma FooterPhase<S(!new)>(
    c: Codec<S>, noHeader: bool, gzip: bool, seen: seq<byte>, delivered: seq<byte>, k: Kept<S>, input: seq<byte>)
    requires Tracks(c, noHeader, gzip, seen, delivered, k) && k.footer.Some?
    ensures Analyse(c, noHeader, gzip, seen + input) == AfterBody(delivered, k.footer.value + input)
    ensures |k.footer.value + input| <= FOOTER_SIZE ==>
              Tracks(c, noHeader, gzip, seen + input, delivered, k.(footer := Some(k.footer.value + input)))
  {
    AnalyseSettled(c, noHeader, gzip, seen, input);
    HeaderStays(gzip, seen, input);
  }

  /** A call without stops for lack of room, having read some of the input. */
  lemma InflateFull<S(!new)>(
    c: Codec<S>, noHeader: bool, gzip: bool, seen: seq<byte>, delivered: seq<byte>, k: Kept<S>,
    input: seq<byte>, room: nat, finish: bool)
    requires Tracks(c, noHeader, gzip, seen, delivered, k) && k.footer.None?
    requires !Fits(Analyse(c, noHeader, gzip, seen + input), delivered, room)
    ensures var r := Inflate(c, k.stream, input, room, finish);
            && |r.out| == room
            && r.code == (if finish || (r.used == 0 && room == 0) then Z_BUF_ERROR else Z_OK)
            && Tracks(c, noHeader, gzip, seen + input[..r.used], delivered + r.out, AfterCall(c, gzip, k, r))
  {
    PhaseAfterInput(c, noHeader, gzip, seen, delivered, k, input);
    PumpFull(c, k.stream.state, k.stream.pending, input, room);
    var r := Inflate(c, k.stream, input, room, finish);
    var more :| Reads(c, k.stream.state, input[..r.used], r.stream.state, more)
                && k.stream.pending + more == r.out + r.stream.pending;
    TracksOn(c, noHeader, gzip, seen, delivered, k, input[..r.used], more, r);
  }

  /** What the code of an inflate call tells. */
  lemma InflateOutcome<S(!new)>(
    c: Codec<S>, noHeader: bool, gzip: bool, seen: seq<byte>, delivered: seq<byte>, k: Kept<S>,
    input: seq<byte>, room: nat, finish: bool)
    requires Tracks(c, noHeader, gzip, seen, delivered, k) && k.footer.None?
    ensures var r := Inflate(c, k.stream, input, room, finish);
            var ph := Analyse(c, noHeader, gzip, seen + input);
            var after := AfterCall(c, gzip, k, r);
            var fits := Fits(ph, delivered, room);
            match r.code
            case Z_STREAM_END =>
              && fits && ph.AfterBody? && ph.rest == input[r.used..] && r.stream.pending == []
              && (|ph.rest| <= FOOTER_SIZE ==>
                    Tracks(c, noHeader, gzip, seen + input, delivered + r.out, after.(footer := Some(ph.rest))))
            case Z_DATA_ERROR => fits && ph.BadBody?
            case Z_MEM_ERROR => false
            case Z_VERSION_ERROR => false
            case _ =>
              && Tracks(c, noHeader, gzip, seen + input[..r.used], delivered + r.out, after)
              && (r.code == Z_OK ==> !finish)
              && if fits then
                   ph.InBody? && r.used == |input| && r.stream.pending == [] && (r.code == Z_BUF_ERROR ==> finish || (input == [] && r.out == []))
                   && (r.code == Z_OK ==> input != [] || r.out != [])
                 else |r.out| == room
  {
    var r := Inflate(c, k.stream, input, room, finish);
    assert input[..|input|] == input;
    if Fits(Analyse(c, noHeader, gzip, seen + input), delivered, room) {
      InflateFits(c, noHeader, gzip, seen, delivered, k, input, room, finish);
    } else {
      InflateFull(c, noHeader, gzip, seen, delivered, k, input, room, finish);
    }
  }

  /** What the wrapper makes of an inflate call: what it returns and what it keeps. */
  datatype Report<S> = Report(err: ZCode, out: seq<byte>, leftover: nat, kept: Kept<S>)

  function AfterInflate<S(!new)>(
    c: Codec<S>, gzip: bool, k: Kept<S>, source: seq<byte>, room: nat, finish: bool): (rep: Report<S>)
  {
    var r := Inflate(c, k.stream, source, room, finish);
    var after := AfterCall(c, gzip, k, r);
    var availIn := |source| - r.used;
    if r.code == Z_STREAM_END && availIn <= FOOTER_SIZE then
      Report(Z_OK, r.out, 0, after.(footer := Some(source[r.used..])))
    else if (r.code == Z_STREAM_END || r.code == Z_OK) && availIn == 0 then
      Report(Z_OK, r.out, 0, after)
    else if r.code == Z_STREAM_END || (r.code != Z_OK && r.code != Z_BUF_ERROR) then
      Report(if r.code == Z_STREAM_END then Z_DATA_ERROR else r.code, [], availIn, after)
    else
      Report(if |r.out| == room then Z_BUF_ERROR else r.code, r.out, availIn, after)
  }

  lemma ReportBounds<S(!new)>(
    c: Codec<S>, noHeader: bool, gzip: bool, seen: seq<byte>, delivered: seq<byte>, k: Kept<S>,
    source: seq<byte>, room: nat, finish: bool)
    requires Tracks(c, noHeader, gzip, seen, delivered, k) && k.footer.None?
    ensures var rep := AfterInflate(c, gzip, k, source, room, finish);
            && rep.leftover <= |source| && |rep.out| <= room
            && (rep.err == Z_OK ==> rep.leftover == 0 && (finish ==> rep.kept.footer.Some?))
  {
    InflateOutcome(c, noHeader, gzip, seen, delivered, k, source, room, finish);
  }

  lemma ReportTracks<S(!new)>(
    c: Codec<S>, noHeader: bool, gzip: bool, seen: seq<byte>, delivered: seq<byte>, k: Kept<S>,
    source: seq<byte>, room: nat, finish: bool)
    requires Tracks(c, noHeader, gzip, seen, delivered, k) && k.footer.None?
    ensures var rep := AfterInflate(c, gzip, k, source, room, finish);
            && rep.leftover <= |source|
            && (rep.err == Z_OK || rep.err == Z_BUF_ERROR ==>
                  Tracks(c, noHeader, gzip, seen + source[..|source| - rep.leftover], delivered + rep.out, rep.kept))
  {
    InflateOutcome(c, noHeader, gzip, seen, delivered, k, source, room, finish);
    assert source[..|source|] == source;
  }

  lemma ReportJudged<S(!new)>(
    c: Codec<S>, noHeader: bool, gzip: bool, seen: seq<byte>, delivered: seq<byte>, k: Kept<S>,
    source: seq<byte>, room: nat, finish: bool)
    requires Tracks(c, noHeader, gzip, seen, delivered, k) && k.footer.None?
    ensures var rep := AfterInflate(c, gzip, k, source, room, finish);
            var ph := Analyse(c, noHeader, gzip, seen + source);
            && Judged(ph, delivered, room, finish, source == [], rep.err)
            && (rep.err == Z_OK && Fits(ph, delivered, room) ==> rep.kept.stream.pending == [])
  {
    InflateOutcome(c, noHeader, gzip, seen, delivered, k, source, room, finish);
  }

  /** The wrapper stays on track, and it accepts or refuses the input as the phase it leads to tells. */
  lemma ReportIsRight<S(!new)>(
    c: Codec<S>, noHeader: bool, gzip: bool, seen: seq<byte>, delivered: seq<byte>, k: Kept<S>,
    source: seq<byte>, room: nat, finish: bool)
    requires Tracks(c, noHeader, gzip, seen, delivered, k) && k.footer.None?
    ensures var rep := AfterInflate(c, gzip, k, source, room, finish);
            && rep.leftover <= |source| && |rep.out| <= room
            && (rep.err == Z_OK ==>
                  && rep.leftover == 0
                  && (finish ==> rep.kept.footer.Some?)
                  && (Fits(Analyse(c, noHeader, gzip, seen + source), delivered, room) ==> rep.kept.stream.pending == []))
            && (rep.err == Z_OK || rep.err == Z_BUF_ERROR ==>
                  Tracks(c, noHeader, gzip, seen + source[..|source| - rep.leftover], delivered + rep.out, rep.kept))
    ensures Judged(Analyse(c, noHeader, gzip, seen + source), delivered, room, finish, source == [],
                   AfterInflate(c, gzip, k, source, room, finish).err)
  {
    ReportBounds(c, noHeader, gzip, seen, delivered, k, source, room, finish);
    ReportTracks(c, noHeader, gzip, seen, delivered, k, source, room, finish);
    ReportJudged(c, noHeader, gzip, seen, delivered, k, source, room, finish);
  }

  /** The return code that a chunk deserves. With room for its output it depends on the phase alone, except
      that an empty chunk inside the body may be taken for a lack of room. */
  predicate Judged<S(!new)>(ph: Phase<S>, delivered: seq<byte>, room: nat, finish: bool, empty: bool, err: ZCode) {
    if Fits(ph, delivered, room) then
      if ph.InBody? then
        if finish then err == Z_BUF_ERROR else err == Z_OK || (empty && err == Z_BUF_ERROR)
      else err == if Rejected(ph) then Z_DATA_ERROR else Z_OK
    else err == Z_BUF_ERROR || (!finish && err == Z_OK)
  }

  /** The return code that a call deserves; an unfinished header, and a header with nothing behind it, are
      taken as they are. */
  ghost predicate CallVerdict<S(!new)>(
    c: Codec<S>, noHeader: bool, gzip: bool, first: bool, seen: seq<byte>, delivered: seq<byte>,
    source: seq<byte>, room: nat, finish: bool, err: ZCode)
  {
    match HeaderOf(gzip, seen + source)
    case More(_) => err == Z_OK
    case Bad => err == Z_DATA_ERROR
    case End(n) =>
      if first && n == |seen + source| then err == Z_OK
      else Judged(Analyse(c, noHeader, gzip, seen + source), delivered, room, finish, source == [], err)
  }

  /** A call that is to finish the message succeeds on every acceptable message that there is room for, and
      otherwise at most on one that has not got beyond its header. */
  lemma FinishedCall<S(!new)>(
    c: Codec<S>, noHeader: bool, gzip: bool, first: bool, seen: seq<byte>, delivered: seq<byte>,
    source: seq<byte>, room: nat, err: ZCode)
    requires CallVerdict(c, noHeader, gzip, first, seen, delivered, source, room, true, err)
    ensures var ph := Analyse(c, noHeader, gzip, seen + source);
            && (Accepts(c, noHeader, gzip, seen + source) && Fits(ph, delivered, room) ==> err == Z_OK)
            && (err == Z_OK ==> Fits(ph, delivered, room))
  {
    var o := HeaderOf(gzip, seen + source);
    if o.End? && o.consumed == |seen + source| {
      assert (seen + source)[o.consumed..] == [];
    }
  }
}
