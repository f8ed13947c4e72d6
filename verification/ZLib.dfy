/**
  The zlib wrapper: one object that compresses and decompresses messages, reuses its streams, parses the
  gzip header and checks the gzip footer itself, and takes a message in any number of chunks.

  Two ghost fields record the message that is being decompressed: the bytes given so far (`seen`) and the
  output handed out for them (`delivered`). Every decompressing call is specified by what those bytes mean
  as a whole (`Analyse`, `Accepts`), so where they were cut cannot matter.
 */
module ZLibWrapper {
  import opened Bytes
  import opened Codec
  import opened GzipHeader
  import opened GzipHeaderLanguage
  import opened GzipFraming
  import opened InflateProgress
  import opened Numbers
  import StreamReuse
  import opened Wrappers

  class ZLib<S(!new,==)> {
    const codec: Codec<S>
    var settings: StreamReuse.Settings
    var initSettings: StreamReuse.Settings
    var compStream: Option<DeflateParams>
    var uncompStream: Option<bool>
    var inflater: InflateStream<S>
    var crc: nat
    var uncompressedSize: nat
    const gzipHeader: GZipHeader
    const gzipFooter: array<byte>
    var gzipFooterBytes: int
    var firstChunk: bool

    ghost var seen: seq<byte>
    ghost var delivered: seq<byte>

    /** The fields that stream reuse is about. */
    function Reuse(): StreamReuse.Reuse
      reads this
    {
      StreamReuse.Reuse(settings, initSettings, compStream, uncompStream)
    }

    /** What has been kept of the message being decompressed. */
    ghost function KeptNow(): Kept<S>
      requires gzipFooter.Length == FOOTER_SIZE && gzipFooterBytes <= FOOTER_SIZE
      reads this, gzipFooter
    {
      Kept(inflater, crc, uncompressedSize, if gzipFooterBytes < 0 then None else Some(gzipFooter[..gzipFooterBytes]))
    }

    /** What a bare object satisfies, whatever it was doing. */
    ghost predicate Shape()
      reads this, gzipHeader, gzipFooter
    {
      && gzipHeader.Valid()
      && gzipFooter.Length == FOOTER_SIZE
      && -1 <= gzipFooterBytes <= FOOTER_SIZE
      && StreamReuse.Faithful(Reuse())
    }

    /** Between messages, inside a gzip header or inside a message that is being decompressed. */
    ghost predicate Valid()
      reads this, gzipHeader, gzipFooter
    {
      && Shape()
      && if firstChunk then
           && delivered == []
           && if settings.gzip then Parse(START, seen) == More(gzipHeader.Snapshot())
              else seen == [] && gzipHeader.Snapshot() == START
         else
           && uncompStream.Some?
           && Tracks(codec, settings.noHeader, settings.gzip, seen, delivered, KeptNow())
    }

    /** The phase that some further input would lead to. */
    ghost function PhaseWith(input: seq<byte>): Phase<S>
      reads this
    {
      Analyse(codec, settings.noHeader, settings.gzip, seen + input)
    }

    constructor (codec: Codec<S>)
      ensures Valid() && firstChunk && seen == []
      ensures this.codec == codec && Reuse() == StreamReuse.NEW_ZLIB
      ensures fresh(gzipHeader) && fresh(gzipFooter)
    {
      this.codec := codec;
      settings, initSettings := StreamReuse.DEFAULT_SETTINGS, StreamReuse.DEFAULT_SETTINGS;
      compStream, uncompStream := None, None;
      inflater := InflateStream(codec.start(false), [], 0);
      crc, uncompressedSize := 0, 0;
      gzipHeader := new GZipHeader();
      gzipFooter := new byte[FOOTER_SIZE](i => 0);
      gzipFooterBytes := -1;
      firstChunk := true;
      seen, delivered := [], [];
    }

    // ---- Between messages

    method Reset()
      requires Shape()
      modifies this`firstChunk, this`seen, this`delivered, gzipHeader
      ensures Valid() && firstChunk && seen == []
    {
      firstChunk := true;
      gzipHeader.Reset();
      seen, delivered := [], [];
    }

    method SetCompressionLevel(level: int)
      requires Valid()
      modifies this`settings
      ensures Valid()
      ensures Reuse() == StreamReuse.Apply(old(Reuse()), StreamReuse.SetLevel(level))
    {
      settings := settings.(level := level);
    }

    method SetCompressionWindowSizeInBits(bits: int)
      requires Valid()
      modifies this`settings
      ensures Valid()
      ensures Reuse() == StreamReuse.Apply(old(Reuse()), StreamReuse.SetWindowBits(bits))
    {
      settings := settings.(windowBits := bits);
    }

    method SetCompressionMemLevel(level: int)
      requires Valid()
      modifies this`settings
      ensures Valid()
      ensures Reuse() == StreamReuse.Apply(old(Reuse()), StreamReuse.SetMemLevel(level))
    {
      settings := settings.(memLevel := level);
    }

    method SetNoHeaderMode(noHeader: bool)
      requires Valid() && firstChunk
      modifies this, gzipHeader
      ensures Valid() && firstChunk
      ensures Reuse() == StreamReuse.Apply(old(Reuse()), StreamReuse.SetNoHeader(noHeader))
      ensures seen == if old(initSettings).noHeader == noHeader then [] else old(seen)
    {
      settings := settings.(noHeader := noHeader);
      if initSettings.noHeader != settings.noHeader {
        compStream := None;
        uncompStream := None;
      } else {
        Reset();
      }
    }

    method SetGzipHeaderMode()
      requires Valid() && firstChunk
      modifies this, gzipHeader
      ensures Valid() && firstChunk
      ensures Reuse() == StreamReuse.Apply(old(Reuse()), StreamReuse.SetGzip)
      ensures seen == if old(initSettings).noHeader then [] else old(seen)
    {
      settings := settings.(gzip := true);
      SetNoHeaderMode(true);
    }

    /** Back to the default settings. The object can be used on unless that leaves a headerless compressing
        stream alive; see `StreamReuse.ReinitIsSafeIff` for what happens then. */
    method Reinit(z: StreamReuse.Zlib)
      requires Shape()
      modifies this, gzipHeader
      ensures Reuse() == StreamReuse.Reinit(old(Reuse()), z) && firstChunk && seen == []
      ensures Valid() <==> !(old(compStream).Some? && old(initSettings).noHeader && z.deflateReset)
    {
      StreamReuse.ReinitKeepsFaithfulIff(Reuse(), z);
      settings := StreamReuse.DEFAULT_SETTINGS;
      if compStream.Some? && !z.deflateReset {
        compStream := None;
      }
      if uncompStream.Some? {
        if z.inflateReset {
          uncompStream := Some(settings.noHeader);
          initSettings := initSettings.(noHeader := settings.noHeader);
        } else {
          uncompStream := None;
        }
      }
      crc, uncompressedSize := 0, 0;
      gzipHeader.Reset();
      gzipFooterBytes := -1;
      firstChunk := true;
      seen, delivered := [], [];
    }

    // ---- Compression of a whole message

    method CompressErrorInit()
      requires Shape()
      modifies this`compStream, this`firstChunk, this`seen, this`delivered, gzipHeader
      ensures Valid() && firstChunk && seen == []
      ensures Reuse() == StreamReuse.CompressErrorInit(old(Reuse()))
    {
      compStream := None;
      Reset();
    }

    method DeflateInit(z: StreamReuse.Zlib) returns (err: ZCode)
      requires compStream.None?
      modifies this`compStream, this`initSettings
      ensures Reuse() == StreamReuse.DeflateInit(old(Reuse()), z)
      ensures err == if z.deflateInit then Z_OK else Z_MEM_ERROR
    {
      if !z.deflateInit { return Z_MEM_ERROR; }
      compStream := Some(StreamReuse.ParamsOf(settings));
      initSettings := initSettings.(level := settings.level, windowBits := settings.windowBits,
                                    memLevel := settings.memLevel, noHeader := settings.noHeader);
      return Z_OK;
    }

    /** Sets up the compressing stream for the first chunk: it is configured as the settings say, whether
        it was reused, adjusted or created. */
    method CompressInit(z: StreamReuse.Zlib) returns (err: ZCode)
      requires Shape() && firstChunk
      modifies this`compStream, this`initSettings
      ensures Shape() && Reuse() == StreamReuse.CompressInit(old(Reuse()), z)
      ensures err == (if compStream.Some? then Z_OK else Z_MEM_ERROR)
      ensures err == Z_OK ==> compStream == Some(StreamReuse.ParamsOf(settings))
      ensures z.deflateInit ==> err == Z_OK
    {
      if compStream.Some? && (initSettings.windowBits != settings.windowBits ||
                              initSettings.memLevel != settings.memLevel ||
                              initSettings.noHeader != settings.noHeader) {
        compStream := None;
      }
      if compStream.Some? && !z.deflateReset {
        compStream := None;
      }
      if compStream.Some? && initSettings.level != settings.level {
        if z.deflateParams {
          compStream := Some(compStream.value.(level := settings.level));
          initSettings := initSettings.(level := settings.level);
        } else {
          compStream := None;
        }
      }
      if compStream.None? {
        err := DeflateInit(z);
        return;
      }
      return Z_OK;
    }

    method WriteGzipFooter(room: nat) returns (err: ZCode, footer: seq<byte>)
      ensures err == if room < FOOTER_SIZE then Z_BUF_ERROR else Z_OK
      ensures err == Z_OK ==> footer == Le32(crc) + Le32(uncompressedSize)
    {
      if room < FOOTER_SIZE { return Z_BUF_ERROR, []; }
      return Z_OK, Le32(crc) + Le32(uncompressedSize);
    }

    /** The part of a message that a header and a body make up. */
    ghost function Unfooted(source: seq<byte>): seq<byte>
      reads this
    {
      (if settings.gzip then GZIP_HEADER else []) + codec.deflate(StreamReuse.ParamsOf(settings), source)
    }

    /** Writes the header and the compressed body. A buffer that is filled to the last byte counts as too
        small. */
    method CompressChunkOrAll(source: seq<byte>, room: nat, z: StreamReuse.Zlib) returns (err: ZCode, out: seq<byte>)
      requires Valid() && firstChunk && room < TWO_TO_31
      modifies this, gzipHeader
      ensures Shape() && settings == old(settings)
      ensures err != Z_OK ==> Valid() && firstChunk
      ensures err == Z_OK ==>
                && out == Unfooted(source) && |out| < room && |source| < TWO_TO_32
                && (settings.gzip ==> crc == Crc(codec, 0, source)) && uncompressedSize == |source|
      ensures |source| < TWO_TO_32 && z.deflateInit ==>
                err == if |Unfooted(source)| < room then Z_OK else Z_BUF_ERROR
    {
      out := [];
      if |source| >= TWO_TO_32 {
        CompressErrorInit();
        return Z_BUF_ERROR, out;
      }
      err := CompressInit(z);
      if err != Z_OK { return; }
      var availOut := room;
      if settings.gzip {
        // sizeof(GZIP_HEADER) counts the terminator of the literal
        if availOut < |GZIP_HEADER| + 1 {
          CompressErrorInit();
          return Z_BUF_ERROR, [];
        }
        out := GZIP_HEADER;
        availOut := availOut - |GZIP_HEADER|;
        crc := 0;
      }
      uncompressedSize := 0;
      firstChunk := false;
      var (code, body) := Deflate(codec, compStream.value, source, availOut);
      out := out + body;
      availOut := availOut - |body|;
      if !(code == Z_STREAM_END && availOut != 0) {
        CompressErrorInit();
        return Z_BUF_ERROR, [];
      }
      uncompressedSize := uncompressedSize + |source|;
      if settings.gzip {
        crc := Crc(codec, crc, source);
      }
      return Z_OK, out;
    }

    /** Compresses a message. If it fits, with a byte to spare outside gzip mode, the message is written
        and its parameters are the current settings; otherwise the answer is an error. */
    method Compress(source: seq<byte>, room: nat, z: StreamReuse.Zlib) returns (err: ZCode, out: seq<byte>)
      requires Valid() && firstChunk && room < TWO_TO_31
      modifies this, gzipHeader
      ensures Valid() && firstChunk && (err == Z_OK ==> seen == [])
      ensures settings == old(settings)
      ensures err == Z_OK ==>
                && |source| < TWO_TO_32 && |out| <= room
                && out == Message(codec, StreamReuse.ParamsOf(settings), settings.gzip, source)
      ensures |source| < TWO_TO_32 && z.deflateInit ==>
                var m := Message(codec, StreamReuse.ParamsOf(settings), settings.gzip, source);
                err == if |m| < room || (settings.gzip && |m| == room) then Z_OK else Z_BUF_ERROR
    {
      err, out := CompressChunkOrAll(source, room, z);
      if err != Z_OK { return; }
      Reset();
      if settings.gzip {
        var footer;
        err, footer := WriteGzipFooter(room - |out|);
        if err != Z_OK { return err, []; }
        out := out + footer;
      }
      return Z_OK, out;
    }

    // ---- Decompression

    method UncompressErrorInit()
      requires Shape()
      modifies this`uncompStream, this`firstChunk, this`seen, this`delivered, gzipHeader
      ensures Valid() && firstChunk && seen == []
      ensures Reuse() == StreamReuse.UncompressErrorInit(old(Reuse()))
    {
      uncompStream := None;
      Reset();
    }

    /** Sets up the decompressing stream for the first chunk. */
    method UncompressInit(z: StreamReuse.Zlib) returns (err: ZCode)
      requires Shape()
      modifies this`uncompStream, this`initSettings, this`inflater, this`firstChunk, this`seen, this`delivered, gzipHeader
      ensures Shape() && err in {Z_OK, Z_MEM_ERROR}
      ensures gzipFooterBytes == old(gzipFooterBytes)
      ensures !old(firstChunk) ==>
                && err == Z_OK && Reuse() == old(Reuse()) && inflater == old(inflater) && !firstChunk
                && seen == old(seen) && delivered == old(delivered)
      ensures old(firstChunk) ==>
                && Reuse() == StreamReuse.UncompressInit(old(Reuse()), z)
                && (err == Z_OK ==> inflater == InflateStream(codec.start(settings.noHeader), [], 0))
                && (err == Z_OK <==> uncompStream.Some?)
    {
      if !firstChunk { return Z_OK; }
      var restarted := InflateStream(codec.start(settings.noHeader), [], 0);
      if uncompStream.Some? {
        if z.inflateReset {
          uncompStream, inflater := Some(settings.noHeader), restarted;
          initSettings := initSettings.(noHeader := settings.noHeader);
        } else {
          UncompressErrorInit();
        }
      }
      if uncompStream.None? {
        if !z.inflateInit { return Z_MEM_ERROR; }
        uncompStream, inflater := Some(settings.noHeader), restarted;
        initSettings := initSettings.(noHeader := settings.noHeader);
      }
      return Z_OK;
    }

    /** Adds to the stored footer, of which there are `have` bytes. */
    method StoreFooter(have: nat, source: seq<byte>)
      requires gzipFooter.Length == FOOTER_SIZE && have + |source| <= FOOTER_SIZE
      modifies this`gzipFooterBytes, gzipFooter
      ensures gzipFooterBytes == have + |source|
      ensures gzipFooter[..gzipFooterBytes] == old(gzipFooter[..have]) + source
    {
      gzipFooterBytes := have + |source|;
      forall i | 0 <= i < |source| {
        gzipFooter[have + i] := source[i];
      }
    }

    /** Brings the size and, in gzip mode, the checksum up to date. */
    method Account(out: seq<byte>)
      modifies this`uncompressedSize, this`crc
      ensures uncompressedSize == inflater.totalOut
      ensures crc == if settings.gzip then Crc(codec, old(crc), out) else old(crc)
    {
      uncompressedSize := inflater.totalOut;
      if settings.gzip {
        crc := Crc(codec, crc, out);
      }
    }

    /** One inflate call and what the wrapper makes of its result. */
    method InflateChunk(source: seq<byte>, room: nat, finish: bool) returns (err: ZCode, out: seq<byte>, leftover: nat)
      requires Shape() && !firstChunk && gzipFooterBytes == -1
      modifies this, gzipHeader, gzipFooter
      ensures Shape() && settings == old(settings)
      ensures var rep := old(AfterInflate(codec, settings.gzip, KeptNow(), source, room, finish));
              && err == rep.err && out == rep.out && leftover == rep.leftover
              && if err == Z_OK || err == Z_BUF_ERROR then
                   && KeptNow() == rep.kept && !firstChunk && uncompStream == old(uncompStream)
                   && seen == old(seen) && delivered == old(delivered)
                 else Valid() && firstChunk && seen == []
    {
      var r := Inflate(codec, inflater, source, room, finish);
      err, out, inflater := r.code, r.out, r.stream;
      var availIn, availOut := |source| - r.used, room - |out|;
      leftover := availIn;
      if err == Z_STREAM_END && availIn <= FOOTER_SIZE {
        StoreFooter(0, source[r.used..]);
        assert old(gzipFooter[..0]) + source[r.used..] == source[r.used..];
        leftover, err := 0, Z_OK;
      } else if (err == Z_STREAM_END || err == Z_OK) && availIn == 0 {
        err := Z_OK;
      } else if err == Z_STREAM_END || (err != Z_OK && err != Z_BUF_ERROR) {
        UncompressErrorInit();
        return if err == Z_STREAM_END then Z_DATA_ERROR else err, [], leftover;
      } else if availOut == 0 {
        err := Z_BUF_ERROR;
      }
      Account(out);
    }

    /** Everything the wrapper is given after the body is footer; more than eight bytes of it are refused. */
    method FooterChunk(source: seq<byte>) returns (err: ZCode)
      requires Valid() && !firstChunk && gzipFooterBytes >= 0
      modifies this, gzipHeader, gzipFooter
      ensures Valid() && settings == old(settings)
      ensures old(PhaseWith(source)).AfterBody? && old(Decoded(PhaseWith(source))) == old(delivered)
      ensures err == if old(Rejected(PhaseWith(source))) then Z_DATA_ERROR else Z_OK
      ensures err == Z_OK ==>
                !firstChunk && gzipFooterBytes >= 0 && seen == old(seen) + source && delivered == old(delivered)
      ensures err != Z_OK ==> firstChunk && seen == []
      ensures err == Z_OK ==> inflater.pending == []
    {
      ghost var k := KeptNow();
      FooterPhase(codec, settings.noHeader, settings.gzip, seen, delivered, k, source);
      if gzipFooterBytes + |source| > FOOTER_SIZE {
        Reset();
        return Z_DATA_ERROR;
      }
      StoreFooter(gzipFooterBytes, source);
      assert KeptNow() == k.(footer := Some(k.footer.value + source));
      seen := seen + source;
      return Z_OK;
    }

    /** The same with the record of the message, for a report that leaves the fields right. */
    method TrackedChunk(source: seq<byte>, room: nat, finish: bool, ghost rep: Report<S>)
      returns (err: ZCode, out: seq<byte>, leftover: nat)
      requires Shape() && !firstChunk && gzipFooterBytes == -1 && uncompStream.Some?
      requires rep == AfterInflate(codec, settings.gzip, KeptNow(), source, room, finish) && rep.leftover <= |source|
      requires rep.err == Z_OK || rep.err == Z_BUF_ERROR ==>
                 Tracks(codec, settings.noHeader, settings.gzip, seen + source[..|source| - rep.leftover],
                        delivered + rep.out, rep.kept)
      modifies this, gzipHeader, gzipFooter
      ensures Valid() && settings == old(settings)
      ensures err == rep.err && out == rep.out && leftover == rep.leftover
      ensures if err == Z_OK || err == Z_BUF_ERROR then
                && !firstChunk && KeptNow() == rep.kept
                && seen == old(seen) + source[..|source| - leftover] && delivered == old(delivered) + out
              else firstChunk && seen == []
    {
      err, out, leftover := InflateChunk(source, room, finish);
      if err == Z_OK || err == Z_BUF_ERROR {
        seen, delivered := seen + source[..|source| - leftover], delivered + out;
      }
    }

    /** A chunk of body, for a wrapper that is inside one. */
    method BodyChunk(source: seq<byte>, room: nat, finish: bool) returns (err: ZCode, out: seq<byte>, leftover: nat)
      requires Valid() && !firstChunk && gzipFooterBytes == -1
      modifies this, gzipHeader, gzipFooter
      ensures Valid() && settings == old(settings) && leftover <= |source| && |out| <= room
      ensures Judged(old(PhaseWith(source)), old(delivered), room, finish, source == [], err)
      ensures err == Z_OK && old(Fits(PhaseWith(source), delivered, room)) ==> inflater.pending == []
      ensures err == Z_OK ==> leftover == 0 && (finish ==> gzipFooterBytes >= 0)
      ensures err == Z_OK || err == Z_BUF_ERROR ==>
                !firstChunk && seen == old(seen) + source[..|source| - leftover] && delivered == old(delivered) + out
      ensures err != Z_OK && err != Z_BUF_ERROR ==> firstChunk && seen == []
    {
      ghost var rep := AfterInflate(codec, settings.gzip, KeptNow(), source, room, finish);
      ReportIsRight(codec, settings.noHeader, settings.gzip, seen, delivered, KeptNow(), source, room, finish);
      err, out, leftover := TrackedChunk(source, room, finish, rep);
    }

    /** Sets up the stream for a message whose header, if it has one, is complete. */
    method BeginBody(z: StreamReuse.Zlib, ghost before: seq<byte>) returns (err: ZCode)
      requires Shape() && firstChunk && gzipFooterBytes == -1
      requires HeaderOf(settings.gzip, before) == End(|before|)
      modifies this, gzipHeader
      ensures Shape() && settings == old(settings)
      ensures err == if z.inflateInit || (old(uncompStream).Some? && z.inflateReset) then Z_OK else Z_MEM_ERROR
      ensures err == Z_OK ==>
                && Valid() && !firstChunk && gzipFooterBytes == -1
                && seen == before && delivered == [] && inflater.pending == []
    {
      if settings.gzip {
        crc := 0;
      }
      err := UncompressInit(z);
      if err == Z_OK {
        firstChunk := false;
        seen, delivered := before, [];
        TracksStart(codec, settings.noHeader, settings.gzip, before, KeptNow());
      }
    }

    /** The rest of the chunk that completes the header; with nothing left there is nothing to inflate. */
    method FirstBodyChunk(source: seq<byte>, room: nat, finish: bool, z: StreamReuse.Zlib, ghost before: seq<byte>)
      returns (err: ZCode, out: seq<byte>, leftover: nat)
      requires Shape() && firstChunk && gzipFooterBytes == -1
      requires HeaderOf(settings.gzip, before) == End(|before|)
      modifies this, gzipHeader, gzipFooter
      ensures Shape() && settings == old(settings) && leftover <= |source| && |out| <= room
      ensures err == Z_MEM_ERROR ==> !z.inflateInit
      ensures err != Z_MEM_ERROR ==> Valid()
      ensures err != Z_MEM_ERROR ==>
                if source == [] then err == Z_OK else
                Judged(Analyse(codec, settings.noHeader, settings.gzip, before + source), [], room, finish, false, err)
      ensures err == Z_OK && Fits(Analyse(codec, settings.noHeader, settings.gzip, before + source), [], room) ==>
                inflater.pending == []
      ensures err == Z_OK ==> leftover == 0
      ensures err == Z_OK || err == Z_BUF_ERROR ==>
                !firstChunk && seen == before + source[..|source| - leftover] && delivered == out
      ensures err != Z_OK && err != Z_BUF_ERROR && err != Z_MEM_ERROR ==> firstChunk && seen == []
    {
      out, leftover := [], |source|;
      err := BeginBody(z, before);
      if err != Z_OK { return; }
      if source == [] {
        assert before + source[..0] == before;
        return;
      }
      err, out, leftover := BodyChunk(source, room, finish);
      assert [] + out == out;
    }

    /** The header part of a chunk; outside gzip mode there is none. */
    method HeaderChunk(source: seq<byte>) returns (status: Status, bodyBegin: nat)
      requires Valid() && firstChunk
      modifies this`firstChunk, this`seen, this`delivered, gzipHeader
      ensures Shape() && firstChunk && status == StatusOf(HeaderOf(settings.gzip, old(seen) + source))
      ensures status == Complete ==>
                && bodyBegin <= |source|
                && HeaderOf(settings.gzip, old(seen) + source[..bodyBegin]) == End(|old(seen)| + bodyBegin)
                && HeaderOf(settings.gzip, old(seen) + source) == End(|old(seen)| + bodyBegin)
      ensures status != Complete ==> Valid()
      ensures status == Incomplete ==> seen == old(seen) + source && delivered == []
      ensures status == Invalid ==> seen == []
    {
      if !settings.gzip { return Complete, 0; }
      ghost var p := gzipHeader.Snapshot();
      AnalyseHeader(codec, settings.noHeader, true, seen, source, p);
      status, bodyBegin := gzipHeader.ReadMore(source);
      if status == Incomplete {
        seen := seen + source;
      } else if status == Invalid {
        Reset();
      } else {
        ParsePrefix(p, source, bodyBegin);
        AnalyseHeader(codec, settings.noHeader, true, seen, source[..bodyBegin], p);
      }
    }

    /** The return code that this call deserves. */
    ghost predicate CallJudged(source: seq<byte>, room: nat, finish: bool, err: ZCode)
      reads this
    {
      CallVerdict(codec, settings.noHeader, settings.gzip, firstChunk, seen, delivered, source, room, finish, err)
    }

    /** The part of a chunk that is behind the header, for the chunk as a whole. */
    method BodyPart(source: seq<byte>, bodyBegin: nat, room: nat, finish: bool, z: StreamReuse.Zlib, ghost begun: seq<byte>)
      returns (err: ZCode, out: seq<byte>, leftover: nat)
      requires Shape() && firstChunk && gzipFooterBytes == -1 && bodyBegin <= |source|
      requires HeaderOf(settings.gzip, begun + source[..bodyBegin]) == End(|begun| + bodyBegin)
      requires HeaderOf(settings.gzip, begun + source) == End(|begun| + bodyBegin)
      modifies this, gzipHeader, gzipFooter
      ensures Shape() && settings == old(settings) && leftover <= |source| && |out| <= room
      ensures err == Z_MEM_ERROR ==> !z.inflateInit
      ensures err != Z_MEM_ERROR ==>
                Valid() && CallVerdict(codec, settings.noHeader, settings.gzip, true, begun, [], source, room, finish, err)
      ensures err == Z_OK && Fits(Analyse(codec, settings.noHeader, settings.gzip, begun + source), [], room) ==>
                inflater.pending == []
      ensures err == Z_OK ==> leftover == 0
      ensures err == Z_OK || err == Z_BUF_ERROR ==>
                !firstChunk && seen == begun + source[..|source| - leftover] && delivered == out
      ensures err != Z_OK && err != Z_BUF_ERROR && err != Z_MEM_ERROR ==> firstChunk && seen == []
    {
      var body := source[bodyBegin..];
      ghost var before := begun + source[..bodyBegin];
      SplitChunk(begun, source, bodyBegin, 0);
      err, out, leftover := FirstBodyChunk(body, room, finish, z, before);
      SplitChunk(begun, source, bodyBegin, leftover);
    }

    /** A chunk that the message starts with, or that continues its header. */
    method FirstChunk(source: seq<byte>, room: nat, finish: bool, z: StreamReuse.Zlib)
      returns (err: ZCode, out: seq<byte>, leftover: nat)
      requires Valid() && firstChunk
      modifies this, gzipHeader, gzipFooter
      ensures Shape() && settings == old(settings) && leftover <= |source| && |out| <= room
      ensures err == Z_OK && !firstChunk && old(Fits(PhaseWith(source), delivered, room)) ==> inflater.pending == []
      ensures err == Z_MEM_ERROR ==> !z.inflateInit && old(HeaderOf(settings.gzip, seen + source)).End?
      ensures err != Z_MEM_ERROR ==> Valid() && old(CallJudged(source, room, finish, err))
      ensures err == Z_OK ==> leftover == 0 && (firstChunk <==> old(HeaderOf(settings.gzip, seen + source)).More?)
      ensures err == Z_OK || err == Z_BUF_ERROR ==>
                seen == old(seen) + source[..|source| - leftover] && delivered == out
      ensures err != Z_OK && err != Z_BUF_ERROR && err != Z_MEM_ERROR ==> firstChunk && seen == []
    {
      out, leftover := [], 0;
      ghost var begun := seen;
      gzipFooterBytes := -1;
      var status, bodyBegin := HeaderChunk(source);
      if status == Incomplete {
        assert source[..|source|] == source;
        return Z_OK, out, leftover;
      }
      if status == Invalid {
        return Z_DATA_ERROR, out, leftover;
      }
      err, out, leftover := BodyPart(source, bodyBegin, room, finish, z, begun);
    }

    /** Decompresses as much as there is room for. After Z_OK and after Z_BUF_ERROR the object has taken in
        what was read, and can be given the rest. */
    method UncompressAtMostOrAll(source: seq<byte>, room: nat, finish: bool, z: StreamReuse.Zlib)
      returns (err: ZCode, out: seq<byte>, leftover: nat)
      requires Valid() && |source| < TWO_TO_31 && room < TWO_TO_32
      modifies this, gzipHeader, gzipFooter
      ensures Shape() && settings == old(settings) && leftover <= |source| && |out| <= room
      ensures err == Z_OK && !firstChunk && old(Fits(PhaseWith(source), delivered, room)) ==> inflater.pending == []
      ensures err == Z_MEM_ERROR ==> !z.inflateInit && old(firstChunk && HeaderOf(settings.gzip, seen + source).End?)
      ensures err != Z_MEM_ERROR ==> Valid() && old(CallJudged(source, room, finish, err))
      ensures err == Z_OK ==> leftover == 0 && (firstChunk <==> old(HeaderOf(settings.gzip, seen + source)).More?)
      ensures err == Z_OK && finish && !old(firstChunk) ==> gzipFooterBytes >= 0
      ensures err == Z_OK || err == Z_BUF_ERROR ==>
                seen == old(seen) + source[..|source| - leftover] && delivered == old(delivered) + out
      ensures err != Z_OK && err != Z_BUF_ERROR && err != Z_MEM_ERROR ==> firstChunk && seen == []
    {
      if firstChunk {
        err, out, leftover := FirstChunk(source, room, finish, z);
        return;
      }
      HeaderStays(settings.gzip, seen, source);
      out, leftover := [], 0;
      if gzipFooterBytes >= 0 {
        assert source[..|source|] == source;
        err := FooterChunk(source);
      } else {
        err, out, leftover := BodyChunk(source, room, finish);
      }
    }

    /** The interface that can be resumed: after Z_BUF_ERROR, give it the last `leftover` bytes again. */
    method UncompressAtMost(source: seq<byte>, room: nat, z: StreamReuse.Zlib)
      returns (err: ZCode, out: seq<byte>, leftover: nat)
      requires Valid() && |source| < TWO_TO_31 && room < TWO_TO_32
      modifies this, gzipHeader, gzipFooter
      ensures Shape() && settings == old(settings) && leftover <= |source|
      ensures err == Z_MEM_ERROR ==> !z.inflateInit
      ensures err != Z_MEM_ERROR ==> Valid() && old(CallJudged(source, room, false, err))
      ensures err == Z_OK ==> leftover == 0
      ensures err == Z_OK || err == Z_BUF_ERROR ==>
                seen == old(seen) + source[..|source| - leftover] && delivered == old(delivered) + out
      ensures err != Z_OK && err != Z_BUF_ERROR && err != Z_MEM_ERROR ==> firstChunk && seen == []
    {
      err, out, leftover := UncompressAtMostOrAll(source, room, false, z);
    }

    /** The interface that cannot: a lack of room ends the message. */
    method UncompressChunkOrAll(source: seq<byte>, room: nat, finish: bool, z: StreamReuse.Zlib)
      returns (err: ZCode, out: seq<byte>)
      requires Valid() && |source| < TWO_TO_31 && room < TWO_TO_32
      modifies this, gzipHeader, gzipFooter
      ensures Shape() && settings == old(settings) && |out| <= room
      ensures err == Z_OK && !firstChunk && old(Fits(PhaseWith(source), delivered, room)) ==> inflater.pending == []
      ensures err == Z_MEM_ERROR ==> !z.inflateInit && old(firstChunk && HeaderOf(settings.gzip, seen + source).End?)
      ensures err != Z_MEM_ERROR ==> Valid() && old(CallJudged(source, room, finish, err))
      ensures err == Z_OK ==>
                && seen == old(seen) + source && delivered == old(delivered) + out
                && (firstChunk <==> old(HeaderOf(settings.gzip, seen + source)).More?)
                && (finish && !old(firstChunk) ==> gzipFooterBytes >= 0)
      ensures err != Z_OK && err != Z_MEM_ERROR ==> firstChunk && seen == []
    {
      var leftover;
      err, out, leftover := UncompressAtMostOrAll(source, room, finish, z);
      if err == Z_BUF_ERROR {
        UncompressErrorInit();
      }
      assert source[..|source|] == source;
    }

    /** One chunk of a message. With room for its output, a non-empty chunk is refused exactly when the bytes
        so far cannot be continued to an acceptable message; what is handed out is then all of the output
        so far. */
    method UncompressChunk(source: seq<byte>, room: nat, z: StreamReuse.Zlib) returns (err: ZCode, out: seq<byte>)
      requires Valid() && |source| < TWO_TO_31 && room < TWO_TO_32
      modifies this, gzipHeader, gzipFooter
      ensures Shape() && settings == old(settings)
      ensures err == Z_MEM_ERROR ==> !z.inflateInit
      ensures err == Z_OK ==>
                && Valid() && seen == old(seen) + source && delivered == old(delivered) + out
                && !Rejected(old(PhaseWith(source))) && delivered <= old(Decoded(PhaseWith(source)))
                && (firstChunk <==> old(HeaderOf(settings.gzip, seen + source)).More?)
      ensures err != Z_OK && err != Z_MEM_ERROR ==> Valid() && firstChunk && seen == []
      ensures z.inflateInit && source != [] && old(Fits(PhaseWith(source), delivered, room)) ==>
                && (err == Z_OK <==> !old(Rejected(PhaseWith(source))))
                && (err == Z_OK ==> delivered == old(Decoded(PhaseWith(source))))
    {
      err, out := UncompressChunkOrAll(source, room, false, z);
      if err == Z_OK {
        PhaseNow();
      }
    }

    /** What an object inside a message has handed out is a part of what the message means. */
    lemma PhaseNow()
      requires Valid()
      ensures var ph := Analyse(codec, settings.noHeader, settings.gzip, seen);
              && !Rejected(ph) && delivered <= Decoded(ph)
              && (firstChunk || inflater.pending == [] ==> delivered == Decoded(ph))
    {
      if !firstChunk {
        TrackedPhase(codec, settings.noHeader, settings.gzip, seen, delivered, KeptNow());
      }
    }

    predicate IsGzipFooterComplete()
      reads this`gzipFooterBytes
    {
      gzipFooterBytes != -1 && gzipFooterBytes >= FOOTER_SIZE
    }

    /** The whole footer is there and its two numbers match what was decompressed. */
    predicate IsGzipFooterValid()
      requires gzipFooter.Length == FOOTER_SIZE
      reads this, gzipFooter
    {
      && IsGzipFooterComplete()
      && FromLe32(gzipFooter[4..]) == uncompressedSize % TWO_TO_32
      && FromLe32(gzipFooter[..4]) == crc
    }

    /** Ends a message: it was good exactly when the bytes given make up an acceptable message and all of
        its output was handed out. */
    method UncompressChunkDone(z: StreamReuse.Zlib) returns (ok: bool)
      requires Valid() && CrcIs32Bit(codec)
      modifies this, gzipHeader, gzipFooter
      ensures Valid() && firstChunk && settings == old(settings)
      ensures ok <==>
                && !old(firstChunk)
                && Accepts(codec, old(settings.noHeader), old(settings.gzip), old(seen))
                && old(delivered) == Decoded(old(PhaseWith([])))
      ensures seen == if old(firstChunk) then old(seen) else []
    {
      if firstChunk || uncompStream.None? { return false; }
      assert seen + [] == seen;
      assert HeaderOf(settings.gzip, seen).End?;
      TrackedPhase(codec, settings.noHeader, settings.gzip, seen, delivered, KeptNow());
      ghost var ph, had := PhaseWith([]), delivered;
      var err, out := UncompressChunkOrAll([], 0, true, z);
      if err != Z_OK { return false; }
      TrackedPhase(codec, settings.noHeader, settings.gzip, seen, delivered, KeptNow());
      ok := FooterVerdict();
      Reset();
    }

    /** The last test of a message whose body has ended. */
    method FooterVerdict() returns (ok: bool)
      requires Valid() && !firstChunk && gzipFooterBytes >= 0 && CrcIs32Bit(codec)
      ensures ok <==> Accepts(codec, settings.noHeader, settings.gzip, seen)
    {
      if gzipFooterBytes != -1 && gzipFooterBytes != 0 && gzipFooterBytes != FOOTER_SIZE {
        return false;
      }
      if !settings.gzip { return true; }
      if gzipFooterBytes == FOOTER_SIZE {
        FooterMatches(codec, delivered, gzipFooter[..]);
        assert gzipFooter[..FOOTER_SIZE] == gzipFooter[..];
        assert gzipFooter[..][..4] == gzipFooter[..4] && gzipFooter[..][4..] == gzipFooter[4..];
      }
      return IsGzipFooterValid();
    }

    /** Decompresses a message: the call succeeds exactly when the bytes make up an acceptable message whose
        output there is room for, and then hands out that output. Bytes left over from a message that ended
        inside its header count as the beginning of this one. */
    method Uncompress(source: seq<byte>, room: nat, z: StreamReuse.Zlib) returns (err: ZCode, out: seq<byte>)
      requires Valid() && CrcIs32Bit(codec) && |source| < TWO_TO_31 && room < TWO_TO_32
      modifies this, gzipHeader, gzipFooter
      ensures Valid() && firstChunk && settings == old(settings)
      ensures err == Z_OK ==>
                && Accepts(codec, settings.noHeader, settings.gzip, old(seen) + source)
                && old(delivered) + out == old(Decoded(PhaseWith(source)))
      ensures z.inflateInit ==>
                (err == Z_OK
                 <==> Accepts(codec, settings.noHeader, settings.gzip, old(seen) + source)
                      && old(Fits(PhaseWith(source), delivered, room)))
      ensures seen == if err != Z_OK && old(HeaderOf(settings.gzip, seen + source)).More? then old(seen) + source else []
      ensures seen != [] <==> old(HeaderOf(settings.gzip, seen + source)).More? && old(seen) + source != []
    {
      ghost var first, before, had := firstChunk, seen, delivered;
      err, out := UncompressChunkOrAll(source, room, true, z);
      if err != Z_MEM_ERROR {
        FinishedCall(codec, settings.noHeader, settings.gzip, first, before, had, source, room, err);
      }
      if err != Z_OK {
        Reset();
        return;
      }
      assert seen + [] == seen;
      PhaseNow();
      var ok := UncompressChunkDone(z);
      if !ok { return Z_DATA_ERROR, out; }
    }

    /** The first `n` chunks of a message have been taken in, and all of their output handed out. */
    ghost predicate Fed(chunks: seq<seq<byte>>, n: nat, out: seq<byte>)
      requires n <= |chunks|
      reads this
    {
      && seen == Flatten(chunks[..n]) && delivered == out
      && (firstChunk ==> n == 0 || settings.gzip)
      && (n > 0 ==> delivered == Decoded(PhaseWith([])))
    }

    /** A message in non-empty chunks, with room for all of its output. */
    ghost predicate Feedable(chunks: seq<seq<byte>>, room: nat)
      reads this`settings
    {
      && (forall i :: 0 <= i < |chunks| ==> 0 < |chunks[i]| < TWO_TO_31)
      && |Decoded(Analyse(codec, settings.noHeader, settings.gzip, Flatten(chunks)))| <= room < TWO_TO_32
    }

    method FeedChunk(chunks: seq<seq<byte>>, n: nat, before: seq<byte>, room: nat, z: StreamReuse.Zlib)
      returns (ok: bool, out: seq<byte>)
      requires n < |chunks| && Valid() && Fed(chunks, n, before) && Feedable(chunks, room) && z.inflateInit
      modifies this, gzipHeader, gzipFooter
      ensures Valid() && settings == old(settings)
      ensures ok ==> Fed(chunks, n + 1, out)
      ensures !ok ==> firstChunk && seen == [] && !Accepts(codec, settings.noHeader, settings.gzip, Flatten(chunks))
    {
      ChunkOfMessage(codec, settings.noHeader, settings.gzip, chunks, n);
      assert seen + [] == seen;
      var err, more := UncompressChunk(chunks[n], room, z);
      assert seen + [] == seen;
      return err == Z_OK, before + more;
    }

    /** Feeds the chunks from the n-th on, until one is refused. */
    method FeedChunks(chunks: seq<seq<byte>>, n: nat, before: seq<byte>, room: nat, z: StreamReuse.Zlib)
      returns (ok: bool, out: seq<byte>)
      requires n <= |chunks| && Valid() && Fed(chunks, n, before) && Feedable(chunks, room) && z.inflateInit
      modifies this, gzipHeader, gzipFooter
      ensures Valid() && settings == old(settings)
      ensures !ok ==> firstChunk && seen == [] && !Accepts(codec, settings.noHeader, settings.gzip, Flatten(chunks))
      ensures ok ==> Fed(chunks, |chunks|, out)
      decreases |chunks| - n
    {
      if n == |chunks| { return true, before; }
      ok, out := FeedChunk(chunks, n, before, room, z);
      if ok {
        ok, out := FeedChunks(chunks, n + 1, out, room, z);
      }
    }

    /** Feeds a message chunk by chunk and ends it. However the message was cut, the verdict and the output
        are those of the whole. */
    method UncompressInChunks(chunks: seq<seq<byte>>, room: nat, z: StreamReuse.Zlib) returns (ok: bool, out: seq<byte>)
      requires Valid() && firstChunk && seen == [] && CrcIs32Bit(codec) && z.inflateInit
      requires forall i :: 0 <= i < |chunks| ==> 0 < |chunks[i]| < TWO_TO_31
      requires settings.gzip || chunks != []
      requires |Decoded(Analyse(codec, settings.noHeader, settings.gzip, Flatten(chunks)))| <= room < TWO_TO_32
      modifies this, gzipHeader, gzipFooter
      ensures Valid() && firstChunk && settings == old(settings)
      ensures ok <==> Accepts(codec, settings.noHeader, settings.gzip, Flatten(chunks))
      ensures ok ==> out == Decoded(Analyse(codec, settings.noHeader, settings.gzip, Flatten(chunks)))
    {
      assert chunks[..0] == [] && chunks[..|chunks|] == chunks;
      ok, out := FeedChunks(chunks, 0, [], room, z);
      if !ok { return; }
      assert seen + [] == seen;
      if firstChunk {
        assert !Accepts(codec, settings.noHeader, settings.gzip, seen);
      }
      ok := UncompressChunkDone(z);
    }

    /** Whether the bytes begin with a complete member header. */
    static method HasGzipHeader(source: seq<byte>) returns (has: bool)
      ensures has <==> exists n: nat :: n <= |source| && IsHeader(source[..n])
    {
      var header := new GZipHeader();
      var status, headerEnd := header.ReadMore(source);
      has := status == Complete;
      if has {
        CompleteIff(source, headerEnd);
      } else if n: nat :| n <= |source| && IsHeader(source[..n]) {
        CompleteIff(source, n);
        assert false;
      }
    }

    /** Decompresses a gzip message into a buffer as long as the message claims to need, unless that is more
        than the caller expects. It succeeds exactly on acceptable messages of at most the expected size,
        even though the claim cannot be trusted. */
    method UncompressGzipAndAllocate(source: seq<byte>, maxLen: nat, allocates: bool, z: StreamReuse.Zlib)
      returns (err: ZCode, dest: seq<byte>)
      requires Valid() && firstChunk && seen == [] && CrcIs32Bit(codec) && |source| < TWO_TO_31 && z.inflateInit
      modifies this, gzipHeader, gzipFooter
      ensures Valid() && firstChunk
      ensures err == Z_OK <==>
                && old(settings).gzip && allocates
                && Accepts(codec, old(settings).noHeader, true, source)
                && |Decoded(Analyse(codec, old(settings).noHeader, true, source))| < TWO_TO_32
                && |Decoded(Analyse(codec, old(settings).noHeader, true, source))| <= maxLen
      ensures err == Z_OK ==> dest == Decoded(Analyse(codec, old(settings).noHeader, true, source))
    {
      dest := [];
      if !settings.gzip { return Z_VERSION_ERROR, dest; }
      ClaimSuffices(codec, settings.noHeader, source, maxLen);
      assert [] + source == source;
      var claimed := GzipUncompressedLength(source);
      if claimed > maxLen {
        var has := HasGzipHeader(source);
        return if has then Z_MEM_ERROR else Z_DATA_ERROR, dest;
      }
      if !allocates { return Z_MEM_ERROR, dest; }
      err, dest := Uncompress(source, claimed, z);
      assert [] + dest == dest;
      if err != Z_OK {
        dest := [];
      }
    }
  }

  /** Chunked equals whole: two objects with the same settings, one fed a message in one call, the other in
      any non-empty chunks. */
  method ChunkedEqualsWhole<S(!new,==)>(a: ZLib<S>, b: ZLib<S>, chunks: seq<seq<byte>>, room: nat, z: StreamReuse.Zlib)
    returns (whole: ZCode, wholeOut: seq<byte>, chunked: bool, chunkedOut: seq<byte>)
    requires a != b && a.gzipHeader != b.gzipHeader && a.gzipFooter != b.gzipFooter
    requires a.Valid() && a.firstChunk && a.seen == [] && b.Valid() && b.firstChunk && b.seen == []
    requires a.codec == b.codec && a.settings == b.settings && CrcIs32Bit(a.codec) && z.inflateInit
    requires |Flatten(chunks)| < TWO_TO_31 && forall i :: 0 <= i < |chunks| ==> 0 < |chunks[i]| < TWO_TO_31
    requires a.settings.gzip || chunks != []
    requires |Decoded(Analyse(a.codec, a.settings.noHeader, a.settings.gzip, Flatten(chunks)))| <= room < TWO_TO_32
    modifies a, a.gzipHeader, a.gzipFooter, b, b.gzipHeader, b.gzipFooter
    ensures chunked <==> whole == Z_OK
    ensures chunked ==> chunkedOut == wholeOut
  {
    assert [] + Flatten(chunks) == Flatten(chunks);
    whole, wholeOut := a.Uncompress(Flatten(chunks), room, z);
    assert [] + wholeOut == wholeOut;
    chunked, chunkedOut := b.UncompressInChunks(chunks, room, z);
  }

  /** Round trip on one object, whatever it was used for before: what Compress wrote in gzip mode says how
      long its data is, and decompresses into exactly that much room. */
  method CompressThenUncompress<S(!new,==)>(zlib: ZLib<S>, data: seq<byte>, room: nat, z: StreamReuse.Zlib)
    returns (err: ZCode, message: seq<byte>, backErr: ZCode, back: seq<byte>)
    requires zlib.Valid() && zlib.firstChunk && room < TWO_TO_31 && zlib.settings.gzip
    requires Inverts(zlib.codec) && CrcIs32Bit(zlib.codec) && z.inflateInit
    modifies zlib, zlib.gzipHeader, zlib.gzipFooter
    ensures zlib.Valid() && zlib.firstChunk
    ensures err == Z_OK ==> GzipUncompressedLength(message) == |data| && backErr == Z_OK && back == data
  {
    back, backErr := [], Z_OK;
    err, message := zlib.Compress(data, room, z);
    if err == Z_OK {
      GzipRoundTrip(zlib.codec, StreamReuse.ParamsOf(zlib.settings), data);
      assert [] + message == message;
      backErr, back := zlib.Uncompress(message, GzipUncompressedLength(message), z);
      assert [] + back == back;
    }
  }

  /** Two messages one after the other, the first of which ends inside its header: it is refused, and then the
      second is judged as the continuation of the first. */
  method UncompressAfterCut<S(!new,==)>(zlib: ZLib<S>, cut: seq<byte>, message: seq<byte>, room: nat, z: StreamReuse.Zlib)
    returns (cutErr: ZCode, err: ZCode, out: seq<byte>)
    requires zlib.Valid() && zlib.firstChunk && zlib.seen == [] && CrcIs32Bit(zlib.codec) && z.inflateInit
    requires |cut| < TWO_TO_31 && |message| < TWO_TO_31 && room < TWO_TO_32
    requires HeaderOf(zlib.settings.gzip, cut).More?
    modifies zlib, zlib.gzipHeader, zlib.gzipFooter
    ensures zlib.Valid() && zlib.firstChunk && zlib.settings == old(zlib.settings) && cutErr != Z_OK
    ensures var both := Analyse(zlib.codec, zlib.settings.noHeader, zlib.settings.gzip, cut + message);
            && (err == Z_OK <==> Accepts(zlib.codec, zlib.settings.noHeader, zlib.settings.gzip, cut + message)
                                 && |Decoded(both)| <= room)
            && (err == Z_OK ==> out == Decoded(both))
  {
    var dropped;
    assert [] + cut == cut;
    cutErr, dropped := zlib.Uncompress(cut, room, z);
    err, out := zlib.Uncompress(message, room, z);
    assert [] + out == out;
  }
}
