/**
  Reuse of zlib streams between messages.

  The wrapper keeps two records of settings: the ones the caller wants next (`settings`) and the ones that
  its live streams were last set up with (`init`). It reuses a stream when the two agree well enough. Both
  streams share one header-mode field in `init`.

  A stream that is not live is `None`; a live one carries the parameters that zlib really has it set to,
  which the program itself never sees. What zlib's own set-up calls return is an input (`Zlib`).
 */
module StreamReuse {
  import opened Codec
  import opened Wrappers

  const Z_DEFAULT_COMPRESSION: int := -1
  const MAX_WBITS: int := 15
  const DEF_MEM_LEVEL: int := 8

  datatype Settings = Settings(level: int, windowBits: int, memLevel: int, noHeader: bool, gzip: bool)

  const DEFAULT_SETTINGS: Settings := Settings(Z_DEFAULT_COMPRESSION, MAX_WBITS, DEF_MEM_LEVEL, false, false)

  function ParamsOf(s: Settings): DeflateParams {
    DeflateParams(s.level, s.windowBits, s.memLevel, s.noHeader)
  }

  datatype Reuse = Reuse(
    settings: Settings, init: Settings, comp: Option<DeflateParams>, uncomp: Option<bool>)

  const NEW_ZLIB: Reuse := Reuse(DEFAULT_SETTINGS, DEFAULT_SETTINGS, None, None)

  /** Whether each of zlib's set-up calls succeeds, should it be made. */
  datatype Zlib = Zlib(
    deflateInit: bool, deflateReset: bool, deflateParams: bool, inflateInit: bool, inflateReset: bool)

  // ---- The setters

  function SetNoHeaderMode(r: Reuse, noHeader: bool): (r': Reuse) {
    var s := r.(settings := r.settings.(noHeader := noHeader));
    if r.init.noHeader != noHeader then s.(comp := None, uncomp := None) else s
  }

  function SetGzipHeaderMode(r: Reuse): (r': Reuse) {
    SetNoHeaderMode(r.(settings := r.settings.(gzip := true)), true)
  }

  // ---- Setting up a stream for the first chunk of a message

  /** The live compressing stream cannot be adjusted to the wanted settings. */
  predicate MustRecreate(r: Reuse) {
    || r.init.windowBits != r.settings.windowBits
    || r.init.memLevel != r.settings.memLevel
    || r.init.noHeader != r.settings.noHeader
  }

  function DeflateInit(r: Reuse, z: Zlib): (r': Reuse) {
    if z.deflateInit then
      r.(comp := Some(ParamsOf(r.settings)),
         init := Settings(r.settings.level, r.settings.windowBits, r.settings.memLevel, r.settings.noHeader, r.init.gzip))
    else r
  }

  /** Returns with a live compressing stream exactly if it returns Z_OK. */
  function CompressInit(r: Reuse, z: Zlib): (r': Reuse) {
    var r1 := if MustRecreate(r) || !z.deflateReset then r.(comp := None) else r;
    var r2 :=
      if r1.comp.None? || r1.init.level == r1.settings.level then r1
      else if z.deflateParams then
        r1.(comp := Some(r1.comp.value.(level := r1.settings.level)), init := r1.init.(level := r1.settings.level))
      else r1.(comp := None);
    if r2.comp.None? then DeflateInit(r2, z) else r2
  }

  function InflateInit(r: Reuse, z: Zlib): (r': Reuse) {
    if z.inflateInit then
      r.(uncomp := Some(r.settings.noHeader), init := r.init.(noHeader := r.settings.noHeader))
    else r
  }

  /** Returns with a live decompressing stream exactly if it returns Z_OK. */
  function UncompressInit(r: Reuse, z: Zlib): (r': Reuse) {
    if r.uncomp.Some? && z.inflateReset then
      r.(uncomp := Some(r.settings.noHeader), init := r.init.(noHeader := r.settings.noHeader))
    else InflateInit(r.(uncomp := None), z)
  }

  function CompressErrorInit(r: Reuse): Reuse { r.(comp := None) }

  function UncompressErrorInit(r: Reuse): Reuse { r.(uncomp := None) }

  /** Back to the default settings, keeping the streams. Only the decompressing one is told of the header
      mode; the compressing one is merely reset. */
  function Reinit(r: Reuse, z: Zlib): (r': Reuse) {
    var r1 := r.(settings := DEFAULT_SETTINGS);
    var r2 := if r1.comp.Some? && !z.deflateReset then r1.(comp := None) else r1;
    if r2.uncomp.None? then r2
    else if z.inflateReset then
      r2.(uncomp := Some(r2.settings.noHeader), init := r2.init.(noHeader := r2.settings.noHeader))
    else r2.(uncomp := None)
  }

  // ---- What is true between messages

  /** The live compressing stream is what `init` says, and has the wanted header mode. */
  predicate Faithful(r: Reuse) {
    r.comp.Some? ==> r.comp.value == ParamsOf(r.init) && r.init.noHeader == r.settings.noHeader
  }

  /** A call on a wrapper between two messages; a message may end in an error that drops its stream. */
  datatype Op =
    | SetLevel(level: int)
    | SetWindowBits(bits: int)
    | SetMemLevel(level: int)
    | SetNoHeader(noHeader: bool)
    | SetGzip
    | Compress(z: Zlib, failed: bool)
    | Uncompress(z: Zlib, failed: bool)

  function Apply(r: Reuse, op: Op): (r': Reuse) {
    match op
    case SetLevel(level) => r.(settings := r.settings.(level := level))
    case SetWindowBits(bits) => r.(settings := r.settings.(windowBits := bits))
    case SetMemLevel(level) => r.(settings := r.settings.(memLevel := level))
    case SetNoHeader(noHeader) => SetNoHeaderMode(r, noHeader)
    case SetGzip => SetGzipHeaderMode(r)
    case Compress(z, failed) =>
      var r' := CompressInit(r, z);
      if failed then CompressErrorInit(r') else r'
    case Uncompress(z, failed) =>
      var r' := UncompressInit(r, z);
      if failed then UncompressErrorInit(r') else r'
  }

  function ApplyAll(r: Reuse, ops: seq<Op>): (r': Reuse)
    decreases |ops|
  {
    if ops == [] then r else ApplyAll(Apply(r, ops[0]), ops[1..])
  }

  lemma {:induction false} RunsStayFaithful(r: Reuse, ops: seq<Op>)
    requires Faithful(r)
    ensures Faithful(ApplyAll(r, ops))
    decreases |ops|
  {
    if ops != [] {
      RunsStayFaithful(Apply(r, ops[0]), ops[1..]);
    }
  }

  /** After any run of setters and messages, a first chunk is compressed by a stream that is configured as
      if it had been created for the current settings, and decompressed in the current header mode. */
  lemma ReuseRefinesFresh(ops: seq<Op>, z: Zlib)
    ensures var r := ApplyAll(NEW_ZLIB, ops);
            var r' := CompressInit(r, z);
            && r'.settings == r.settings
            && (r'.comp.Some? ==> r'.comp.value == ParamsOf(r.settings) == ParamsOf(r'.init))
            && (z.deflateInit ==> r'.comp.Some?)
    ensures var r := ApplyAll(NEW_ZLIB, ops);
            var r' := UncompressInit(r, z);
            && r'.settings == r.settings
            && (r'.uncomp.Some? ==> r'.uncomp.value == r.settings.noHeader == r'.init.noHeader)
            && (r'.uncomp.Some? <==> z.inflateInit || (r.uncomp.Some? && z.inflateReset))
  {
    RunsStayFaithful(NEW_ZLIB, ops);
  }

  // ---- Reinit

  /** Reinit keeps the invariant exactly when it does not leave a headerless compressing stream alive. */
  lemma ReinitKeepsFaithfulIff(r: Reuse, z: Zlib)
    requires Faithful(r)
    ensures Faithful(Reinit(r, z)) <==> !(r.comp.Some? && r.init.noHeader && z.deflateReset)
  {
    if r.comp.Some? && r.init.noHeader && z.deflateReset {
      assert r.comp.value.noHeader;
    }
  }

  const ALL_SUCCEED: Zlib := Zlib(true, true, true, true, true)

  /** A message that is begun now is compressed by a stream as the settings ask for, if by any. */
  predicate CompressesAsAsked(r: Reuse, z: Zlib) {
    var r' := CompressInit(r, z);
    r'.comp.Some? ==> r'.comp.value == ParamsOf(r.settings)
  }

  /** Whatever is done from here on, short of Reinit, every message is compressed as the settings ask for. */
  ghost predicate AlwaysCompressesAsAsked(r: Reuse) {
    forall ops: seq<Op>, z: Zlib :: CompressesAsAsked(ApplyAll(r, ops), z)
  }

  /** Reinit is safe, for every run of calls that may follow it, exactly when it does not leave a headerless
      compressing stream alive. */
  lemma ReinitIsSafeIff(r: Reuse, z: Zlib)
    requires Faithful(r)
    ensures AlwaysCompressesAsAsked(Reinit(r, z)) <==> !(r.comp.Some? && r.init.noHeader && z.deflateReset)
  {
    ReinitKeepsFaithfulIff(r, z);
    if r.comp.Some? && r.init.noHeader && z.deflateReset {
      HeaderGoesMissing(Reinit(r, z));
    } else {
      forall ops: seq<Op>, z': Zlib ensures CompressesAsAsked(ApplyAll(Reinit(r, z), ops), z') {
        RunsStayFaithful(Reinit(r, z), ops);
      }
    }
  }

  /** With the window and memory sizes that the stream has, a decompression is enough to make the next
      compression reuse it. */
  lemma HeaderGoesMissing(r: Reuse)
    requires r.comp.Some? && r.comp.value.noHeader && !r.settings.noHeader
    ensures !AlwaysCompressesAsAsked(r)
  {
    var bits, level, message := SetWindowBits(r.init.windowBits), SetMemLevel(r.init.memLevel), Uncompress(ALL_SUCCEED, false);
    var r1 := Apply(r, bits);
    var r2 := Apply(r1, level);
    var r3 := Apply(r2, message);
    assert ApplyAll(r3, []) == r3 && ApplyAll(r2, [message]) == r3;
    assert ApplyAll(r1, [level, message]) == r3 && ApplyAll(r, [bits, level, message]) == r3;
    assert !CompressesAsAsked(r3, ALL_SUCCEED);
  }

  /** The shortest way: after Reinit, a decompression and a compression with the default settings, the
      compression is headerless although the settings ask for zlib headers exactly when a headerless compressing
      stream was alive that had the default window and memory sizes. */
  lemma ReinitBreaksReuseIff(r: Reuse)
    requires Faithful(r)
    ensures var r' := CompressInit(UncompressInit(Reinit(r, ALL_SUCCEED), ALL_SUCCEED), ALL_SUCCEED);
            && r'.comp.Some?
            && !r'.settings.noHeader
            && (r'.comp.value.noHeader
                <==> r.comp.Some? && r.init.noHeader && r.init.windowBits == MAX_WBITS && r.init.memLevel == DEF_MEM_LEVEL)
  {
    var r1 := Reinit(r, ALL_SUCCEED);
    var r2 := UncompressInit(r1, ALL_SUCCEED);
    assert !r2.settings.noHeader && !r2.init.noHeader;
    if r.comp.Some? {
      assert r2.comp == r.comp;
    }
  }

  /** It does happen: one compression in gzip mode is enough to get there. */
  lemma ReinitBreaksReuse()
    ensures var r := ApplyAll(NEW_ZLIB, [SetGzip, Compress(ALL_SUCCEED, false)]);
            var r' := CompressInit(UncompressInit(Reinit(r, ALL_SUCCEED), ALL_SUCCEED), ALL_SUCCEED);
            && r'.comp.Some?
            && r'.comp.value.noHeader
            && !r'.settings.noHeader
  {
    var r1 := Apply(NEW_ZLIB, SetGzip);
    var r2 := Apply(r1, Compress(ALL_SUCCEED, false));
    assert ApplyAll(r2, []) == r2;
    assert ApplyAll(r1, [Compress(ALL_SUCCEED, false)]) == r2;
    assert ApplyAll(NEW_ZLIB, [SetGzip, Compress(ALL_SUCCEED, false)]) == r2;
    ReinitBreaksReuseIff(r2);
  }
}
