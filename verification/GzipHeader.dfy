/**
  The resumable gzip header parser.

  `Parse` gives the meaning of the parser one byte at a time. `GZipHeader.ReadMore` is the loop of the
  program, which skips absent fields without consuming input and swallows whole extra fields and
  zero-terminated strings at once; its contract says that it computes `Parse`.
 */
module GzipHeader {
  import opened Bytes

  const ID1: byte := 0x1f
  const ID2: byte := 0x8b
  const DEFLATED: byte := 8

  // The states, numbered as the program numbers them: most transitions just add one.
  const IN_HEADER_ID1: nat := 0
  const IN_HEADER_ID2: nat := 1
  const IN_HEADER_CM: nat := 2
  const IN_HEADER_FLG: nat := 3
  const IN_HEADER_MTIME_BYTE_0: nat := 4
  const IN_HEADER_OS: nat := 9
  const IN_XLEN_BYTE_0: nat := 10
  const IN_XLEN_BYTE_1: nat := 11
  const IN_FEXTRA: nat := 12
  const IN_FNAME: nat := 13
  const IN_FCOMMENT: nat := 14
  const IN_FHCRC_BYTE_0: nat := 15
  const IN_FHCRC_BYTE_1: nat := 16
  const IN_DONE: nat := 17

  /** The four flag bits that the parser keeps; a bit is cleared once its field has been read. */
  datatype Flags = Flags(fhcrc: bool, fextra: bool, fname: bool, fcomment: bool)

  const NO_FLAGS: Flags := Flags(false, false, false, false)

  /** The flag bits of the FLG byte; FTEXT and the reserved bits are masked out. */
  function FlagsOf(b: byte): (f: Flags) {
    Flags(b / 2 % 2 == 1, b / 4 % 2 == 1, b / 8 % 2 == 1, b / 16 % 2 == 1)
  }

  /** The three fields of the parser, as a value. */
  datatype Parser = Parser(state: nat, flags: Flags, extra: nat)

  const START: Parser := Parser(IN_HEADER_ID1, NO_FLAGS, 0)

  /** What every reachable parser satisfies: a field that is behind us is no longer flagged, a field that
      we are inside of still is, and the extra-field counter fits its 16 bits. */
  predicate WellFormed(p: Parser) {
    && p.state <= IN_DONE
    && p.extra < 0x1_0000
    && (p.state == IN_XLEN_BYTE_1 ==> p.extra < 256)
    && (p.state == IN_XLEN_BYTE_1 || p.state == IN_FEXTRA ==> p.flags.fextra)
    && (p.state == IN_FEXTRA ==> p.extra > 0)
    && (p.state > IN_FEXTRA ==> !p.flags.fextra)
    && (p.state > IN_FNAME ==> !p.flags.fname)
    && (p.state > IN_FCOMMENT ==> !p.flags.fcomment)
    && (p.state == IN_FHCRC_BYTE_1 ==> p.flags.fhcrc)
    && (p.state == IN_DONE ==> !p.flags.fhcrc)
  }

  /** The header is complete: the fixed part has been read and no optional field is outstanding. */
  predicate Done(p: Parser) {
    p.state > IN_HEADER_OS && p.flags == NO_FLAGS
  }

  /** The parser is at an optional field that is absent. */
  predicate Skippable(p: Parser) {
    || (p.state == IN_XLEN_BYTE_0 && !p.flags.fextra)
    || (p.state == IN_FNAME && !p.flags.fname)
    || (p.state == IN_FCOMMENT && !p.flags.fcomment)
    || (p.state == IN_FHCRC_BYTE_0 && !p.flags.fhcrc)
  }

  /** Moves past one absent field. */
  function SkipOne(p: Parser): (q: Parser)
    requires WellFormed(p) && Skippable(p)
    ensures WellFormed(q) && q.state > p.state && (Done(q) <==> Done(p))
  {
    if p.state == IN_XLEN_BYTE_0 then p.(state := IN_FNAME)
    else if p.state == IN_FNAME then p.(state := IN_FCOMMENT)
    else if p.state == IN_FCOMMENT then p.(state := IN_FHCRC_BYTE_0)
    else p.(state := IN_DONE)
  }

  /** The parser with every absent field skipped. */
  function Skip(p: Parser): (q: Parser)
    requires WellFormed(p)
    ensures WellFormed(q) && !Skippable(q) && q.state >= p.state && (Done(q) <==> Done(p))
    decreases IN_DONE - p.state
  {
    if Skippable(p) then Skip(SkipOne(p)) else p
  }

  datatype StepResult = Wrong | Next(p: Parser)

  /** Leaves the extra field when its last byte has been read. */
  function AfterExtra(p: Parser): (q: Parser) {
    if p.extra == 0 then Parser(IN_FNAME, p.flags.(fextra := false), 0) else p.(state := IN_FEXTRA)
  }

  /** The parser is inside a zero-terminated string. */
  predicate InString(p: Parser) {
    (p.state == IN_FNAME && p.flags.fname) || (p.state == IN_FCOMMENT && p.flags.fcomment)
  }

  /** The parser after the terminator of the string it is in. */
  function AfterString(p: Parser): (q: Parser)
    requires WellFormed(p) && InString(p)
    ensures WellFormed(q)
  {
    if p.state == IN_FNAME then p.(state := IN_FCOMMENT, flags := p.flags.(fname := false))
    else p.(state := IN_FHCRC_BYTE_0, flags := p.flags.(fcomment := false))
  }

  /** Reads one byte of the ten-byte fixed part: only the first three have a required value. */
  function FixedByte(p: Parser, b: byte): (r: StepResult)
    requires WellFormed(p) && p.state <= IN_HEADER_OS
    ensures r.Next? ==> WellFormed(r.p)
  {
    if p.state <= IN_HEADER_CM then
      var required := if p.state == IN_HEADER_ID1 then ID1 else if p.state == IN_HEADER_ID2 then ID2 else DEFLATED;
      if b != required then Wrong else Next(p.(state := p.state + 1))
    else
      Next(Parser(p.state + 1, if p.state == IN_HEADER_FLG then FlagsOf(b) else p.flags, p.extra))
  }

  /** Reads one byte of an optional field that is present. */
  function OptionalByte(p: Parser, b: byte): (q: Parser)
    requires WellFormed(p) && p.state > IN_HEADER_OS && !Skippable(p) && !Done(p)
    ensures WellFormed(q)
  {
    if p.state == IN_XLEN_BYTE_0 then p.(state := IN_XLEN_BYTE_1, extra := b)
    else if p.state == IN_XLEN_BYTE_1 then AfterExtra(p.(extra := p.extra + 256 * (b as int)))
    else if p.state == IN_FEXTRA then AfterExtra(p.(extra := p.extra - 1))
    else if p.state <= IN_FCOMMENT then (if b == 0 then AfterString(p) else p)
    else if p.state == IN_FHCRC_BYTE_0 then p.(state := IN_FHCRC_BYTE_1)
    else p.(state := IN_DONE, flags := p.flags.(fhcrc := false))
  }

  /** Reads one byte, in a state where there is something to read. */
  function Consume(p: Parser, b: byte): (r: StepResult)
    requires WellFormed(p) && !Skippable(p) && !Done(p)
    ensures r.Next? ==> WellFormed(r.p)
  {
    if p.state <= IN_HEADER_OS then FixedByte(p, b) else Next(OptionalByte(p, b))
  }

  /** The meaning of a stretch of input: the header is still incomplete, it is invalid, or it ends after
      so many bytes. */
  datatype Outcome = More(p: Parser) | Bad | End(consumed: nat)

  /** Moves an outcome to the right by `k` bytes. */
  function Shift(k: nat, o: Outcome): (r: Outcome) {
    if o.End? then End(k + o.consumed) else o
  }

  /** The outcome of reading `s` from position `i` on; an end is an absolute position in `s`. */
  function ParseFrom(p: Parser, s: seq<byte>, i: nat): (o: Outcome)
    requires WellFormed(p) && i <= |s|
    ensures o.More? ==> WellFormed(o.p) && !Done(o.p)
    ensures o.End? ==> i <= o.consumed <= |s|
    decreases |s| - i
  {
    if Done(p) then End(i)
    else if i == |s| then More(p)
    else match Consume(Skip(p), s[i])
      case Wrong => Bad
      case Next(q) => ParseFrom(q, s, i + 1)
  }

  function Parse(p: Parser, s: seq<byte>): (o: Outcome)
    requires WellFormed(p)
    ensures o.More? ==> WellFormed(o.p) && !Done(o.p)
    ensures o.End? ==> o.consumed <= |s|
  {
    ParseFrom(p, s, 0)
  }

  /** Reading on in `s + t` from a position in `t` is reading `t`. */
  lemma {:induction false} ParseAfter(p: Parser, s: seq<byte>, t: seq<byte>, j: nat)
    requires WellFormed(p) && j <= |t|
    ensures ParseFrom(p, s + t, |s| + j) == Shift(|s|, ParseFrom(p, t, j))
    decreases |t| - j
  {
    if !Done(p) && j < |t| {
      assert (s + t)[|s| + j] == t[j];
      match Consume(Skip(p), t[j])
      case Wrong =>
      case Next(q) => ParseAfter(q, s, t, j + 1);
    }
  }

  lemma {:induction false} ParseSplitFrom(p: Parser, s: seq<byte>, t: seq<byte>, i: nat)
    requires WellFormed(p) && i <= |s|
    ensures ParseFrom(p, s + t, i) ==
            match ParseFrom(p, s, i)
            case More(q) => Shift(|s|, Parse(q, t))
            case Bad => Bad
            case End(n) => End(n)
    decreases |s| - i
  {
    if Done(p) {
    } else if i == |s| {
      ParseAfter(p, s, t, 0);
    } else {
      assert (s + t)[i] == s[i];
      match Consume(Skip(p), s[i])
      case Wrong =>
      case Next(q) => ParseSplitFrom(q, s, t, i + 1);
    }
  }

  /** Feeding two stretches one after the other is the same as feeding them at once. */
  lemma ParseSplit(p: Parser, s: seq<byte>, t: seq<byte>)
    requires WellFormed(p)
    ensures Parse(p, s + t) ==
            match Parse(p, s)
            case More(q) => Shift(|s|, Parse(q, t))
            case Bad => Bad
            case End(n) => End(n)
  {
    ParseSplitFrom(p, s, t, 0);
  }

  /** The header alone parses to its own end. */
  lemma ParsePrefix(p: Parser, s: seq<byte>, n: nat)
    requires WellFormed(p) && Parse(p, s) == End(n)
    ensures n <= |s| && Parse(p, s[..n]) == End(n)
  {
    ParseSplit(p, s[..n], s[n..]);
    assert s[..n] + s[n..] == s;
  }

  /** Swallowing `k` bytes of an extra field at once. */
  lemma {:induction false} ParseExtra(p: Parser, s: seq<byte>, i: nat, k: nat)
    requires WellFormed(p) && p.state == IN_FEXTRA && k <= p.extra && i + k <= |s|
    ensures WellFormed(AfterExtra(p.(extra := p.extra - k)))
    ensures ParseFrom(p, s, i) == ParseFrom(AfterExtra(p.(extra := p.extra - k)), s, i + k)
    decreases k
  {
    if k > 1 {
      ParseExtra(AfterExtra(p.(extra := p.extra - 1)), s, i + 1, k - 1);
    }
  }

  /** The second byte of the length of an extra field. An empty field is left at once. */
  lemma ParseLength(p: Parser, s: seq<byte>, i: nat)
    requires WellFormed(p) && p.state == IN_XLEN_BYTE_1 && i < |s|
    ensures var q := Parser(IN_FEXTRA, p.flags, p.extra + (s[i] as int) * 256);
            WellFormed(AfterExtra(q)) && ParseFrom(p, s, i) == ParseFrom(AfterExtra(q), s, i + 1)
  {
  }

  /** Swallowing a stretch of a string that does not hold its terminator. */
  lemma {:induction false} ParseString(p: Parser, s: seq<byte>, i: nat, k: nat)
    requires WellFormed(p) && InString(p) && i + k <= |s| && 0 !in s[i..i + k]
    ensures ParseFrom(p, s, i) == ParseFrom(p, s, i + k)
    decreases k
  {
    if k > 0 {
      assert s[i..i + k][0] == s[i] && s[i..i + k][1..] == s[i + 1..i + k];
      ParseString(p, s, i + 1, k - 1);
    }
  }

  /** memchr for a zero byte: the index of the first one at or after `from`, or the end. */
  method FindZero(s: seq<byte>, from: nat) returns (i: nat)
    requires from <= |s|
    ensures from <= i <= |s| && 0 !in s[from..i]
    ensures i < |s| ==> s[i] == 0
  {
    i := from;
    while i < |s| && s[i] != 0
      invariant from <= i <= |s| && 0 !in s[from..i]
    {
      assert s[from..i + 1] == s[from..i] + [s[i]];
      i := i + 1;
    }
  }

  datatype Status = Incomplete | Complete | Invalid

  /** The status that an outcome is reported as. */
  function StatusOf(o: Outcome): (r: Status) {
    match o case More(_) => Incomplete case Bad => Invalid case End(_) => Complete
  }

  class GZipHeader {
    var state: nat
    var flags: Flags
    var extraLength: nat

    function Snapshot(): Parser
      reads this
    {
      Parser(state, flags, extraLength)
    }

    predicate Valid()
      reads this
    {
      WellFormed(Snapshot())
    }

    constructor ()
      ensures Valid() && Snapshot() == START
    {
      state, flags, extraLength := IN_HEADER_ID1, NO_FLAGS, 0;
    }

    method Reset()
      modifies this
      ensures Valid() && Snapshot() == START
    {
      state, flags, extraLength := IN_HEADER_ID1, NO_FLAGS, 0;
    }

    /** One byte of the ten-byte fixed part; false when it is not the byte it has to be. */
    method ReadFixed(b: byte) returns (ok: bool)
      requires Valid() && state <= IN_HEADER_OS
      modifies this
      ensures Valid() && (!ok ==> Snapshot() == old(Snapshot()))
      ensures Consume(old(Snapshot()), b) == if ok then Next(Snapshot()) else Wrong
    {
      if state == IN_HEADER_ID1 {
        if b != ID1 { return false; }
      } else if state == IN_HEADER_ID2 {
        if b != ID2 { return false; }
      } else if state == IN_HEADER_CM {
        if b != DEFLATED { return false; }
      } else if state == IN_HEADER_FLG {
        flags := FlagsOf(b);
      }
      state := state + 1;
      return true;
    }

    /** The second length byte, if it is still due, and as much of the extra field as is present. */
    method ReadExtra(inbuf: seq<byte>, from: nat) returns (pos: nat)
      requires Valid() && (state == IN_XLEN_BYTE_1 || state == IN_FEXTRA) && from < |inbuf|
      modifies this
      ensures Valid() && from < pos <= |inbuf|
      ensures ParseFrom(old(Snapshot()), inbuf, from) == ParseFrom(Snapshot(), inbuf, pos)
    {
      pos := from;
      if state == IN_XLEN_BYTE_1 {
        ParseLength(Snapshot(), inbuf, pos);
        extraLength := extraLength + (inbuf[pos] as int) * 256;
        pos, state := pos + 1, state + 1;
        // falls through into the extra field, so that an empty one is left at once
      }
      pos := ReadField(inbuf, pos);
    }

    /** As much of the extra field as is present; it may be empty. */
    method ReadField(inbuf: seq<byte>, from: nat) returns (pos: nat)
      requires state == IN_FEXTRA && WellFormed(AfterExtra(Snapshot())) && from <= |inbuf|
      modifies this
      ensures Valid() && from <= pos <= |inbuf| && (old(extraLength) > 0 && from < |inbuf| ==> from < pos)
      ensures ParseFrom(AfterExtra(old(Snapshot())), inbuf, from) == ParseFrom(Snapshot(), inbuf, pos)
    {
      var numExtraBytes := if extraLength < |inbuf| - from then extraLength else |inbuf| - from;
      ghost var inField := Snapshot();
      if extraLength > 0 {
        ParseExtra(inField, inbuf, from, numExtraBytes);
      }
      pos := from + numExtraBytes;
      extraLength := extraLength - numExtraBytes;
      if extraLength == 0 {
        state, flags := IN_FNAME, flags.(fextra := false);
      }
      assert Snapshot() == AfterExtra(inField.(extra := inField.extra - numExtraBytes));
    }

    /** As much of the file name or the comment as is present, with its terminator. */
    method ReadString(inbuf: seq<byte>, from: nat) returns (pos: nat)
      requires Valid() && InString(Snapshot()) && from < |inbuf|
      modifies this
      ensures Valid() && from < pos <= |inbuf|
      ensures ParseFrom(old(Snapshot()), inbuf, from) == ParseFrom(Snapshot(), inbuf, pos)
    {
      pos := FindZero(inbuf, from);
      ParseString(Snapshot(), inbuf, from, pos - from);
      if pos < |inbuf| {
        pos := pos + 1;
        if state == IN_FNAME {
          flags, state := flags.(fname := false), IN_FCOMMENT;
        } else {
          flags, state := flags.(fcomment := false), IN_FHCRC_BYTE_0;
        }
      }
    }

    /** Reads the next installment of a header. The verdict and the end of the header are those of
        `Parse`, and while the header is incomplete so is the parser that is left behind. */
    method ReadMore(inbuf: seq<byte>) returns (status: Status, headerEnd: nat)
      requires Valid()
      modifies this
      ensures Valid()
      ensures var o := Parse(old(Snapshot()), inbuf);
              && status == StatusOf(o)
              && (o.More? ==> Snapshot() == o.p)
              && (o.End? ==> headerEnd == o.consumed && Done(Snapshot()))
    {
      var pos, end := 0, |inbuf|;
      headerEnd := 0;
      ghost var result := Parse(Snapshot(), inbuf);
      while pos < end
        invariant pos <= end && Valid()
        invariant result == ParseFrom(Snapshot(), inbuf, pos)
        decreases end - pos, IN_DONE - state
      {
        if state <= IN_HEADER_OS {
          var ok := ReadFixed(inbuf[pos]);
          if !ok { return Invalid, headerEnd; }
          pos := pos + 1;
        } else if Skippable(Snapshot()) {
          state := if state == IN_XLEN_BYTE_0 then IN_FNAME else if state == IN_FHCRC_BYTE_0 then IN_DONE else state + 1;
        } else if state == IN_XLEN_BYTE_0 {
          extraLength := inbuf[pos];
          state := state + 1;
          pos := pos + 1;
        } else if state == IN_XLEN_BYTE_1 || state == IN_FEXTRA {
          pos := ReadExtra(inbuf, pos);
        } else if state == IN_FNAME || state == IN_FCOMMENT {
          pos := ReadString(inbuf, pos);
        } else if state == IN_FHCRC_BYTE_0 {
          state := state + 1;
          pos := pos + 1;
        } else if state == IN_FHCRC_BYTE_1 {
          flags := flags.(fhcrc := false);
          state := state + 1;
          pos := pos + 1;
        } else {
          return Complete, pos;
        }
      }
      if state > IN_HEADER_OS && flags == NO_FLAGS {
        return Complete, pos;
      } else {
        return Incomplete, headerEnd;
      }
    }

    /** Calls `ReadMore` on one chunk after another until it stops asking for more. Where the chunks were
        cut does not matter: the verdict and the absolute end of the header are those of their
        concatenation. */
    method ReadChunks(chunks: seq<seq<byte>>) returns (status: Status, headerEnd: nat)
      requires Valid()
      modifies this
      ensures Valid()
      ensures var o := Parse(old(Snapshot()), Flatten(chunks));
              && status == StatusOf(o)
              && (o.More? ==> Snapshot() == o.p)
              && (o.End? ==> headerEnd == o.consumed)
    {
      status, headerEnd := if Done(Snapshot()) then Complete else Incomplete, 0;
      var i := 0;
      ghost var start := Snapshot();
      assert Parse(start, Flatten([])) == if Done(start) then End(0) else More(start);
      assert chunks[..0] == [];
      while i < |chunks| && status == Incomplete
        invariant i <= |chunks| && Valid()
        invariant var o := Parse(start, Flatten(chunks[..i]));
                  && status == StatusOf(o)
                  && (o.More? ==> Snapshot() == o.p && headerEnd == |Flatten(chunks[..i])|)
                  && (o.End? ==> headerEnd == o.consumed)
      {
        ghost var before := Flatten(chunks[..i]);
        FlattenLast(chunks[..i + 1]);
        assert chunks[..i + 1][..i] == chunks[..i];
        ParseSplit(start, before, chunks[i]);
        var bytesInChunk;
        status, bytesInChunk := ReadMore(chunks[i]);
        headerEnd := headerEnd + if status == Incomplete then |chunks[i]| else bytesInChunk;
        i := i + 1;
      }
      FlattenSplit(chunks, i);
      ParseSplit(start, Flatten(chunks[..i]), Flatten(chunks[i..]));
      if i == |chunks| { assert Flatten(chunks[i..]) == []; assert chunks[..i] == chunks; }
    }
  }

  lemma {:induction false} FlattenSplit(chunks: seq<seq<byte>>, i: nat)
    requires i <= |chunks|
    ensures Flatten(chunks) == Flatten(chunks[..i]) + Flatten(chunks[i..])
    decreases i
  {
    if i > 0 {
      FlattenSplit(chunks[1..], i - 1);
      assert chunks[1..][..i - 1] == chunks[..i][1..];
      assert chunks[1..][i - 1..] == chunks[i..];
    } else {
      assert chunks[0..] == chunks;
    }
  }
}
