/**
  The language that the header parser accepts: exactly the member headers of section 2.3 of RFC 1952
  with CM = 8, whatever the reserved flag bits and the header CRC are.

  A header is described by the fields it is made of (`Member`) and by how they are laid out (`Encode`),
  without reference to the parser.
 */
module GzipHeaderLanguage {
  import opened Bytes
  import opened GzipHeader

  /** The fields of a member header: the FLG byte, the six bytes of MTIME, XFL and OS, and the optional
      fields, which are present as the bits of FLG say. */
  datatype Member = Member(
    flg: byte, fixed: seq<byte>, extra: seq<byte>, name: seq<byte>, comment: seq<byte>, hcrc: seq<byte>)

  predicate ValidMember(m: Member) {
    && |m.fixed| == 6
    && |m.extra| < 0x1_0000
    && 0 !in m.name && 0 !in m.comment
    && |m.hcrc| == 2
  }

  function ExtraField(present: bool, extra: seq<byte>): seq<byte>
    requires |extra| < 0x1_0000
  {
    if present then [|extra| % 256, |extra| / 256] + extra else []
  }

  function StringField(present: bool, text: seq<byte>): seq<byte> {
    if present then text + [0] else []
  }

  function CrcField(present: bool, hcrc: seq<byte>): seq<byte> {
    if present then hcrc else []
  }

  function Encode(m: Member): seq<byte>
    requires ValidMember(m)
  {
    var f := FlagsOf(m.flg);
    [ID1, ID2, DEFLATED, m.flg] + m.fixed + ExtraField(f.fextra, m.extra)
    + StringField(f.fname, m.name) + StringField(f.fcomment, m.comment) + CrcField(f.fhcrc, m.hcrc)
  }

  /** `s` is a complete member header and nothing more. */
  ghost predicate IsHeader(s: seq<byte>) {
    exists m :: ValidMember(m) && Encode(m) == s
  }

  // The parser at the start of each optional field, with the flags that are then outstanding.

  function AtExtra(f: Flags): Parser { Parser(IN_XLEN_BYTE_0, f, 0) }
  function AtName(f: Flags): Parser { Parser(IN_FNAME, f.(fextra := false), 0) }
  function AtComment(f: Flags): Parser { Parser(IN_FCOMMENT, f.(fextra := false, fname := false), 0) }
  function AtCrc(f: Flags): Parser {
    Parser(IN_FHCRC_BYTE_0, f.(fextra := false, fname := false, fcomment := false), 0)
  }

  /** Equal, except that two incomplete headers need not stop in the same state. */
  predicate Agree(a: Outcome, b: Outcome) {
    a == b || (a.More? && b.More?)
  }

  lemma AgreeSkip(p: Parser, s: seq<byte>, i: nat)
    requires WellFormed(p) && Skippable(p) && i <= |s|
    ensures Agree(ParseFrom(p, s, i), ParseFrom(SkipOne(p), s, i))
  {
  }

  // ---- The fixed part

  lemma {:induction false} FixedTail(p: Parser, s: seq<byte>, i: nat)
    requires WellFormed(p) && IN_HEADER_MTIME_BYTE_0 <= p.state <= IN_XLEN_BYTE_0
    requires i <= |s|
    ensures if i + IN_XLEN_BYTE_0 - p.state <= |s|
            then ParseFrom(p, s, i) == ParseFrom(p.(state := IN_XLEN_BYTE_0), s, i + IN_XLEN_BYTE_0 - p.state)
            else ParseFrom(p, s, i).More?
    decreases IN_XLEN_BYTE_0 - p.state
  {
    if p.state < IN_XLEN_BYTE_0 && i < |s| {
      FixedTail(p.(state := p.state + 1), s, i + 1);
    }
  }

  /** Some byte that is present and has a required value does not have it. */
  predicate WrongMagic(s: seq<byte>) {
    || (|s| > 0 && s[0] != ID1)
    || (|s| > 1 && s[1] != ID2)
    || (|s| > 2 && s[2] != DEFLATED)
  }

  lemma FixedPart(s: seq<byte>)
    ensures WrongMagic(s) ==> Parse(START, s) == Bad
    ensures !WrongMagic(s) && |s| < 10 ==> Parse(START, s).More?
    ensures !WrongMagic(s) && |s| >= 10 ==> Parse(START, s) == ParseFrom(AtExtra(FlagsOf(s[3])), s, 10)
  {
    var p1 := START.(state := IN_HEADER_ID2);
    var p2 := START.(state := IN_HEADER_CM);
    var p3 := START.(state := IN_HEADER_FLG);
    if |s| > 0 && s[0] == ID1 {
      assert ParseFrom(START, s, 0) == ParseFrom(p1, s, 1);
      if |s| > 1 && s[1] == ID2 {
        assert ParseFrom(p1, s, 1) == ParseFrom(p2, s, 2);
        if |s| > 2 && s[2] == DEFLATED {
          assert ParseFrom(p2, s, 2) == ParseFrom(p3, s, 3);
          if |s| > 3 {
            var p4 := Parser(IN_HEADER_MTIME_BYTE_0, FlagsOf(s[3]), 0);
            assert ParseFrom(p3, s, 3) == ParseFrom(p4, s, 4);
            FixedTail(p4, s, 4);
          }
        }
      }
    }
  }

  // ---- From fields to positions: what is encoded is read back

  /** The two length bytes of an extra field. */
  lemma ReadsLength(f: Flags, s: seq<byte>, i: nat)
    requires f.fextra && i <= |s|
    ensures i + 2 > |s| ==> ParseFrom(AtExtra(f), s, i).More?
    ensures i + 2 <= |s| ==>
              ParseFrom(AtExtra(f), s, i)
              == ParseFrom(AfterExtra(Parser(IN_FEXTRA, f, s[i] as int + 256 * (s[i + 1] as int))), s, i + 2)
  {
    if i < |s| {
      assert ParseFrom(AtExtra(f), s, i) == ParseFrom(Parser(IN_XLEN_BYTE_1, f, s[i]), s, i + 1);
    }
  }

  lemma ReadsExtra(f: Flags, s: seq<byte>, i: nat, extra: seq<byte>)
    requires |extra| < 0x1_0000 && i <= |s| && ExtraField(f.fextra, extra) <= s[i..]
    ensures Agree(ParseFrom(AtExtra(f), s, i), ParseFrom(AtName(f), s, i + |ExtraField(f.fextra, extra)|))
  {
    if f.fextra {
      var field := ExtraField(true, extra);
      assert s[i] == s[i..][0] == field[0] && s[i + 1] == s[i..][1] == field[1];
      ReadsLength(f, s, i);
      assert |extra| % 256 + 256 * (|extra| / 256) == |extra|;
      if |extra| > 0 {
        ParseExtra(Parser(IN_FEXTRA, f, |extra|), s, i + 2, |extra|);
      }
    } else {
      AgreeSkip(AtExtra(f), s, i);
    }
  }

  lemma ReadsString(p: Parser, s: seq<byte>, i: nat, text: seq<byte>)
    requires WellFormed(p) && (p.state == IN_FNAME || p.state == IN_FCOMMENT) && 0 !in text
    requires i <= |s| && StringField(InString(p), text) <= s[i..]
    ensures Agree(ParseFrom(p, s, i),
                  ParseFrom(if InString(p) then AfterString(p) else SkipOne(p), s, i + |StringField(InString(p), text)|))
  {
    if InString(p) {
      var k := |text|;
      assert s[i..i + k] == s[i..][..k] == text;
      ParseString(p, s, i, k);
      assert s[i + k] == s[i..][k] == 0;
    } else {
      AgreeSkip(p, s, i);
    }
  }

  lemma ReadsCrc(f: Flags, s: seq<byte>, i: nat, hcrc: seq<byte>)
    requires |hcrc| == 2 && i <= |s| && CrcField(f.fhcrc, hcrc) <= s[i..]
    ensures ParseFrom(AtCrc(f), s, i) == End(i + |CrcField(f.fhcrc, hcrc)|)
  {
    if f.fhcrc {
      var p1 := AtCrc(f).(state := IN_FHCRC_BYTE_1);
      assert ParseFrom(AtCrc(f), s, i) == ParseFrom(p1, s, i + 1);
      assert ParseFrom(p1, s, i + 1) == End(i + 2);
    }
  }

  /** The fields after the name. */
  lemma ReadsComment(f: Flags, s: seq<byte>, m: Member, i2: nat, i3: nat)
    requires ValidMember(m) && i2 <= i3 <= |s| && i3 == i2 + |StringField(f.fcomment, m.comment)|
    requires StringField(f.fcomment, m.comment) <= s[i2..] && CrcField(f.fhcrc, m.hcrc) <= s[i3..]
    ensures ParseFrom(AtComment(f), s, i2) == End(i3 + |CrcField(f.fhcrc, m.hcrc)|)
  {
    ReadsCrc(f, s, i3, m.hcrc);
    assert Agree(ParseFrom(AtComment(f), s, i2), ParseFrom(AtCrc(f), s, i3)) by {
      ReadsString(AtComment(f), s, i2, m.comment);
    }
  }

  /** The fields after the extra field. */
  lemma ReadsTail(f: Flags, s: seq<byte>, m: Member, i1: nat, i2: nat, i3: nat)
    requires ValidMember(m) && i1 <= i2 <= i3 <= |s|
    requires i2 == i1 + |StringField(f.fname, m.name)| && i3 == i2 + |StringField(f.fcomment, m.comment)|
    requires StringField(f.fname, m.name) <= s[i1..]
    requires StringField(f.fcomment, m.comment) <= s[i2..] && CrcField(f.fhcrc, m.hcrc) <= s[i3..]
    ensures ParseFrom(AtName(f), s, i1) == End(i3 + |CrcField(f.fhcrc, m.hcrc)|)
  {
    ReadsComment(f, s, m, i2, i3);
    assert Agree(ParseFrom(AtName(f), s, i1), ParseFrom(AtComment(f), s, i2)) by {
      ReadsString(AtName(f), s, i1, m.name);
    }
  }

  lemma ReadsAll(f: Flags, s: seq<byte>, m: Member, i1: nat, i2: nat, i3: nat)
    requires ValidMember(m) && 10 <= i1 <= i2 <= i3 <= |s| && !WrongMagic(s) && f == FlagsOf(s[3])
    requires i1 == 10 + |ExtraField(f.fextra, m.extra)| && i2 == i1 + |StringField(f.fname, m.name)|
    requires i3 == i2 + |StringField(f.fcomment, m.comment)|
    requires ExtraField(f.fextra, m.extra) <= s[10..] && StringField(f.fname, m.name) <= s[i1..]
    requires StringField(f.fcomment, m.comment) <= s[i2..] && CrcField(f.fhcrc, m.hcrc) <= s[i3..]
    ensures Parse(START, s) == End(i3 + |CrcField(f.fhcrc, m.hcrc)|)
  {
    FixedPart(s);
    ReadsExtra(f, s, 10, m.extra);
    ReadsTail(f, s, m, i1, i2, i3);
  }

  /** Every header, followed by anything at all, parses back to its own length. */
  lemma EncodedHeaderParses(m: Member, body: seq<byte>)
    requires ValidMember(m)
    ensures Parse(START, Encode(m) + body) == End(|Encode(m)|)
  {
    var f := FlagsOf(m.flg);
    var a := [ID1, ID2, DEFLATED, m.flg] + m.fixed;
    var e, n := ExtraField(f.fextra, m.extra), StringField(f.fname, m.name);
    var c, h := StringField(f.fcomment, m.comment), CrcField(f.fhcrc, m.hcrc);
    var s := Encode(m) + body;
    var i1 := 10 + |e|;
    var i2 := i1 + |n|;
    var i3 := i2 + |c|;
    assert e <= s[10..] && n <= s[i1..] && c <= s[i2..] && h <= s[i3..] by {
      Layout(a, e, n, c, h, body);
    }
    ReadsAll(f, s, m, i1, i2, i3);
  }

  /** Where the parts of a concatenation lie. */
  lemma Layout<T>(a: seq<T>, e: seq<T>, n: seq<T>, c: seq<T>, h: seq<T>, b: seq<T>)
    ensures var s := a + e + n + c + h + b;
            && e <= s[|a|..] && n <= s[|a| + |e|..] && c <= s[|a| + |e| + |n|..]
            && h <= s[|a| + |e| + |n| + |c|..]
  {
    var s := a + e + n + c + h + b;
    var t3 := h + b;
    var t2 := c + t3;
    var t1 := n + t2;
    assert s == a + e + n + c + t3;
    assert s == a + e + n + t2;
    assert s == a + e + t1;
    PartOf(a, e, t1);
    PartOf(a + e, n, t2);
    PartOf(a + e + n, c, t3);
    PartOf(a + e + n + c, h, b);
  }

  lemma PartOf<T>(x: seq<T>, y: seq<T>, z: seq<T>)
    ensures y <= (x + y + z)[|x|..]
  {
    assert (x + y + z)[|x|..] == y + z;
  }

  // ---- From positions to fields: what is accepted was encoded

  /** A header that ends has its whole extra field. */
  lemma ExtraIsPresent(p: Parser, s: seq<byte>, i: nat, n: nat)
    requires WellFormed(p) && p.state == IN_FEXTRA && i <= |s| && ParseFrom(p, s, i) == End(n)
    ensures i + p.extra <= |s|
    ensures ParseFrom(Parser(IN_FNAME, p.flags.(fextra := false), 0), s, i + p.extra) == End(n)
  {
    ParseExtra(p, s, i, if i + p.extra <= |s| then p.extra else |s| - i);
  }

  lemma FieldOfLength(s: seq<byte>, i: nat, len: nat)
    requires i + 2 + len <= |s| && len == s[i] as int + 256 * (s[i + 1] as int)
    ensures len < 0x1_0000 && s[i..i + 2 + len] == ExtraField(true, s[i + 2..i + 2 + len])
  {
    assert s[i..i + 2 + len] == [s[i], s[i + 1]] + s[i + 2..i + 2 + len];
    assert len % 256 == s[i] && len / 256 == s[i + 1];
  }

  /** A header that ends with an extra field announced has the two length bytes and the field. */
  lemma FindsPresentExtra(f: Flags, s: seq<byte>, i: nat, n: nat) returns (len: nat)
    requires f.fextra && i <= |s| && ParseFrom(AtExtra(f), s, i) == End(n)
    ensures i + 2 + len <= |s| && len == s[i] as int + 256 * (s[i + 1] as int)
    ensures ParseFrom(AtName(f), s, i + 2 + len) == End(n)
  {
    ReadsLength(f, s, i);
    len := s[i] as int + 256 * (s[i + 1] as int);
    FieldEnds(f, s, i + 2, len, n);
  }

  lemma FieldEnds(f: Flags, s: seq<byte>, i: nat, len: nat, n: nat)
    requires f.fextra && i <= |s| && len < 0x1_0000
    requires ParseFrom(AfterExtra(Parser(IN_FEXTRA, f, len)), s, i) == End(n)
    ensures i + len <= |s| && ParseFrom(AtName(f), s, i + len) == End(n)
  {
    if len > 0 {
      ExtraIsPresent(Parser(IN_FEXTRA, f, len), s, i, n);
    }
  }

  lemma FindsExtra(f: Flags, s: seq<byte>, i: nat, n: nat) returns (extra: seq<byte>, j: nat)
    requires i <= |s| && ParseFrom(AtExtra(f), s, i) == End(n)
    ensures |extra| < 0x1_0000 && i <= j <= n <= |s| && s[i..j] == ExtraField(f.fextra, extra)
    ensures ParseFrom(AtName(f), s, j) == End(n)
  {
    if f.fextra {
      var len := FindsPresentExtra(f, s, i, n);
      FieldOfLength(s, i, len);
      j := i + 2 + len;
      extra := s[i + 2..j];
    } else {
      AgreeSkip(AtExtra(f), s, i);
      extra, j := [], i;
    }
  }

  /** The first zero at or after `i`, or the end. */
  lemma {:induction false} FirstZero(s: seq<byte>, i: nat) returns (k: nat)
    requires i <= |s|
    ensures i <= k <= |s| && 0 !in s[i..k] && (k < |s| ==> s[k] == 0)
    decreases |s| - i
  {
    if i == |s| || s[i] == 0 {
      k := i;
    } else {
      k := FirstZero(s, i + 1);
      assert s[i..k] == [s[i]] + s[i + 1..k];
    }
  }

  lemma FindsString(p: Parser, s: seq<byte>, i: nat, n: nat) returns (text: seq<byte>, j: nat)
    requires WellFormed(p) && (p.state == IN_FNAME || p.state == IN_FCOMMENT)
    requires i <= |s| && ParseFrom(p, s, i) == End(n)
    ensures 0 !in text && i <= j <= n <= |s| && s[i..j] == StringField(InString(p), text)
    ensures ParseFrom(if InString(p) then AfterString(p) else SkipOne(p), s, j) == End(n)
  {
    if InString(p) {
      var k := FirstZero(s, i);
      ParseString(p, s, i, k - i);
      assert k < |s|;
      text, j := s[i..k], k + 1;
      assert s[i..j] == text + [s[k]];
    } else {
      AgreeSkip(p, s, i);
      text, j := [], i;
    }
  }

  lemma FindsCrc(f: Flags, s: seq<byte>, i: nat, n: nat) returns (hcrc: seq<byte>)
    requires i <= |s| && ParseFrom(AtCrc(f), s, i) == End(n)
    ensures |hcrc| == 2 && i <= n <= |s| && s[i..n] == CrcField(f.fhcrc, hcrc)
  {
    if f.fhcrc {
      assert i < |s|;
      var p1 := AtCrc(f).(state := IN_FHCRC_BYTE_1);
      assert ParseFrom(AtCrc(f), s, i) == ParseFrom(p1, s, i + 1);
      assert i + 1 < |s|;
      assert ParseFrom(p1, s, i + 1) == End(i + 2);
      hcrc := s[i..n];
    } else {
      hcrc := [0, 0];
    }
  }

  lemma FindsTail(f: Flags, s: seq<byte>, i1: nat, n: nat)
    returns (name: seq<byte>, comment: seq<byte>, hcrc: seq<byte>, i2: nat, i3: nat)
    requires i1 <= |s| && ParseFrom(AtName(f), s, i1) == End(n)
    ensures 0 !in name && 0 !in comment && |hcrc| == 2 && i1 <= i2 <= i3 <= n <= |s|
    ensures s[i1..i2] == StringField(f.fname, name) && s[i2..i3] == StringField(f.fcomment, comment)
    ensures s[i3..n] == CrcField(f.fhcrc, hcrc)
  {
    name, i2 := FindsString(AtName(f), s, i1, n);
    assert ParseFrom(AtComment(f), s, i2) == End(n);
    comment, i3 := FindsString(AtComment(f), s, i2, n);
    assert ParseFrom(AtCrc(f), s, i3) == End(n);
    hcrc := FindsCrc(f, s, i3, n);
  }

  lemma Assemble(s: seq<byte>, m: Member, i1: nat, i2: nat, i3: nat, n: nat)
    requires ValidMember(m) && 10 <= i1 <= i2 <= i3 <= n <= |s| && !WrongMagic(s)
    requires s[3] == m.flg && s[4..10] == m.fixed
    requires var f := FlagsOf(m.flg);
             && s[10..i1] == ExtraField(f.fextra, m.extra) && s[i1..i2] == StringField(f.fname, m.name)
             && s[i2..i3] == StringField(f.fcomment, m.comment) && s[i3..n] == CrcField(f.fhcrc, m.hcrc)
    ensures Encode(m) == s[..n]
  {
    assert s[..10] == [ID1, ID2, DEFLATED, m.flg] + m.fixed;
    assert s[..i1] == s[..10] + s[10..i1];
    assert s[..i2] == s[..i1] + s[i1..i2];
    assert s[..i3] == s[..i2] + s[i2..i3];
    assert s[..n] == s[..i3] + s[i3..n];
  }

  lemma AcceptedIsHeader(s: seq<byte>, n: nat)
    requires Parse(START, s) == End(n)
    ensures n <= |s| && IsHeader(s[..n])
  {
    FixedPart(s);
    var f := FlagsOf(s[3]);
    var extra, i1 := FindsExtra(f, s, 10, n);
    var name, comment, hcrc, i2, i3 := FindsTail(f, s, i1, n);
    Assemble(s, Member(s[3], s[4..10], extra, name, comment, hcrc), i1, i2, i3, n);
  }

  lemma HeaderIsAccepted(s: seq<byte>, n: nat)
    requires n <= |s| && IsHeader(s[..n])
    ensures Parse(START, s) == End(n)
  {
    var m :| ValidMember(m) && Encode(m) == s[..n];
    assert s == Encode(m) + s[n..];
    EncodedHeaderParses(m, s[n..]);
  }

  /** COMPLETE, with this header end, exactly when the bytes before it are a member header. */
  lemma CompleteIff(s: seq<byte>, n: nat)
    ensures Parse(START, s) == End(n) <==> n <= |s| && IsHeader(s[..n])
  {
    if Parse(START, s) == End(n) {
      AcceptedIsHeader(s, n);
    } else if n <= |s| && IsHeader(s[..n]) {
      HeaderIsAccepted(s, n);
    }
  }

  lemma {:induction false} NeverBad(p: Parser, s: seq<byte>, i: nat)
    requires WellFormed(p) && p.state > IN_HEADER_CM && i <= |s|
    ensures !ParseFrom(p, s, i).Bad?
    decreases |s| - i
  {
    if !Done(p) && i < |s| {
      match Consume(Skip(p), s[i])
      case Wrong =>
      case Next(q) => NeverBad(q, s, i + 1);
    }
  }

  /** INVALID exactly when one of the first three bytes is present and wrong. */
  lemma InvalidIff(s: seq<byte>)
    ensures Parse(START, s) == Bad <==> WrongMagic(s)
  {
    FixedPart(s);
    if !WrongMagic(s) && |s| >= 10 {
      NeverBad(AtExtra(FlagsOf(s[3])), s, 10);
    }
  }

  /** No header is a proper prefix of another, so the end of a header is unambiguous. */
  lemma HeadersArePrefixFree(a: seq<byte>, b: seq<byte>)
    requires IsHeader(a) && IsHeader(b) && a <= b
    ensures a == b
  {
    CompleteIff(b, |a|);
    CompleteIff(b, |b|);
    assert b[..|b|] == b;
  }
}
