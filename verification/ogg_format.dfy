/** The wire format of an Ogg page (section 6 of RFC 3533): the capture
    pattern "OggS", a 23-byte little-endian header, the lacing table and the
    fragment payloads. */
module OggFormat {
  import opened Common
  import opened Opus
  import opened Lacing
  import opened OggCrc

  /** The header fields, as the source stores them. */
  datatype Header = Header(
    version: nat,
    pageType: nat,
    granulePosition: nat,
    serialNo: nat,
    pageNo: nat,
    checksum: nat,
    segmentCount: nat)

  /** A page read from bytes: its header, its fragments and how many bytes it
      took. */
  datatype ParsedPage = ParsedPage(header: Header, segments: seq<OpusPacket>, size: nat)

  const CapturePattern: seq<byte> := [0x4F, 0x67, 0x67, 0x53]

  /** Offset of the checksum field within a page. */
  const ChecksumOffset := 22

  /** Every field fits the width struct.pack gives it ("<BBQLLLB"). */
  predicate FieldsInRange(h: Header)
  {
    && h.version < 256 && h.pageType < 256 && h.granulePosition < Pow256(8)
    && h.serialNo < Pow256(4) && h.pageNo < Pow256(4) && h.checksum < Pow256(4)
    && h.segmentCount < 256
  }

  /** The 27 header bytes. */
  function HeaderBytes(h: Header): (s: seq<byte>)
    requires FieldsInRange(h)
    ensures |s| == 27
  {
    CapturePattern + [h.version, h.pageType] + LE(h.granulePosition, 8) + LE(h.serialNo, 4)
      + LE(h.pageNo, 4) + LE(h.checksum, 4) + [h.segmentCount]
  }

  /** One lacing value per fragment: its payload length. */
  function LacingValues(segs: seq<OpusPacket>): (s: seq<byte>)
    requires forall i :: 0 <= i < |segs| ==> |segs[i].data| <= 255
    ensures |s| == |segs|
    ensures forall i :: 0 <= i < |segs| ==> s[i] == |segs[i].data|
  {
    if segs == [] then [] else [|segs[0].data|] + LacingValues(segs[1..])
  }

  /** write_page: the bytes of a page; a field or a lacing value that does not
      fit its width makes struct.pack fail. */
  function PageBytes(h: Header, segs: seq<OpusPacket>): (r: Result<seq<byte>>)
    ensures r.Ok? <==> FieldsInRange(h) && forall i :: 0 <= i < |segs| ==> |segs[i].data| <= 255
    ensures r.Ok? ==> |r.value| == PageSize(segs) && r.value[..4] == CapturePattern
  {
    if !FieldsInRange(h) then Err(FieldOutOfRange)
    else if exists i :: 0 <= i < |segs| && |segs[i].data| > 255 then Err(FieldOutOfRange)
    else
      PayloadLength(segs);
      Ok(HeaderBytes(h) + LacingValues(segs) + Payload(segs))
  }

  /** Reads the fragments whose lengths are `lacing` from `bytes` at `pos`:
      each begins a packet iff the lacing value before it is not 255, and the
      fields of a packet start are decoded unless `dontParseInfo`. */
  function ParseFragments(bytes: seq<byte>, lacing: seq<byte>, pos: nat, lastSize: int, dontParseInfo: bool)
    : (r: Result<seq<OpusPacket>>)
    ensures r.Ok? ==> |r.value| == |lacing|
    decreases |lacing|
  {
    if lacing == [] then Ok([])
    else if pos + lacing[0] > |bytes| then Err(Truncated)
    else
      match ReadPacket(bytes[pos..pos + lacing[0]], lastSize, dontParseInfo)
      case Err(e) => Err(e)
      case Ok(p) =>
        match ParseFragments(bytes, lacing[1..], pos + lacing[0], lacing[0], dontParseInfo)
        case Err(e) => Err(e)
        case Ok(rest) => Ok([p] + rest)
  }

  /** A successful read of at least one lacing value: the first fragment,
      read from the bytes at `pos`, and the fragments read after it. */
  lemma ParseFragmentsSplit(bytes: seq<byte>, lacing: seq<byte>, pos: nat, lastSize: int, dontParseInfo: bool)
    returns (p: OpusPacket, rest: seq<OpusPacket>)
    requires lacing != [] && ParseFragments(bytes, lacing, pos, lastSize, dontParseInfo).Ok?
    ensures pos + lacing[0] <= |bytes| && p.data == bytes[pos..pos + lacing[0]] && |p.data| == lacing[0]
    ensures ReadPacket(bytes[pos..pos + lacing[0]], lastSize, dontParseInfo) == Ok(p)
    ensures ParseFragments(bytes, lacing[1..], pos + lacing[0], lacing[0], dontParseInfo) == Ok(rest)
    ensures ParseFragments(bytes, lacing, pos, lastSize, dontParseInfo) == Ok([p] + rest)
  {
    p := ReadPacket(bytes[pos..pos + lacing[0]], lastSize, dontParseInfo).value;
    rest := ParseFragments(bytes, lacing[1..], pos + lacing[0], lacing[0], dontParseInfo).value;
  }

  /** What the reader reads: one fragment per lacing value with that many
      bytes, flagged as a packet start iff the lacing value before it is not
      255. */
  lemma {:induction false} ParseFragmentsFlags(bytes: seq<byte>, lacing: seq<byte>, pos: nat, lastSize: int, dontParseInfo: bool)
    requires ParseFragments(bytes, lacing, pos, lastSize, dontParseInfo).Ok?
    ensures var r := ParseFragments(bytes, lacing, pos, lastSize, dontParseInfo).value;
      && (forall i :: 0 <= i < |lacing| ==> |r[i].data| == lacing[i])
      && (|lacing| > 0 ==> r[0].firstPacket == (lastSize != 255))
      && (forall i {:trigger r[i].firstPacket} :: 0 < i < |lacing| ==> r[i].firstPacket == (lacing[i - 1] != 255))
    decreases |lacing|
  {
    if lacing != [] {
      var n: nat := lacing[0];
      var p, rest := ParseFragmentsSplit(bytes, lacing, pos, lastSize, dontParseInfo);
      ParseFragmentsFlags(bytes, lacing[1..], pos + n, n, dontParseInfo);
      FlagsCons(p, rest, lacing, lastSize);
    }
  }

  /** The step of ParseFragmentsFlags: a fragment read with the first lacing
      value, before fragments read with the others. */
  lemma FlagsCons(p: OpusPacket, rest: seq<OpusPacket>, lacing: seq<byte>, lastSize: int)
    requires lacing != [] && |rest| == |lacing| - 1
    requires |p.data| == lacing[0] && p.firstPacket == (lastSize != 255)
    requires var tl := lacing[1..];
      && (forall i :: 0 <= i < |tl| ==> |rest[i].data| == tl[i])
      && (|tl| > 0 ==> rest[0].firstPacket == (lacing[0] != 255))
      && (forall i {:trigger rest[i].firstPacket} :: 0 < i < |tl| ==> rest[i].firstPacket == (tl[i - 1] != 255))
    ensures var r := [p] + rest;
      && (forall i :: 0 <= i < |lacing| ==> |r[i].data| == lacing[i])
      && (|lacing| > 0 ==> r[0].firstPacket == (lastSize != 255))
      && (forall i {:trigger r[i].firstPacket} :: 0 < i < |lacing| ==> r[i].firstPacket == (lacing[i - 1] != 255))
  {
    var r, tl := [p] + rest, lacing[1..];
    forall i | 0 < i < |lacing|
      ensures |r[i].data| == lacing[i] && r[i].firstPacket == (lacing[i - 1] != 255)
    {
      assert r[i] == rest[i - 1] && tl[i - 1] == lacing[i];
      if i > 1 {
        assert tl[i - 2] == lacing[i - 1];
      }
    }
  }

  /** The payloads of the fragments read lie side by side from `pos`. */
  lemma {:induction false} ParseFragmentsPayload(bytes: seq<byte>, lacing: seq<byte>, pos: nat, lastSize: int, dontParseInfo: bool)
    requires pos <= |bytes|
    requires ParseFragments(bytes, lacing, pos, lastSize, dontParseInfo).Ok?
    ensures var r := ParseFragments(bytes, lacing, pos, lastSize, dontParseInfo).value;
      pos + TotalBytes(r) <= |bytes| && bytes[pos..pos + TotalBytes(r)] == Payload(r)
    decreases |lacing|
  {
    if lacing != [] {
      var n: nat := lacing[0];
      var p, rest := ParseFragmentsSplit(bytes, lacing, pos, lastSize, dontParseInfo);
      ParseFragmentsPayload(bytes, lacing[1..], pos + n, n, dontParseInfo);
      PayloadStep(bytes, pos, p, rest);
    }
  }

  /** A fragment read at `pos`, followed by fragments whose payloads lie side
      by side after it. */
  lemma PayloadStep(bytes: seq<byte>, pos: nat, p: OpusPacket, rest: seq<OpusPacket>)
    requires pos + |p.data| <= |bytes| && p.data == bytes[pos..pos + |p.data|]
    requires var m := pos + |p.data|;
      m + TotalBytes(rest) <= |bytes| && bytes[m..m + TotalBytes(rest)] == Payload(rest)
    ensures pos + TotalBytes([p] + rest) <= |bytes| && bytes[pos..pos + TotalBytes([p] + rest)] == Payload([p] + rest)
  {
    var n, t := |p.data|, TotalBytes(rest);
    PayloadCons(p, rest);
    SliceConcat(bytes, pos, pos + n, pos + n + t);
  }

  lemma SliceConcat(s: seq<byte>, a: nat, b: nat, c: nat)
    requires a <= b <= c <= |s|
    ensures s[a..c] == s[a..b] + s[b..c]
  {
  }

  /** The header fields as parse_header unpacks them from bytes 4 to 26. */
  function ParseHeader(bytes: seq<byte>): Header
    requires |bytes| >= 27
  {
    Header(bytes[4], bytes[5], FromLE(bytes[6..14]), FromLE(bytes[14..18]),
      FromLE(bytes[18..22]), FromLE(bytes[22..26]), bytes[26])
  }

  /** The source decodes no packet fields on the two header pages. */
  predicate IsHeaderPage(pageNo: nat)
  {
    pageNo == 0 || pageNo == 1
  }

  /** OggPage(filehandle): reads a page from the start of `bytes`. The capture
      pattern is not checked. A page without fragments fails as the source's
      index of the last fragment does, and a page whose last lacing value is
      255 is refused. */
  function ParsePage(bytes: seq<byte>): (r: Result<ParsedPage>)
    ensures r.Ok? ==> Laced(r.value.segments)
    ensures r.Ok? ==> |r.value.segments| == r.value.header.segmentCount >= 1
    ensures r.Ok? ==> r.value.size == PageSize(r.value.segments) <= |bytes|
    ensures r.Ok? ==> r.value.header == ParseHeader(bytes)
  {
    if |bytes| < 27 then Err(Truncated)
    else
      var h := ParseHeader(bytes);
      var n: nat := bytes[26];
      if |bytes| < 27 + n then Err(Truncated)
      else
        match ParseFragments(bytes, bytes[27..27 + n], 27 + n, -1, IsHeaderPage(h.pageNo))
        case Err(e) => Err(e)
        case Ok(segs) =>
          if segs == [] then Err(EmptyPage)
          else if segs[|segs| - 1].SpanningPacket() then Err(SpanningPacket)
          else
            ParsedFragmentsLaced(bytes, bytes[27..27 + n], 27 + n, IsHeaderPage(h.pageNo));
            Ok(ParsedPage(h, segs, 27 + n + TotalBytes(segs)))
  }

  /** The fragments of a page whose last lacing value is below 255 are laced
      and lie within the bytes. */
  lemma ParsedFragmentsLaced(bytes: seq<byte>, lacing: seq<byte>, pos: nat, dontParseInfo: bool)
    requires pos <= |bytes|
    requires var r := ParseFragments(bytes, lacing, pos, -1, dontParseInfo);
      r.Ok? && r.value != [] && !r.value[|r.value| - 1].SpanningPacket()
    ensures var r := ParseFragments(bytes, lacing, pos, -1, dontParseInfo).value;
      Laced(r) && pos + TotalBytes(r) <= |bytes|
  {
    var r := ParseFragments(bytes, lacing, pos, -1, dontParseInfo).value;
    ParseFragmentsFlags(bytes, lacing, pos, -1, dontParseInfo);
    ParseFragmentsPayload(bytes, lacing, pos, -1, dontParseInfo);
    forall i | 0 < i < |r|
      ensures r[i].firstPacket <==> |r[i - 1].data| != 255
    {
      assert lacing[i - 1] == |r[i - 1].data|;
    }
  }

  /** The lacing value a reader must have seen before a fragment for it to be
      read with the flag it carries. */
  function PrecedingSize(p: OpusPacket): int
  {
    if p.firstPacket then -1 else 255
  }

  /** The fragment carries exactly the flag and the fields the reader gives
      it. */
  ghost predicate DecodedFragment(p: OpusPacket, headerPage: bool)
  {
    ReadPacket(p.data, PrecedingSize(p), headerPage) == Ok(p)
  }

  ghost predicate Decoded(segs: seq<OpusPacket>, headerPage: bool)
  {
    forall i {:trigger DecodedFragment(segs[i], headerPage)} :: 0 <= i < |segs| ==> DecodedFragment(segs[i], headerPage)
  }

  lemma {:induction false} ParseFragmentsDecoded(bytes: seq<byte>, lacing: seq<byte>, pos: nat, lastSize: int, dontParseInfo: bool)
    requires pos <= |bytes|
    requires ParseFragments(bytes, lacing, pos, lastSize, dontParseInfo).Ok?
    ensures Decoded(ParseFragments(bytes, lacing, pos, lastSize, dontParseInfo).value, dontParseInfo)
    decreases |lacing|
  {
    if lacing != [] {
      var p, rest := ParseFragmentsSplit(bytes, lacing, pos, lastSize, dontParseInfo);
      var r := [p] + rest;
      ParseFragmentsDecoded(bytes, lacing[1..], pos + lacing[0], lacing[0], dontParseInfo);
      assert DecodedFragment(p, dontParseInfo);
      forall i | 0 <= i < |r|
        ensures DecodedFragment(r[i], dontParseInfo)
      {
        if i == 0 {
          assert r[0] == p;
        } else {
          assert r[i] == rest[i - 1];
        }
      }
    }
  }

  /** Parsing yields fragments carrying the fields the parser decodes. */
  lemma ParsePageDecoded(bytes: seq<byte>)
    requires ParsePage(bytes).Ok?
    ensures Decoded(ParsePage(bytes).value.segments, IsHeaderPage(ParsePage(bytes).value.header.pageNo))
  {
    var h := ParseHeader(bytes);
    var n: nat := bytes[26];
    ParseFragmentsDecoded(bytes, bytes[27..27 + n], 27 + n, -1, IsHeaderPage(h.pageNo));
  }

  /** Unpacking the header bytes gives the header back. */
  lemma ParseHeaderBytes(h: Header, rest: seq<byte>)
    requires FieldsInRange(h)
    ensures ParseHeader(HeaderBytes(h) + rest) == h
  {
    var b := HeaderBytes(h) + rest;
    assert b[6..14] == LE(h.granulePosition, 8);
    assert b[14..18] == LE(h.serialNo, 4);
    assert b[18..22] == LE(h.pageNo, 4);
    assert b[22..26] == LE(h.checksum, 4);
    FromLEOfLE(h.granulePosition, 8);
    FromLEOfLE(h.serialNo, 4);
    FromLEOfLE(h.pageNo, 4);
    FromLEOfLE(h.checksum, 4);
  }

  /** What the reader needs of fragment `i`, besides fitting one lacing value,
      to read it back as it is: it carries the packet-start flag the lacing
      value before it gives (`lastSize` for the first fragment) and its decoded
      fields. */
  ghost predicate ReadableAt(segs: seq<OpusPacket>, lastSize: int, dontParseInfo: bool, i: nat)
    requires i < |segs|
  {
    && segs[i].firstPacket == (if i == 0 then lastSize != 255 else |segs[i - 1].data| != 255)
    && DecodedFragment(segs[i], dontParseInfo)
  }

  /** Every fragment fits one lacing value and can be read back as it is. */
  ghost predicate Readable(segs: seq<OpusPacket>, lastSize: int, dontParseInfo: bool)
  {
    && (forall i :: 0 <= i < |segs| ==> |segs[i].data| <= 255)
    && (forall i :: 0 <= i < |segs| ==> ReadableAt(segs, lastSize, dontParseInfo, i))
  }

  /** Fragments of a laced page carrying their decoded fields can be read back,
      the first after the start of the page. */
  lemma ReadableOfLaced(segs: seq<OpusPacket>, headerPage: bool)
    requires Laced(segs) && Decoded(segs, headerPage)
    ensures Readable(segs, -1, headerPage)
  {
    forall i | 0 <= i < |segs|
      ensures ReadableAt(segs, -1, headerPage, i)
    {
      assert DecodedFragment(segs[i], headerPage);
      if i > 0 {
        assert segs[i].firstPacket == (|segs[i - 1].data| != 255);
      }
    }
  }

  /** Reading back fragments written with their lacing values gives the same
      fragments, when they carry the flags and fields the reader derives. */
  lemma {:induction false} ParseFragmentsOfPayload(bytes: seq<byte>, segs: seq<OpusPacket>, pos: nat, lastSize: int, dontParseInfo: bool)
    requires Readable(segs, lastSize, dontParseInfo)
    requires pos + TotalBytes(segs) <= |bytes| && bytes[pos..pos + TotalBytes(segs)] == Payload(segs)
    ensures ParseFragments(bytes, LacingValues(segs), pos, lastSize, dontParseInfo) == Ok(segs)
    decreases |segs|
  {
    if segs != [] {
      var n := |segs[0].data|;
      assert ParseFragments(bytes, LacingValues(segs[1..]), pos + n, n, dontParseInfo) == Ok(segs[1..]) by {
        ReadableTail(segs, lastSize, dontParseInfo);
        PayloadTail(bytes, segs, pos);
        ParseFragmentsOfPayload(bytes, segs[1..], pos + n, n, dontParseInfo);
      }
      ParseFragmentsCons(bytes, segs, pos, lastSize, dontParseInfo);
    }
  }

  /** The fragments after the first can be read back after the first one's
      lacing value. */
  lemma ReadableTail(segs: seq<OpusPacket>, lastSize: int, dontParseInfo: bool)
    requires segs != [] && Readable(segs, lastSize, dontParseInfo)
    ensures Readable(segs[1..], |segs[0].data|, dontParseInfo)
  {
    var tail := segs[1..];
    forall i | 0 <= i < |tail|
      ensures |tail[i].data| <= 255 && ReadableAt(tail, |segs[0].data|, dontParseInfo, i)
    {
      assert ReadableAt(segs, lastSize, dontParseInfo, i + 1);
      assert tail[i] == segs[i + 1];
      if i > 0 {
        assert tail[i - 1] == segs[i];
      }
    }
  }

  /** The payloads of the fragments after the first follow the first one's. */
  lemma PayloadTail(bytes: seq<byte>, segs: seq<OpusPacket>, pos: nat)
    requires segs != []
    requires pos + TotalBytes(segs) <= |bytes| && bytes[pos..pos + TotalBytes(segs)] == Payload(segs)
    ensures var n, tail := |segs[0].data|, segs[1..];
      pos + n + TotalBytes(tail) <= |bytes| && bytes[pos + n..pos + n + TotalBytes(tail)] == Payload(tail)
  {
    PayloadLength(segs[1..]);
    SliceOfConcat(bytes, pos, segs[0].data, Payload(segs[1..]));
  }

  /** One step of the reader: the first fragment read back, then the rest. */
  lemma ParseFragmentsCons(bytes: seq<byte>, segs: seq<OpusPacket>, pos: nat, lastSize: int, dontParseInfo: bool)
    requires segs != [] && Readable(segs, lastSize, dontParseInfo)
    requires pos + TotalBytes(segs) <= |bytes| && bytes[pos..pos + TotalBytes(segs)] == Payload(segs)
    requires var n := |segs[0].data|;
      ParseFragments(bytes, LacingValues(segs[1..]), pos + n, n, dontParseInfo) == Ok(segs[1..])
    ensures ParseFragments(bytes, LacingValues(segs), pos, lastSize, dontParseInfo) == Ok(segs)
  {
    var p, tail := segs[0], segs[1..];
    assert ReadableAt(segs, lastSize, dontParseInfo, 0);
    FragmentRead(p, lastSize, dontParseInfo);
    PayloadLength(tail);
    SliceOfConcat(bytes, pos, p.data, Payload(tail));
    assert LacingValues(segs) == [|p.data| as byte] + LacingValues(tail);
    ParseFragmentsStep(bytes, LacingValues(segs), LacingValues(tail), pos, lastSize, dontParseInfo, p, tail);
    ConsTail(segs);
  }

  /** A decoded fragment is read back as itself after any lacing value that
      gives it its flag. */
  lemma FragmentRead(p: OpusPacket, lastSize: int, dontParseInfo: bool)
    requires DecodedFragment(p, dontParseInfo) && p.firstPacket == (lastSize != 255)
    ensures ReadPacket(p.data, lastSize, dontParseInfo) == Ok(p)
  {
  }

  lemma ParseFragmentsStep(bytes: seq<byte>, lacing: seq<byte>, lacingTail: seq<byte>, pos: nat, lastSize: int,
                           dontParseInfo: bool, p: OpusPacket, rest: seq<OpusPacket>)
    requires |p.data| <= 255 && lacing == [|p.data| as byte] + lacingTail
    requires pos + |p.data| <= |bytes| && bytes[pos..pos + |p.data|] == p.data
    requires ReadPacket(p.data, lastSize, dontParseInfo) == Ok(p)
    requires ParseFragments(bytes, lacingTail, pos + |p.data|, |p.data|, dontParseInfo) == Ok(rest)
    ensures ParseFragments(bytes, lacing, pos, lastSize, dontParseInfo) == Ok([p] + rest)
  {
    assert lacing[1..] == lacingTail;
  }

  lemma ConsTail(s: seq<OpusPacket>)
    requires s != []
    ensures [s[0]] + s[1..] == s
  {
  }

  lemma SliceOfConcat(s: seq<byte>, pos: nat, x: seq<byte>, y: seq<byte>)
    requires pos + |x| + |y| <= |s| && s[pos..pos + |x| + |y|] == x + y
    ensures s[pos..pos + |x|] == x && s[pos + |x|..pos + |x| + |y|] == y
  {
    assert s[pos..pos + |x|] == s[pos..pos + |x| + |y|][..|x|];
    assert s[pos + |x|..pos + |x| + |y|] == s[pos..pos + |x| + |y|][|x|..];
  }

  /** Parsing what write_page writes gives back the header and the fragments:
      the serialisation round trip, for a page that carries the fragment count
      in its header, is laced, and carries the decoded packet fields. */
  lemma ParseOfPageBytes(h: Header, segs: seq<OpusPacket>, rest: seq<byte>)
    requires FieldsInRange(h) && Laced(segs) && |segs| == h.segmentCount >= 1
    requires Decoded(segs, IsHeaderPage(h.pageNo))
    ensures PageBytes(h, segs).Ok?
    ensures ParsePage(PageBytes(h, segs).value + rest) == Ok(ParsedPage(h, segs, PageSize(segs)))
  {
    var b := PageBytes(h, segs).value + rest;
    assert PageBytes(h, segs).value == HeaderBytes(h) + LacingValues(segs) + Payload(segs);
    LaidOutPage(h, segs, rest, b);
    FragmentsOfLaidOutPage(b, segs, IsHeaderPage(h.pageNo));
    ParsePageOfParts(b, h, segs);
  }

  /** Where write_page puts the header, the lacing values and the payloads. */
  lemma LaidOutPage(h: Header, segs: seq<OpusPacket>, rest: seq<byte>, b: seq<byte>)
    requires FieldsInRange(h) && |segs| == h.segmentCount
    requires forall i :: 0 <= i < |segs| ==> |segs[i].data| <= 255
    requires b == HeaderBytes(h) + LacingValues(segs) + Payload(segs) + rest
    ensures |b| >= 27 && ParseHeader(b) == h && b[26] == |segs| && 27 + |segs| <= |b|
    ensures b[27..27 + |segs|] == LacingValues(segs)
    ensures 27 + |segs| + TotalBytes(segs) <= |b|
    ensures b[27 + |segs|..27 + |segs| + TotalBytes(segs)] == Payload(segs)
  {
    PayloadLength(segs);
    assert b == HeaderBytes(h) + (LacingValues(segs) + Payload(segs) + rest);
    ParseHeaderBytes(h, LacingValues(segs) + Payload(segs) + rest);
    SplitPage(b, HeaderBytes(h), LacingValues(segs), Payload(segs), rest);
  }

  /** The fragments of a laced page are read back from where they were laid
      out. */
  lemma FragmentsOfLaidOutPage(b: seq<byte>, segs: seq<OpusPacket>, headerPage: bool)
    requires Laced(segs) && Decoded(segs, headerPage)
    requires 27 + |segs| <= |b| && b[27..27 + |segs|] == LacingValues(segs)
    requires 27 + |segs| + TotalBytes(segs) <= |b|
    requires b[27 + |segs|..27 + |segs| + TotalBytes(segs)] == Payload(segs)
    ensures ParseFragments(b, b[27..27 + |segs|], 27 + |segs|, -1, headerPage) == Ok(segs)
  {
    ReadableOfLaced(segs, headerPage);
    ParseFragmentsOfPayload(b, segs, 27 + |segs|, -1, headerPage);
  }

  /** A parse succeeds with the header and fragments it reads. */
  lemma ParsePageOfParts(b: seq<byte>, h: Header, segs: seq<OpusPacket>)
    requires |b| >= 27 && ParseHeader(b) == h && b[26] == |segs| && 27 + |segs| <= |b|
    requires ParseFragments(b, b[27..27 + |segs|], 27 + |segs|, -1, IsHeaderPage(h.pageNo)) == Ok(segs)
    requires Laced(segs) && segs != []
    ensures ParsePage(b) == Ok(ParsedPage(h, segs, PageSize(segs)))
  {
  }

  lemma SplitPage(b: seq<byte>, header: seq<byte>, lacing: seq<byte>, payload: seq<byte>, rest: seq<byte>)
    requires |header| == 27 && b == header + lacing + payload + rest
    ensures b[26] == header[26]
    ensures b[27..27 + |lacing|] == lacing
    ensures b[27 + |lacing|..27 + |lacing| + |payload|] == payload
  {
  }

  /** Packing the unpacked header fields gives the header bytes back, with the
      capture pattern in front. */
  lemma HeaderBytesOfParse(bytes: seq<byte>)
    requires |bytes| >= 27
    ensures FieldsInRange(ParseHeader(bytes))
    ensures HeaderBytes(ParseHeader(bytes)) == CapturePattern + bytes[4..27]
  {
    var h := ParseHeader(bytes);
    LEOfFromLE(bytes[6..14]);
    LEOfFromLE(bytes[14..18]);
    LEOfFromLE(bytes[18..22]);
    LEOfFromLE(bytes[22..26]);
    assert bytes[4..27] == [bytes[4], bytes[5]] + bytes[6..14] + bytes[14..18] + bytes[18..22] + bytes[22..26] + [bytes[26]];
  }

  /** Writing a parsed page reproduces the bytes it was read from, except that
      the capture pattern is written whatever was there. */
  lemma PageBytesOfParse(bytes: seq<byte>)
    requires ParsePage(bytes).Ok?
    ensures var p := ParsePage(bytes).value;
      PageBytes(p.header, p.segments) == Ok(CapturePattern + bytes[4..p.size])
  {
    var p := ParsePage(bytes).value;
    ParsePageParts(bytes);
    PageBytesOfFragments(bytes, bytes[26], IsHeaderPage(p.header.pageNo), p.header, p.segments, p.size);
  }

  /** What a successful parse consists of. */
  lemma ParsePageParts(bytes: seq<byte>)
    requires ParsePage(bytes).Ok?
    ensures var p := ParsePage(bytes).value; var n: nat := bytes[26];
      && 27 + n <= |bytes| && p.header == ParseHeader(bytes)
      && ParseFragments(bytes, bytes[27..27 + n], 27 + n, -1, IsHeaderPage(p.header.pageNo)) == Ok(p.segments)
      && p.size == 27 + n + TotalBytes(p.segments)
  {
  }

  /** The same, for the fragments read after the header. */
  lemma PageBytesOfFragments(bytes: seq<byte>, n: nat, headerPage: bool, h: Header, segs: seq<OpusPacket>, size: nat)
    requires 27 + n <= |bytes| && ParseFragments(bytes, bytes[27..27 + n], 27 + n, -1, headerPage) == Ok(segs)
    requires h == ParseHeader(bytes) && size == 27 + n + TotalBytes(segs)
    ensures size <= |bytes| && PageBytes(h, segs) == Ok(CapturePattern + bytes[4..size])
  {
    var lacing := bytes[27..27 + n];
    assert 27 + n + TotalBytes(segs) <= |bytes| && bytes[27 + n..27 + n + TotalBytes(segs)] == Payload(segs) by {
      ParseFragmentsPayload(bytes, lacing, 27 + n, -1, headerPage);
    }
    assert forall i :: 0 <= i < |lacing| ==> |segs[i].data| == lacing[i] by {
      ParseFragmentsFlags(bytes, lacing, 27 + n, -1, headerPage);
    }
    PageBytesOfParts(bytes, lacing, segs, n);
  }

  /** The same, for a header and fragments read from `bytes`. */
  lemma PageBytesOfParts(bytes: seq<byte>, lacing: seq<byte>, segs: seq<OpusPacket>, n: nat)
    requires 27 + n <= |bytes| && n == |segs| && lacing == bytes[27..27 + n]
    requires forall i :: 0 <= i < |lacing| ==> |segs[i].data| == lacing[i]
    requires 27 + n + TotalBytes(segs) <= |bytes| && bytes[27 + n..27 + n + TotalBytes(segs)] == Payload(segs)
    ensures PageBytes(ParseHeader(bytes), segs) == Ok(CapturePattern + bytes[4..27 + n + TotalBytes(segs)])
  {
    var h := ParseHeader(bytes);
    HeaderBytesOfParse(bytes);
    assert forall i :: 0 <= i < |segs| ==> |segs[i].data| <= 255;
    assert LacingValues(segs) == lacing;
    assert PageBytes(h, segs) == Ok(HeaderBytes(h) + LacingValues(segs) + Payload(segs));
    ReassemblePage(bytes, HeaderBytes(h), LacingValues(segs), Payload(segs), n, 27 + n + TotalBytes(segs));
  }

  /** A page is its header, lacing table and payloads side by side. */
  lemma ReassemblePage(bytes: seq<byte>, header: seq<byte>, lacing: seq<byte>, payload: seq<byte>, n: nat, size: nat)
    requires 27 + n <= size <= |bytes|
    requires header == CapturePattern + bytes[4..27]
    requires lacing == bytes[27..27 + n] && payload == bytes[27 + n..size]
    ensures header + lacing + payload == CapturePattern + bytes[4..size]
  {
    assert bytes[4..size] == bytes[4..27] + bytes[27..27 + n] + bytes[27 + n..size];
  }

  lemma {:induction false} LEOfFromLE(s: seq<byte>)
    ensures FromLE(s) < Pow256(|s|)
    ensures LE(FromLE(s), |s|) == s
  {
    FromLEBound(s);
    if s != [] {
      LEOfFromLE(s[1..]);
      assert FromLE(s) % 256 == s[0];
      assert FromLE(s) / 256 == FromLE(s[1..]);
    }
  }

  /** The page with its checksum field zeroed, which calc_checksum hashes. */
  function ChecksumInput(h: Header, segs: seq<OpusPacket>): Result<seq<byte>>
  {
    PageBytes(h.(checksum := 0), segs)
  }

  /** A page whose checksum field holds the checksum of the page with that
      field zeroed, as section 6 of RFC 3533 requires. */
  ghost predicate ChecksumValid(page: seq<byte>)
  {
    && |page| >= 27
    && FromLE(page[ChecksumOffset..ChecksumOffset + 4])
       == Crc(page[..ChecksumOffset] + [0, 0, 0, 0] + page[ChecksumOffset + 4..]) as nat
  }

  /** A page written with the checksum calc_checksum computes is valid. */
  lemma WrittenChecksumValid(h: Header, segs: seq<OpusPacket>)
    requires ChecksumInput(h, segs).Ok?
    requires h.checksum == Crc(ChecksumInput(h, segs).value) as nat
    ensures PageBytes(h, segs).Ok? && ChecksumValid(PageBytes(h, segs).value)
  {
    var rest := LacingValues(segs) + Payload(segs);
    assert h.checksum < Pow256(4) by {
      assert Pow256(4) == 0x1_0000_0000;
    }
    HeaderChecksumField(h);
    SpliceChecksum(HeaderBytes(h), HeaderBytes(h.(checksum := 0)), rest);
    assert PageBytes(h, segs).value == HeaderBytes(h) + rest;
    assert ChecksumInput(h, segs).value == HeaderBytes(h.(checksum := 0)) + rest;
    FromLEOfLE(h.checksum, 4);
  }

  /** The checksum field sits at bytes 22 to 25 of the header. */
  lemma HeaderChecksumField(h: Header)
    requires FieldsInRange(h)
    ensures HeaderBytes(h)[ChecksumOffset..ChecksumOffset + 4] == LE(h.checksum, 4)
    ensures HeaderBytes(h.(checksum := 0))
      == HeaderBytes(h)[..ChecksumOffset] + [0, 0, 0, 0] + HeaderBytes(h)[ChecksumOffset + 4..]
  {
    assert LE(0, 4) == [0, 0, 0, 0];
  }

  lemma SpliceChecksum(header: seq<byte>, zeroed: seq<byte>, rest: seq<byte>)
    requires |header| == 27
    requires zeroed == header[..ChecksumOffset] + [0, 0, 0, 0] + header[ChecksumOffset + 4..]
    ensures (header + rest)[ChecksumOffset..ChecksumOffset + 4] == header[ChecksumOffset..ChecksumOffset + 4]
    ensures zeroed + rest
      == (header + rest)[..ChecksumOffset] + [0, 0, 0, 0] + (header + rest)[ChecksumOffset + 4..]
  {
    assert (header + rest)[ChecksumOffset + 4..] == header[ChecksumOffset + 4..] + rest;
  }
}
