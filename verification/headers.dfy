/** The two header packets of an Ogg Opus stream (section 5 of RFC 7845) as
    the converter handles them: the identification header is checked, the
    comment header is replaced by a fixed one. */
module OpusHeaders {
  import opened Common
  import opened Opus
  import opened Lacing
  import opened OggFormat
  import opened OggCrc
  import opened OggPages

  const SampleRateHz := 48000

  /** "OpusHead". */
  const OpusHeadMagic: seq<byte> := [0x4F, 0x70, 0x75, 0x73, 0x48, 0x65, 0x61, 0x64]

  /** check_identification_header: the first fragment of the page must hold
      at least the 18 bytes it unpacks, start with "OpusHead" and announce
      version 1, two channels and 48000 Hz. */
  function CheckIdentificationHeader(page: Page): (r: Result<()>)
    reads page
    ensures r.Ok? ==> |page.segments| > 0 && |page.segments[0].data| >= 18
    ensures r.Ok? ==> page.segments[0].data[..8] == OpusHeadMagic
    ensures r.Ok? ==> page.segments[0].data[8] == 1 && page.segments[0].data[9] == 2
    ensures r.Ok? ==> FromLE(page.segments[0].data[12..16]) == SampleRateHz
  {
    if |page.segments| == 0 then Err(EmptyPage)
    else
      var d := page.segments[0].data;
      if |d| < 18 then Err(Truncated)
      else if d[..8] != OpusHeadMagic then Err(InvalidHeader("Invalid opus file?"))
      else if d[8] != 1 then Err(InvalidHeader("Invalid opus file?"))
      else if d[9] != 2 then Err(InvalidHeader("Only stereo tracks are supported"))
      else if FromLE(d[12..16]) != SampleRateHz then Err(InvalidHeader("Sample rate needs to be 48 kHz"))
      else Ok(())
  }

  /** The first 19 bytes of an identification header (section 5.1 of RFC
      7845) with channel mapping family 0. */
  function IdentificationHeader(channels: byte, preSkip: nat, rate: nat, gain: nat): (h: seq<byte>)
    requires preSkip < 0x1_0000 && rate < 0x1_0000_0000 && gain < 0x1_0000
    ensures |h| == 19
  {
    assert Pow256(2) == 0x1_0000 && Pow256(4) == 0x1_0000_0000;
    OpusHeadMagic + [1, channels] + LE(preSkip, 2) + LE(rate, 4) + LE(gain, 2) + [0]
  }

  /** An identification header as an encoder writes it passes the check
      exactly when it is stereo at 48000 Hz. */
  lemma CheckOfIdentificationHeader(page: Page, channels: byte, preSkip: nat, rate: nat, gain: nat)
    requires preSkip < 0x1_0000 && rate < 0x1_0000_0000 && gain < 0x1_0000
    requires |page.segments| > 0 && page.segments[0].data == IdentificationHeader(channels, preSkip, rate, gain)
    ensures CheckIdentificationHeader(page).Ok? <==> channels == 2 && rate == SampleRateHz
  {
    var d := IdentificationHeader(channels, preSkip, rate, gain);
    assert Pow256(4) == 0x1_0000_0000;
    assert d[12..16] == LE(rate, 4);
    FromLEOfLE(rate, 4);
  }

  /** The pieces of the comment header the converter writes (the first
      fragment of OPUS_TAGS up to its padding digits). */
  const TagsMagic: seq<byte> := [
      0x4F, 0x70, 0x75, 0x73, 0x54, 0x61, 0x67, 0x73
    ]  // "OpusTags"
  const TagsVendor: seq<byte> := [
      0x4C, 0x61, 0x76, 0x66, 0x35, 0x38, 0x2E, 0x32, 0x30, 0x2E, 0x31, 0x30,
      0x30
    ]  // "Lavf58.20.100"
  const TagsEncoder: seq<byte> := [
      0x65, 0x6E, 0x63, 0x6F, 0x64, 0x65, 0x72, 0x3D, 0x6F, 0x70, 0x75, 0x73,
      0x65, 0x6E, 0x63, 0x20, 0x66, 0x72, 0x6F, 0x6D, 0x20, 0x6F, 0x70, 0x75,
      0x73, 0x2D, 0x74, 0x6F, 0x6F, 0x6C, 0x73, 0x20, 0x30, 0x2E, 0x31, 0x2E,
      0x31, 0x30
    ]  // "encoder=opusenc from opus-tools 0.1.10"
  const TagsOptions: seq<byte> := [
      0x65, 0x6E, 0x63, 0x6F, 0x64, 0x65, 0x72, 0x5F, 0x6F, 0x70, 0x74, 0x69,
      0x6F, 0x6E, 0x73, 0x3D, 0x2D, 0x2D, 0x71, 0x75, 0x69, 0x65, 0x74, 0x20,
      0x2D, 0x2D, 0x62, 0x69, 0x74, 0x72, 0x61, 0x74, 0x65, 0x20, 0x39, 0x36,
      0x20, 0x2D, 0x2D, 0x76, 0x62, 0x72
    ]  // "encoder_options=--quiet --bitrate 96 --vbr"
  const TagsPadKey: seq<byte> := [0x70, 0x61, 0x64, 0x3D]  // "pad="

  /** The 125 bytes before the digits: the magic, the vendor string and three
      comments, each preceded by its 32-bit little-endian length, the third
      being "pad=" and 311 digits. */
  const OpusTagsPrefix: seq<byte> :=
    TagsMagic + ([0x0D, 0, 0, 0] + (TagsVendor + ([3, 0, 0, 0] + TagsComments)))
  const TagsComments: seq<byte> :=
    [0x26, 0, 0, 0] + (TagsEncoder + ([0x2A, 0, 0, 0] + (TagsOptions + ([0x3B, 0x01, 0, 0] + TagsPadKey))))

  /** The two fragments of OPUS_TAGS: 255 and 181 bytes, the tail filled with
      the digit '0'. */
  const OpusTagsFirst: seq<byte> := OpusTagsPrefix + Digits0(130)
  const OpusTagsSecond: seq<byte> := Digits0(181)

  /** `n` copies of the digit '0'. */
  function Digits0(n: nat): (z: seq<byte>)
    ensures |z| == n
    ensures forall i :: 0 <= i < n ==> z[i] == 0x30
  {
    seq(n, _ => 0x30)
  }

  /** The comment header the converter writes, as one packet. */
  function OpusTagsPacket(): seq<byte>
  {
    OpusTagsFirst + OpusTagsSecond
  }

  /** The lengths of `count` length-prefixed comments (section 5.2 of RFC
      7845) that fill `d` exactly; None when they do not. */
  function CommentLengths(d: seq<byte>, count: nat): (r: Option<seq<nat>>)
    ensures r.Some? ==> |r.value| == count
    decreases count
  {
    if count == 0 then (if d == [] then Some([]) else None)
    else if |d| < 4 then None
    else
      var n := FromLE(d[..4]);
      if |d| < 4 + n then None
      else
        match CommentLengths(d[4 + n..], count - 1)
        case None => None
        case Some(rest) => Some([n] + rest)
  }

  /** The vendor-string length and the comment lengths of a comment header
      whose comments fill the packet exactly. */
  function CommentHeaderLayout(d: seq<byte>): Option<(nat, seq<nat>)>
  {
    if |d| < 16 || d[..8] != [0x4F, 0x70, 0x75, 0x73, 0x54, 0x61, 0x67, 0x73] then None
    else
      var v := FromLE(d[8..12]);
      if |d| < 16 + v then None
      else
        match CommentLengths(d[16 + v..], FromLE(d[12 + v..16 + v]))
        case None => None
        case Some(lengths) => Some((v, lengths))
  }

  /** The fixed comment header is well formed: a 13-byte vendor string and
      three comments of 38, 42 and 315 bytes fill its 436 bytes exactly, so
      the last comment, "pad=" and the digits, runs into the second fragment. */
  lemma OpusTagsWellFormed()
    ensures |OpusTagsFirst| == 255 && |OpusTagsSecond| == 181
    ensures CommentHeaderLayout(OpusTagsPacket()) == Some((13, [38, 42, 315]))
  {
    var digits := Digits0(311);
    assert Digits0(130) + OpusTagsSecond == digits;
    TagsLengths();
    TagsPacketParts(digits);
    HeaderLayout(TagsMagic, TagsVendor, TagsEncoder, TagsOptions, TagsPadKey + digits);
  }

  /** The length fields of the comment header, little-endian. */
  lemma TagsLengths()
    ensures [0x3B, 0x01, 0, 0] == LE(315, 4) && [0x2A, 0, 0, 0] == LE(42, 4)
    ensures [0x26, 0, 0, 0] == LE(38, 4) && [0x0D, 0, 0, 0] == LE(13, 4) && [3, 0, 0, 0] == LE(3, 4)
  {
  }

  /** The comment header split at its fields, with `digits` after "pad=". */
  lemma TagsPacketParts(digits: seq<byte>)
    requires digits == Digits0(130) + OpusTagsSecond
    requires [0x3B, 0x01, 0, 0] == LE(315, 4) && [0x2A, 0, 0, 0] == LE(42, 4)
    requires [0x26, 0, 0, 0] == LE(38, 4) && [0x0D, 0, 0, 0] == LE(13, 4) && [3, 0, 0, 0] == LE(3, 4)
    ensures OpusTagsPacket() == TagsMagic + (LE(13, 4) + (TagsVendor + (LE(3, 4) +
      (LE(38, 4) + (TagsEncoder + (LE(42, 4) + (TagsOptions + (LE(315, 4) + (TagsPadKey + digits)))))))))
  {
    var comments := [0x26, 0, 0, 0] + (TagsEncoder + ([0x2A, 0, 0, 0] + (TagsOptions + ([0x3B, 0x01, 0, 0] + (TagsPadKey + digits)))));
    assert TagsComments + digits == comments;
  }

  /** The layout of a comment header with a vendor string and three comments,
      each behind its length. */
  lemma HeaderLayout(magic: seq<byte>, vendor: seq<byte>, c1: seq<byte>, c2: seq<byte>, c3: seq<byte>)
    requires magic == [0x4F, 0x70, 0x75, 0x73, 0x54, 0x61, 0x67, 0x73]
    requires |vendor| == 13 && |c1| == 38 && |c2| == 42 && |c3| == 315
    ensures
      var comments := LE(38, 4) + (c1 + (LE(42, 4) + (c2 + (LE(315, 4) + c3))));
      CommentHeaderLayout(magic + (LE(13, 4) + (vendor + (LE(3, 4) + comments))))
        == Some((13, [38, 42, 315]))
  {
    var comments := LE(38, 4) + (c1 + (LE(42, 4) + (c2 + (LE(315, 4) + c3))));
    var r3 := LE(3, 4) + comments;
    var r2 := vendor + r3;
    var r1 := LE(13, 4) + r2;
    var d := magic + r1;
    assert d[..8] == magic && d[8..] == r1;
    assert r1[..4] == LE(13, 4) && r1[4..] == r2 && r2[13..] == r3;
    assert r3[..4] == LE(3, 4) && r3[4..] == comments;
    assert d[8..12] == r1[..4];
    assert d[25..29] == r3[..4];
    assert d[29..] == r3[4..];
    FromLEOfLE(13, 4);
    FromLEOfLE(3, 4);
    CommentsLayout(c1, c2, c3);
  }

  /** Three comments of 38, 42 and 315 bytes behind their lengths. */
  lemma CommentsLayout(c1: seq<byte>, c2: seq<byte>, c3: seq<byte>)
    requires |c1| == 38 && |c2| == 42 && |c3| == 315
    ensures CommentLengths(LE(38, 4) + (c1 + (LE(42, 4) + (c2 + (LE(315, 4) + c3)))), 3)
      == Some([38, 42, 315])
  {
    var second := LE(42, 4) + (c2 + (LE(315, 4) + c3));
    LastCommentsLayout(c2, c3);
    assert LE(38, 4) + (c1 + second) == LE(38, 4) + c1 + second;
    CommentLengthsCons(38, c1, second, 2);
    assert [38] + [42, 315] == [38, 42, 315];
  }

  lemma LastCommentsLayout(c2: seq<byte>, c3: seq<byte>)
    requires |c2| == 42 && |c3| == 315
    ensures CommentLengths(LE(42, 4) + (c2 + (LE(315, 4) + c3)), 2) == Some([42, 315])
  {
    var third := LE(315, 4) + c3;
    assert CommentLengths([], 0) == Some([]);
    assert third == LE(315, 4) + c3 + [];
    CommentLengthsCons(315, c3, [], 0);
    assert [315] + [] == [315];
    assert LE(42, 4) + (c2 + third) == LE(42, 4) + c2 + third;
    CommentLengthsCons(42, c2, third, 1);
    assert [42] + [315] == [42, 315];
  }

  /** A comment whose length prefix is right is consumed in one step. */
  lemma CommentLengthsCons(n: nat, body: seq<byte>, rest: seq<byte>, count: nat)
    requires |body| == n < 0x1_0000_0000
    ensures
      var l := CommentLengths(rest, count);
      CommentLengths(LE(n, 4) + body + rest, count + 1) == if l.None? then None else Some([n] + l.value)
  {
    assert Pow256(4) == 0x1_0000_0000;
    var d := LE(n, 4) + body + rest;
    assert d[..4] == LE(n, 4);
    FromLEOfLE(n, 4);
    assert d[4 + |body|..] == rest;
  }

  /** prepare_opus_tags: the page's fragments become the two fragments of the
      fixed comment header, a single packet, and the page's fields are
      recomputed by correct_values with a previous granule of 0. */
  method PrepareOpusTags(page: Page, table: seq<bv32>) returns (r: Result<()>)
    requires IsTable(table)
    modifies page
    ensures page.segments == [OpusPacket(OpusTagsFirst, true, None), OpusPacket(OpusTagsSecond, false, None)]
    ensures Laced(page.segments) && Payload(page.segments) == OpusTagsPacket()
    ensures page.version == old(page.version) && page.pageType == old(page.pageType)
    ensures page.serialNo == old(page.serialNo) && page.pageNo == old(page.pageNo)
    ensures IsHeaderPage(page.pageNo) ==> r.Ok? || ChecksumInput(page.Header(), page.segments).Err?
    ensures !IsHeaderPage(page.pageNo) ==> r.Err?
    ensures r.Ok? ==> page.granulePosition == 0 && page.segmentCount == 2
    ensures r.Ok? ==> PageBytes(page.Header(), page.segments).Ok?
    ensures r.Ok? ==> ChecksumValid(PageBytes(page.Header(), page.segments).value)
  {
    page.segments := [OpusPacket(OpusTagsFirst, true, None), OpusPacket(OpusTagsSecond, false, None)];
    assert Payload(page.segments[1..]) == OpusTagsSecond;
    r := page.CorrectValues(0, table);
  }
}
