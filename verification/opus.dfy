/** One Opus packet as the converter sees it: the TOC byte (section 3.1 of
    RFC 6716), the frame count and padding of code-3 packets (section 3.2.5 of
    RFC 6716), and the two rewrites the padding algorithm applies to a packet. */
module Opus {
  import opened Common

  const SampleRateKhz := 48

  /** The configuration number: the top five bits of the TOC byte. */
  function Config(toc: byte): nat
  {
    toc / 8
  }

  /** The stereo flag: bit 2 of the TOC byte. */
  function Stereo(toc: byte): nat
  {
    (toc / 4) % 2
  }

  /** The frame-packing code: the low two bits of the TOC byte. */
  function FramePacking(toc: byte): nat
  {
    toc % 4
  }

  /** The three fields partition the TOC byte. */
  lemma TocFields(toc: byte)
    ensures Config(toc) < 32 && Stereo(toc) < 2 && FramePacking(toc) < 4
    ensures toc == 8 * Config(toc) + 4 * Stereo(toc) + FramePacking(toc)
  {
  }

  /** `a` with the single bit `m` (64 or 128) set, as `a | m`. */
  function WithBit(a: byte, m: nat): (r: byte)
    requires m == 64 || m == 128
    ensures (r / m) % 2 == 1
    ensures r % m == a % m
    ensures r / (2 * m) == a / (2 * m)
  {
    if (a / m) % 2 == 1 then a else a + m
  }

  function Pow2(k: nat): (p: nat)
    ensures p >= 1
  {
    if k == 0 then 1 else 2 * Pow2(k - 1)
  }

  /** Samples per frame at 48 kHz for the CELT-only configurations 16 to 31
      (frames of 2.5, 5, 10 and 20 ms); any other configuration is refused. */
  function FrameSamples(config: nat): (r: Result<nat>)
    ensures r.Ok? <==> 16 <= config < 32
    ensures r.Ok? ==> r.value == 120 * Pow2(config % 4)
    ensures r.Ok? ==> 2 * r.value == 5 * SampleRateKhz * Pow2(config % 4)
  {
    if config == 16 || config == 20 || config == 24 || config == 28 then Ok(120)
    else if config == 17 || config == 21 || config == 25 || config == 29 then Ok(240)
    else if config == 18 || config == 22 || config == 26 || config == 30 then Ok(480)
    else if config == 19 || config == 23 || config == 27 || config == 31 then Ok(960)
    else Err(UnsupportedConfig(config))
  }

  /** The number of frames: fixed by codes 0 to 2, the low six bits of the
      count byte for code 3. */
  function FrameCount(fp: nat, data: seq<byte>): (r: Result<byte>)
    requires fp < 4
    ensures r.Ok? <==> fp < 3 || |data| >= 2
    ensures fp == 0 ==> r == Ok(1)
    ensures fp == 1 || fp == 2 ==> r == Ok(2)
    ensures r.Ok? && fp == 3 ==> r.value == data[1] % 64
  {
    if fp == 0 then Ok(1)
    else if fp == 1 || fp == 2 then Ok(2)
    else if |data| < 2 then Err(Truncated)
    else Ok(data[1] % 64)
  }

  /** The padding length announced by the bytes from `i` on, as section 3.2.5
      of RFC 6716 defines it: each 255 stands for 254 bytes and continues, the
      first other byte ends the count. */
  function PadCountFrom(data: seq<byte>, i: nat): Result<nat>
    decreases |data| - i
  {
    if i >= |data| then Err(Truncated)
    else if data[i] < 255 then Ok(data[i])
    else match PadCountFrom(data, i + 1)
      case Ok(rest) => Ok(254 + rest)
      case Err(e) => Err(e)
  }

  /** The padding length of a packet: 0 unless it is code 3 with bit 6 of the
      count byte set. The source unpacks two bytes after the TOC for every
      code-3 packet, so a code-3 packet shorter than 3 bytes is refused. The
      count is read with the decoder of RFC 6716 (see PaddingAsWritten for
      get_padding as written). */
  function Padding(fp: nat, data: seq<byte>): Result<nat>
  {
    if fp != 3 then Ok(0)
    else if |data| < 3 then Err(Truncated)
    else if (data[1] / 64) % 2 == 0 then Ok(0)
    else PadCountFrom(data, 2)
  }

  /** get_padding as written. Its loop rebinds `padding` to the tuple that
      struct.unpack returns, and a tuple never equals 255, so the loop reads
      at most one byte after a leading 255: the count is the first byte, or
      254 plus the second when the first is 255. */
  function PaddingAsWritten(fp: nat, data: seq<byte>): (r: Result<nat>)
    ensures r.Ok? ==> r.value <= 509
    ensures r.Ok? && r != Padding(fp, data) ==> fp == 3 && |data| >= 4 && data[2] == 255 && data[3] == 255
  {
    if fp != 3 then Ok(0)
    else if |data| < 3 then Err(Truncated)
    else if (data[1] / 64) % 2 == 0 then Ok(0)
    else if data[2] < 255 then Ok(data[2])
    else if |data| < 4 then Err(Truncated)
    else
      var count: nat := 254 + data[3] as nat;
      assert data[3] < 255 ==> PadCountFrom(data, 3) == Ok(data[3]);
      Ok(count)
  }

  /** The variable-length padding count written by set_pad_count. */
  function EncodePadCount(count: nat): (r: seq<byte>)
    ensures |r| >= 1
  {
    if count > 254 then [255] + EncodePadCount(count - 254) else [count]
  }

  /** The encoding of `count` has max(1, ceil(count / 254)) bytes. */
  lemma {:induction false} EncodePadCountLength(count: nat)
    ensures |EncodePadCount(count)| == if count == 0 then 1 else (count + 253) / 254
  {
    if count > 254 {
      EncodePadCountLength(count - 254);
    }
  }

  /** Decoding an encoded count returns it, whatever surrounds the encoding. */
  lemma {:induction false} PadCountRoundTrip(prefix: seq<byte>, count: nat, rest: seq<byte>)
    ensures PadCountFrom(prefix + EncodePadCount(count) + rest, |prefix|) == Ok(count)
    decreases count
  {
    var data := prefix + EncodePadCount(count) + rest;
    if count > 254 {
      assert data == (prefix + [255]) + EncodePadCount(count - 254) + rest;
      assert data[|prefix|] == 255;
      PadCountRoundTrip(prefix + [255], count - 254, rest);
    } else {
      assert data[|prefix|] == count;
    }
  }

  /** Computes the padding-count bytes with the source's loop. */
  method PadCountBytes(count: nat) returns (bytes: seq<byte>)
    ensures bytes == EncodePadCount(count)
  {
    bytes := [];
    var val := count;
    while val > 254
      invariant bytes + EncodePadCount(val) == EncodePadCount(count)
    {
      assert EncodePadCount(val) == [255] + EncodePadCount(val - 254);
      bytes := bytes + [255];
      val := val - 254;
    }
    bytes := bytes + [val];
  }

  /** get_padding as written reads back the padding count set_pad_count
      writes only up to 509: every larger count reads as 509. */
  lemma SetPadCountAsWritten(p: OpusPacket, count: nat)
    requires SetPadCount(p, count).Ok?
    ensures PaddingAsWritten(3, SetPadCount(p, count).value.data) == Ok(if count <= 509 then count else 509)
  {
    var d := SetPadCount(p, count).value.data;
    var e := EncodePadCount(count);
    assert d == p.data[..1] + [WithBit(p.data[1], 64)] + e + p.data[2..];
    assert d[1] == WithBit(p.data[1], 64);
    assert d[2] == e[0];
    if count > 254 {
      assert e == [255] + EncodePadCount(count - 254);
      assert d[3] == EncodePadCount(count - 254)[0];
    }
  }

  /** The shortest input that shows it: a packet padded by 510 bytes, whose
      count bytes are 255, 255, 2, reads as padded by 509. */
  lemma PaddingAsWrittenLoses510(p: OpusPacket)
    requires SetPadCount(p, 510).Ok?
    ensures EncodePadCount(510) == [255, 255, 2]
    ensures PaddingAsWritten(3, SetPadCount(p, 510).value.data) == Ok(509)
    ensures Padding(3, SetPadCount(p, 510).value.data) == Ok(510)
  {
    assert EncodePadCount(2) == [2];
    assert EncodePadCount(256) == [255] + EncodePadCount(2);
    SetPadCountAsWritten(p, 510);
    SetPadCountRoundTrip(p, 510);
  }

  /** The fields the source decodes from the first fragment of a packet. */
  datatype PacketInfo = PacketInfo(
    config: nat,
    stereo: nat,
    framePacking: nat,
    padding: nat,
    frameCount: byte,
    frameSamples: nat,
    granule: nat)

  /** parse_segment_info: decodes the TOC, the padding, the frame count and the
      frame duration, in that order, and the packet's granule contribution. */
  function ParseInfo(data: seq<byte>): (r: Result<PacketInfo>)
    ensures r.Ok? <==> |data| >= 1 && 16 <= Config(data[0]) && Padding(FramePacking(data[0]), data).Ok?
    ensures r.Ok? ==> r.value.framePacking == FramePacking(data[0]) && r.value.config == Config(data[0])
    ensures r.Ok? ==> r.value.stereo == Stereo(data[0])
    ensures r.Ok? ==> Padding(r.value.framePacking, data) == Ok(r.value.padding)
    ensures r.Ok? ==> FrameCount(r.value.framePacking, data) == Ok(r.value.frameCount)
    ensures r.Ok? ==> FrameSamples(r.value.config) == Ok(r.value.frameSamples)
    ensures r.Ok? ==> r.value.granule == r.value.frameSamples * r.value.frameCount
    ensures r.Ok? && r.value.framePacking < 3 ==> r.value.padding == 0 && 1 <= r.value.frameCount <= 2
  {
    if |data| == 0 then Err(Truncated)
    else
      var toc := data[0];
      var fp := FramePacking(toc);
      match Padding(fp, data)
      case Err(e) => Err(e)
      case Ok(padding) =>
        match FrameCount(fp, data)
        case Err(e) => Err(e)
        case Ok(frames) =>
          match FrameSamples(Config(toc))
          case Err(e) => Err(e)
          case Ok(samples) =>
            Ok(PacketInfo(Config(toc), Stereo(toc), fp, padding, frames, samples, samples * frames))
  }

  /** The fields decoded from a packet of code 0, 1 or 2 built from its TOC
      fields: no padding, one or two frames, and a granule contribution of
      120·2^(config mod 4) samples per frame. */
  lemma ParseInfoOfToc(config: nat, stereo: nat, fp: nat, rest: seq<byte>)
    requires 16 <= config < 32 && stereo < 2 && fp < 3
    ensures var frames := if fp == 0 then 1 else 2;
      var samples := 120 * Pow2(config % 4);
      ParseInfo([8 * config + 4 * stereo + fp] + rest)
        == Ok(PacketInfo(config, stereo, fp, 0, frames, samples, samples * frames))
  {
    var toc: byte := 8 * config + 4 * stereo + fp;
    assert Config(toc) == config && Stereo(toc) == stereo && FramePacking(toc) == fp;
  }

  /** The corrected decoder also refuses a fragment whose 255 count bytes run
      to its end, which get_padding as written reads: a code-3 packet of
      configuration 16 with count bytes 255, 255 and nothing after them reads
      as padded by 509 there and fails to decode here. */
  lemma ParseInfoRefusesRunOnCount()
    ensures PaddingAsWritten(3, [0x83, 0x40, 255, 255]) == Ok(509)
    ensures ParseInfo([0x83, 0x40, 255, 255]) == Err(Truncated)
  {
    var d: seq<byte> := [0x83, 0x40, 255, 255];
    assert FramePacking(d[0]) == 3 && (d[1] / 64) % 2 == 1;
    assert PadCountFrom(d, 4) == Err(Truncated);
    assert PadCountFrom(d, 2) == Err(Truncated);
  }

  /** One fragment of a page (the source's OpusPacket): its payload, whether it
      begins a packet, and, for the first fragment of a packet on an audio page,
      the decoded fields. Its lacing value is the payload length. */
  datatype OpusPacket = OpusPacket(data: seq<byte>, firstPacket: bool, info: Option<PacketInfo>)
  {
    function Size(): nat
    {
      |data|
    }

    /** A fragment of 255 bytes continues on the next lacing value. */
    predicate SpanningPacket()
    {
      |data| == 255
    }
  }

  /** The fragment insert_empty_segment creates: empty, never decoded. */
  function EmptySegment(): OpusPacket
  {
    OpusPacket([], false, None)
  }

  /** Reads one fragment as the page parser does: it begins a packet iff the
      previous lacing value is not 255 (-1 stands for no previous one), and its
      fields are decoded only when it begins a packet and decoding is wanted. */
  function ReadPacket(data: seq<byte>, lastSize: int, dontParseInfo: bool): (r: Result<OpusPacket>)
    ensures r.Ok? ==> r.value.data == data && r.value.firstPacket == (lastSize != 255)
    ensures r.Ok? ==> (r.value.info.Some? <==> lastSize != 255 && !dontParseInfo)
    ensures r.Err? ==> lastSize != 255 && !dontParseInfo && ParseInfo(data).Err?
  {
    var first := lastSize != 255;
    if first && !dontParseInfo then
      match ParseInfo(data)
      case Ok(info) => Ok(OpusPacket(data, first, Some(info)))
      case Err(e) => Err(e)
    else Ok(OpusPacket(data, first, None))
  }

  /** convert_to_framepacking_three: a code-0, 1 or 2 packet becomes code 3 by
      setting both low TOC bits and inserting a count byte after the TOC; the
      count byte carries bit 7 (variable bit rate) for code 2. Code 3 is left
      alone. A fragment whose fields were never decoded is refused. */
  function ConvertToFramePackingThree(p: OpusPacket): (r: Result<OpusPacket>)
    ensures r.Ok? <==> p.info.Some? && (p.info.value.framePacking == 3 || |p.data| >= 1)
    ensures r.Ok? && p.info.value.framePacking == 3 ==> r.value == p
    ensures r.Ok? && p.info.value.framePacking != 3 ==>
      && |r.value.data| == |p.data| + 1
      && FramePacking(r.value.data[0]) == 3
      && Config(r.value.data[0]) == Config(p.data[0])
      && Stereo(r.value.data[0]) == Stereo(p.data[0])
      && r.value.data[1] % 128 == p.info.value.frameCount % 128
      && (r.value.data[1] >= 128 <==> p.info.value.framePacking == 2 || p.info.value.frameCount >= 128)
      && r.value.data[2..] == p.data[1..]
    ensures r.Ok? ==> r.value.firstPacket == p.firstPacket && r.value.info.Some?
    ensures r.Ok? ==> r.value.info.value == p.info.value.(framePacking := 3)
  {
    match p.info
    case None => Err(MissingPacketInfo)
    case Some(info) =>
      if info.framePacking == 3 then Ok(p)
      else if |p.data| == 0 then Err(Truncated)
      else
        var toc := p.data[0] - p.data[0] % 4 + 3;
        var countByte := if info.framePacking == 2 then WithBit(info.frameCount, 128) else info.frameCount;
        Ok(p.(data := [toc, countByte] + p.data[1..], info := Some(info.(framePacking := 3))))
  }

  /** Converting twice is converting once. */
  lemma ConvertIdempotent(p: OpusPacket)
    requires ConvertToFramePackingThree(p).Ok?
    ensures ConvertToFramePackingThree(ConvertToFramePackingThree(p).value) == ConvertToFramePackingThree(p)
  {
  }

  /** set_pad_count: on a code-3 packet without padding, sets bit 6 of the count
      byte and inserts the encoded padding count after it. The decoded fields are
      left as they were, as in the source. */
  function SetPadCount(p: OpusPacket, count: nat): (r: Result<OpusPacket>)
    ensures r.Ok? <==> p.info.Some? && p.info.value.framePacking == 3 && p.info.value.padding == 0 && |p.data| >= 2
    ensures r.Ok? ==> |r.value.data| == |p.data| + |EncodePadCount(count)|
    ensures r.Ok? ==> r.value.data[0] == p.data[0] && r.value.data[1] == WithBit(p.data[1], 64)
    ensures r.Ok? ==> r.value.data[2..2 + |EncodePadCount(count)|] == EncodePadCount(count)
    ensures r.Ok? ==> r.value.data[2 + |EncodePadCount(count)|..] == p.data[2..]
    ensures r.Ok? ==> r.value.firstPacket == p.firstPacket && r.value.info == p.info
  {
    match p.info
    case None => Err(NotCodeThree)
    case Some(info) =>
      if info.framePacking != 3 then Err(NotCodeThree)
      else if info.padding != 0 then Err(AlreadyPadded)
      else if |p.data| < 2 then Err(Truncated)
      else Ok(p.(data := p.data[..1] + [WithBit(p.data[1], 64)] + EncodePadCount(count) + p.data[2..]))
  }

  /** Decoding the padding of a packet written by set_pad_count gives back
      exactly the requested count. */
  lemma SetPadCountRoundTrip(p: OpusPacket, count: nat)
    requires SetPadCount(p, count).Ok?
    ensures Padding(3, SetPadCount(p, count).value.data) == Ok(count)
  {
    var d := SetPadCount(p, count).value.data;
    var prefix := p.data[..1] + [WithBit(p.data[1], 64)];
    assert d == prefix + EncodePadCount(count) + p.data[2..];
    assert d[1] == WithBit(p.data[1], 64);
    PadCountRoundTrip(prefix, count, p.data[2..]);
  }
}
