/** The padding decision of the converter: how many zero bytes an Opus packet
    on a page must carry so that the page grows by exactly the bytes it lacks,
    counting the frame-count byte a conversion to code 3 inserts, the
    padding-count bytes (section 3.2.5 of RFC 6716) and the lacing values the
    longer packet needs. */
module Padding {
  import opened Common
  import opened Opus
  import opened Lacing

  /** The outcomes of calc_actual_padding_value; the source encodes the first
      four as negative sentinels and a padding count as itself. */
  datatype PadAction =
    | DoNothing
    | OnlyConvertFramePacking
    | OtherPacketNeeded
    | TooManySegments
    | PadWith(count: nat)

  /** Whether convert_to_framepacking_three must run before padding: the
      packet is not code 3, or its fields were never decoded. */
  predicate NeedsConversion(p: OpusPacket)
  {
    p.info.None? || p.info.value.framePacking != 3
  }

  function Max(a: int, b: int): int
  {
    if a < b then b else a
  }

  /** The number of lacing values the loop in calc_actual_padding_value counts
      for a last fragment of `total` bytes: one per 256 bytes beyond 254. */
  function NewSegmentsNeeded(total: nat): nat
  {
    (total + 1) / 256
  }

  /** calc_actual_padding_value, for a page that lacks `bytesNeeded` bytes and
      a packet of `segCount` fragments whose last fragment holds `lastSize`
      bytes and which must first be converted to code 3 iff `convert`. */
  function PaddingValue(bytesNeeded: int, lastSize: byte, segCount: nat, convert: bool): (r: Result<PadAction>)
    ensures r.Err? <==> bytesNeeded < 0
    ensures r == Ok(DoNothing) <==> bytesNeeded == 0
    ensures r == Ok(OnlyConvertFramePacking) ==> convert
    ensures bytesNeeded > 0 && (bytesNeeded + lastSize) % 255 == 0 ==> r == Ok(OtherPacketNeeded)
    ensures bytesNeeded == 1 && (1 + lastSize) % 255 != 0 ==>
      r == Ok(if convert then OnlyConvertFramePacking else PadWith(0))
    ensures r.Ok? && r.value.PadWith? ==> 0 < bytesNeeded && r.value.count < bytesNeeded
  {
    if bytesNeeded < 0 then Err(PageTooLarge)
    else if bytesNeeded == 0 then Ok(DoNothing)
    else if (bytesNeeded + lastSize) % 255 == 0 then Ok(OtherPacketNeeded)
    else if bytesNeeded == 1 then Ok(if convert then OnlyConvertFramePacking else PadWith(0))
    else
      var n := NewSegmentsNeeded(bytesNeeded + lastSize);
      if n + segCount > 255 then Ok(TooManySegments)
      else if (bytesNeeded + lastSize) % 255 == n - 1 then Ok(OtherPacketNeeded)
      else
        var packetBytes := bytesNeeded - n;
        if packetBytes == 1 then Ok(if convert then OnlyConvertFramePacking else PadWith(0))
        else
          NewSegmentsBelow(bytesNeeded, lastSize);
          Ok(PadCountFor(packetBytes, convert))
  }

  /** Past the one-byte case, the new lacing values take fewer bytes than the
      page lacks. */
  lemma NewSegmentsBelow(bytesNeeded: int, lastSize: byte)
    requires bytesNeeded >= 2
    ensures NewSegmentsNeeded(bytesNeeded + lastSize) < bytesNeeded
  {
    assert NewSegmentsNeeded(bytesNeeded + lastSize) <= bytesNeeded / 256 + 1;
  }

  /** The last step of calc_actual_padding_value, for a packet that must grow
      by `packetBytes` bytes: the frame-count byte (when converting) and the
      padding-count bytes are taken out, and the count is refused when its own
      encoding would change the number of padding-count bytes. */
  function PadCountFor(packetBytes: int, convert: bool): (a: PadAction)
    requires packetBytes >= 2
    ensures a.PadWith? || a.OtherPacketNeeded?
    ensures a.PadWith? ==> a.count < packetBytes
  {
    var p := packetBytes - (if convert then 1 else 0) - 1;
    var width := Max(1, Ceil(p, 254));
    var check := Ceil(p - width + 1, 254);
    if check != width then OtherPacketNeeded
    else PadWith(p - width + 1)
  }

  /** The bytes a packet gains from an action: the frame-count byte when it is
      converted, the padding-count bytes and the zero bytes. */
  function Growth(a: PadAction, convert: bool): nat
  {
    match a
    case PadWith(k) => (if convert then 1 else 0) + |EncodePadCount(k)| + k
    case OnlyConvertFramePacking => 1
    case _ => 0
  }

  /** The bytes a page gains when a packet of `segCount` fragments laid out as
      lacing requires, its last holding `lastSize` bytes, grows by `g` bytes:
      the bytes themselves and the extra lacing values. */
  function PageGrowth(lastSize: nat, segCount: nat, g: nat): int
    requires segCount >= 1
  {
    g + NeededSegments(255 * (segCount - 1) + lastSize + g) - segCount
  }

  /** When the decision changes the packet, the page grows by exactly the
      bytes it lacked: the frame-count byte, the padding-count bytes, the zero
      bytes and the new lacing values add up to `bytesNeeded`. */
  lemma PaddingExact(bytesNeeded: int, lastSize: byte, segCount: nat, convert: bool)
    requires 1 <= segCount && lastSize < 255
    requires var r := PaddingValue(bytesNeeded, lastSize, segCount, convert);
      r.Ok? && (r.value.PadWith? || r.value.OnlyConvertFramePacking?)
    ensures var a := PaddingValue(bytesNeeded, lastSize, segCount, convert).value;
      PageGrowth(lastSize, segCount, Growth(a, convert)) == bytesNeeded
  {
    var d := bytesNeeded;
    var a := PaddingValue(d, lastSize, segCount, convert).value;
    var g := Growth(a, convert);
    DivShift(segCount - 1, lastSize + g);
    if d == 1 {
      assert g == 1;
      assert lastSize + 1 < 255;
    } else {
      var n := NewSegmentsNeeded(d + lastSize);
      GrowthIsPacketBytes(d, lastSize, segCount, convert);
      Carry(d + lastSize, n);
    }
  }

  /** Past the one-byte case, a packet grows by the bytes the page lacks less
      the new lacing values. */
  lemma GrowthIsPacketBytes(bytesNeeded: int, lastSize: byte, segCount: nat, convert: bool)
    requires 1 < bytesNeeded
    requires var r := PaddingValue(bytesNeeded, lastSize, segCount, convert);
      r.Ok? && (r.value.PadWith? || r.value.OnlyConvertFramePacking?)
    ensures Growth(PaddingValue(bytesNeeded, lastSize, segCount, convert).value, convert)
      == bytesNeeded - NewSegmentsNeeded(bytesNeeded + lastSize)
  {
    var a := PaddingValue(bytesNeeded, lastSize, segCount, convert).value;
    var packetBytes := bytesNeeded - NewSegmentsNeeded(bytesNeeded + lastSize);
    if packetBytes != 1 {
      var k := a.count;
      EncodePadCountLength(k);
      var p := packetBytes - (if convert then 1 else 0) - 1;
      var width := Max(1, Ceil(p, 254));
      assert k == p - width + 1 && Ceil(k, 254) == width;
      CeilOfNat(k);
    }
  }

  lemma CeilOfNat(a: nat)
    ensures Ceil(a, 254) == (a + 253) / 254
  {
    var q := (a + 253) / 254;
    var m := -(a as int);
    assert m == 254 * (-q) + (253 - (a + 253) % 254);
  }

  lemma DivShift(q: nat, y: nat)
    ensures (255 * q + y) / 255 == q + y / 255
  {
    assert 255 * q + y == 255 * (q + y / 255) + y % 255;
  }

  /** The last fragment, `t` bytes beyond a page's lack plus its own size,
      carries into exactly `n` more lacing values once the lacing values it
      needs are taken out of it, unless the zero-remainder case excluded by
      the OtherPacketNeeded guard occurs. */
  lemma Carry(t: nat, n: nat)
    requires n == (t + 1) / 256 && n <= 254 && t % 255 != n - 1
    ensures n <= t && (t - n) / 255 == n
  {
    var r := (t + 1) % 256;
    assert t + 1 == 256 * n + r;
    assert t - n == 255 * n + (r - 1);
  }
}
