/** The converter's OggPage: a page header and the list of fragments it holds,
    updated in place while pages are repacked and padded. */
module OggPages {
  import opened Common
  import opened Opus
  import opened Lacing
  import opened OggFormat
  import opened OggCrc
  import opened Padding

  /** `k` fragments as insert_empty_segment creates them. */
  function Empties(k: nat): (e: seq<OpusPacket>)
    ensures |e| == k && forall j :: 0 <= j < k ==> e[j] == EmptySegment()
  {
    seq(k, _ => EmptySegment())
  }

  class Page {
    var version: nat
    var pageType: nat
    var granulePosition: nat
    var serialNo: nat
    var pageNo: nat
    var checksum: nat
    var segmentCount: nat
    var segments: seq<OpusPacket>

    /** The header fields as write_page packs them. */
    function Header(): OggFormat.Header
      reads this
    {
      OggFormat.Header(version, pageType, granulePosition, serialNo, pageNo, checksum, segmentCount)
    }

    /** OggPage(filehandle), for a page the parser has read. */
    constructor Read(parsed: ParsedPage)
      ensures Header() == parsed.header && segments == parsed.segments
    {
      var h := parsed.header;
      version, pageType, granulePosition := h.version, h.pageType, h.granulePosition;
      serialNo, pageNo, checksum, segmentCount := h.serialNo, h.pageNo, h.checksum, h.segmentCount;
      segments := parsed.segments;
    }

    /** from_page: a new empty page with the identifying fields of `other`. */
    constructor FromPage(other: Page)
      ensures version == other.version && pageType == other.pageType
      ensures granulePosition == other.granulePosition && serialNo == other.serialNo
      ensures pageNo == other.pageNo
      ensures checksum == 0 && segmentCount == 0 && segments == []
    {
      version, pageType, granulePosition := other.version, other.pageType, other.granulePosition;
      serialNo, pageNo := other.serialNo, other.pageNo;
      checksum, segmentCount, segments := 0, 0, [];
    }

    /** insert_empty_segment: an empty fragment goes in after `indexAfter`;
        like list.insert, an index past the end appends. */
    method InsertEmptySegment(indexAfter: nat, firstPacket: bool)
      modifies this
      ensures var at := Min(indexAfter + 1, |old(segments)|);
        segments == old(segments)[..at] + [EmptySegment().(firstPacket := firstPacket)] + old(segments)[at..]
      ensures Header() == old(Header())
    {
      var at := Min(indexAfter + 1, |segments|);
      segments := segments[..at] + [EmptySegment().(firstPacket := firstPacket)] + segments[at..];
    }

    /** redistribute_packet_data_at: concatenates the packet's payloads, adds
        `padCount` zero bytes, makes room for the fragments that needs and cuts
        the bytes into 255-byte pieces. New fragments go in right after the
        packet (see Findings for where the source puts them). */
    method RedistributePacketDataAt(segStart: nat, padCount: nat)
      requires segStart < |segments|
      modifies this
      ensures segments == Redistributed(old(segments), segStart, padCount)
      ensures Header() == old(Header())
    {
      var segs := segments;
      var c := PacketSegCountAt(segs, segStart);
      var full := ConcatPayloads(segs, segStart, c);
      full := full + Zeros(padCount);
      assert full == PaddedPayload(segs, segStart, padCount);
      var size := |full|;
      if size < 255 {
        SmallRedistributed(segs, segStart, padCount);
        segments := segs[segStart := segs[segStart].(data := full)];
        return;
      }
      var needed := Ceil(size, 255);
      if size % 255 == 0 {
        needed := needed + 1;
      }
      assert needed == NeededSegments(size);
      var toCreate := needed - c;
      var grown := InsertEmpties(segs, segStart + c, toCreate);
      var written := WriteChunks(grown, segStart, full, needed);
      WrittenIsRedistributed(segs, segStart, padCount, toCreate, grown, written);
      segments := written;
    }

    /** convert_packet_to_framepacking_three_and_pad: the packet starting at
        `segStart` is converted to code 3, given a padding count when `pad`,
        and re-sliced with `count` zero bytes. A failed padding step leaves the
        conversion in place, as the source's in-place updates do. */
    method ConvertPacketToFramePackingThreeAndPad(segStart: nat, pad: bool, count: nat) returns (r: Result<()>)
      requires segStart < |segments|
      modifies this
      ensures Header() == old(Header())
      ensures !old(segments[segStart].firstPacket) ==> r == Err(NotPacketStart)
      ensures r.Ok? <==> old(segments[segStart].firstPacket) && Rewritten(old(segments[segStart]), pad, count).Ok?
      ensures r.Err? && old(segments[segStart].firstPacket) ==> Rewritten(old(segments[segStart]), pad, count) == Err(r.error)
      ensures r.Ok? ==>
        segments == PaddedPage(old(segments), segStart, pad, count)
      ensures r.Err? ==>
        segments == (if old(segments[segStart].firstPacket) && ConvertToFramePackingThree(old(segments[segStart])).Ok?
          then old(segments)[segStart := ConvertToFramePackingThree(old(segments[segStart])).value]
          else old(segments))
    {
      ghost var orig := segments;
      if !segments[segStart].firstPacket {
        return Err(NotPacketStart);
      }
      var converted := ConvertToFramePackingThree(segments[segStart]);
      if converted.Err? {
        return Err(converted.error);
      }
      segments := segments[segStart := converted.value];
      if pad {
        var padded := SetPadCount(segments[segStart], count);
        if padded.Err? {
          return Err(padded.error);
        }
        segments := segments[segStart := padded.value];
      }
      assert segments == orig[segStart := Rewritten(orig[segStart], pad, count).value];
      RedistributePacketDataAt(segStart, count);
      return Ok(());
    }

    /** pad: grows the page to `padTo` bytes through the packet that ends the
        page (or the one at or before `idxOffset`, unless that is -1). A packet
        that cannot absorb the bytes exactly first has one byte added somewhere
        on the page; a packet that would need too many lacing values first takes
        half the bytes through an earlier packet. `fuel` stands for the
        interpreter's recursion limit. */
    method Pad(padTo: int, idxOffset: int, fuel: nat) returns (r: Result<()>)
      requires Laced(segments)
      requires idxOffset == -1 || 0 <= idxOffset < |segments|
      modifies this
      decreases fuel, 1
      ensures Header() == old(Header())
      ensures old(segments) == [] ==> r.Err?
      ensures fuel > 0 && old(segments) != [] && padTo == old(PageSize(segments)) ==>
        r == Ok(()) && segments == old(segments)
      ensures fuel > 0 && old(segments) != [] && padTo < old(PageSize(segments)) ==>
        r == Err(PageTooLarge) && segments == old(segments)
      ensures r.Ok? ==> PageSize(segments) == padTo
      ensures r.Ok? ==> Laced(segments) && Durations(segments) == old(Durations(segments))
    {
      if fuel == 0 {
        return Err(RecursionLimit);
      }
      if |segments| == 0 {
        return Err(EmptyPage);
      }
      var found := PacketStartAtOrBefore(segments, if idxOffset == -1 then |segments| - 1 else idxOffset);
      if found.Err? {
        return Err(NoPacketBegin);
      }
      r := PadThrough(padTo, found.value, fuel);
    }

    /** The rest of pad, once the packet start `idx` is found: the padding
        decision for that packet and the action it calls for. */
    method PadThrough(padTo: int, idx: nat, fuel: nat) returns (r: Result<()>)
      requires Laced(segments) && idx < |segments| && segments[idx].firstPacket && fuel > 0
      modifies this
      decreases fuel, 0
      ensures Header() == old(Header())
      ensures padTo == old(PageSize(segments)) ==> r == Ok(()) && segments == old(segments)
      ensures padTo < old(PageSize(segments)) ==> r == Err(PageTooLarge) && segments == old(segments)
      ensures r.Ok? ==> PageSize(segments) == padTo
      ensures r.Ok? ==> Laced(segments) && Durations(segments) == old(Durations(segments))
    {
      var padCount := padTo - PageSize(segments);
      var action := CalcActualPaddingValue(idx, padCount);
      match action {
        case Err(e) =>
          return Err(e);
        case Ok(DoNothing) =>
          return Ok(());
        case Ok(OnlyConvertFramePacking) =>
          r := PadPacketAt(idx, padCount, OnlyConvertFramePacking);
        case Ok(OtherPacketNeeded) =>
          r := PadOneByte();
          if r.Ok? {
            r := Pad(padTo, -1, fuel - 1);
          }
        case Ok(TooManySegments) =>
          r := Pad(padTo - padCount / 2, idx - 1, fuel - 1);
          if r.Ok? {
            r := Pad(padTo, -1, fuel - 1);
          }
        case Ok(PadWith(k)) =>
          r := PadPacketAt(idx, padCount, PadWith(k));
      }
    }

    /** The two branches of pad that rewrite the packet at `idx`: a conversion
        alone, or a conversion with `a.count` bytes of padding. Either makes
        the page exactly `bytesNeeded` bytes longer when `a` is what the
        padding decision gives for that packet, which is what the source
        asserts after padding. */
    method PadPacketAt(idx: nat, bytesNeeded: int, a: PadAction) returns (r: Result<()>)
      requires Laced(segments) && idx < |segments| && segments[idx].firstPacket
      requires a == OnlyConvertFramePacking || a.PadWith?
      requires var c := PacketSegCountAt(segments, idx);
        PaddingValue(bytesNeeded, |segments[idx + c - 1].data|, c, NeedsConversion(segments[idx])) == Ok(a)
      modifies this
      ensures Header() == old(Header())
      ensures r.Ok? ==> PageSize(segments) == old(PageSize(segments)) + bytesNeeded
      ensures r.Ok? ==> Laced(segments) && Durations(segments) == old(Durations(segments))
      ensures r.Ok? ==>
        && Rewritten(old(segments)[idx], a.PadWith?, if a.PadWith? then a.count else 0).Ok?
        && segments == PaddedPage(old(segments), idx, a.PadWith?, if a.PadWith? then a.count else 0)
    {
      var pad := a.PadWith?;
      var count := if a.PadWith? then a.count else 0;
      if Rewritten(segments[idx], pad, count).Ok? {
        DecidedPagePadded(segments, idx, bytesNeeded, a, pad, count);
      }
      r := ConvertPacketToFramePackingThreeAndPad(idx, pad, count);
    }

    /** correct_values: refuses more than 255 fragments, then sets the granule
        position to `lastGranule` plus the granules of the packets that begin on
        the page (none on the two header pages), the segment count to the number
        of fragments and the checksum to that of the page. */
    method CorrectValues(lastGranule: nat, table: seq<bv32>) returns (r: Result<()>)
      requires IsTable(table)
      modifies this
      ensures segments == old(segments)
      ensures version == old(version) && pageType == old(pageType)
      ensures serialNo == old(serialNo) && pageNo == old(pageNo)
      ensures |segments| > 255 ==> r == Err(SegmentCountOverflow(|segments|)) && Header() == old(Header())
      ensures r.Ok? ==> |segments| <= 255 && PageGranule(pageNo, segments).Some?
      ensures r.Ok? ==> granulePosition == lastGranule + PageGranule(pageNo, segments).value
      ensures r.Ok? ==> segmentCount == |segments|
      ensures r.Ok? ==> ChecksumInput(Header(), segments).Ok?
      ensures r.Ok? ==> checksum == Crc(ChecksumInput(Header(), segments).value) as nat
      ensures r.Ok? ==> PageBytes(Header(), segments).Ok? && ChecksumValid(PageBytes(Header(), segments).value)
      ensures r.Err? && |segments| <= 255 ==>
        PageGranule(pageNo, segments).None? || ChecksumInput(Header(), segments).Err?
    {
      if |segments| > 255 {
        return Err(SegmentCountOverflow(|segments|));
      }
      var granule := 0;
      if !IsHeaderPage(pageNo) {
        var sum := SumGranules(segments);
        if sum.None? {
          return Err(MissingPacketInfo);
        }
        granule := sum.value;
      }
      granulePosition := lastGranule + granule;
      segmentCount := |segments|;
      var crc := CalcChecksum(table);
      if crc.Err? {
        return Err(crc.error);
      }
      checksum := crc.value;
      WrittenChecksumValid(Header(), segments);
      return Ok(());
    }

    /** calc_checksum: the checksum of the page with its checksum field zeroed;
        packing fails when a field does not fit its width. */
    method CalcChecksum(table: seq<bv32>) returns (r: Result<nat>)
      requires IsTable(table)
      ensures r.Ok? <==> ChecksumInput(Header(), segments).Ok?
      ensures r.Ok? ==> r.value == Crc(ChecksumInput(Header(), segments).value) as nat
      ensures r.Ok? ==> r.value < 0x1_0000_0000
    {
      var data := SerializePage(Header().(checksum := 0), segments);
      if data.Err? {
        return Err(data.error);
      }
      var crc := Crc32(table, data.value);
      return Ok(crc as nat);
    }

    /** write_page: the bytes the page is written as. */
    method WritePage() returns (r: Result<seq<byte>>)
      ensures r == PageBytes(Header(), segments)
    {
      r := SerializePage(Header(), segments);
    }

    /** pad_one_byte: the first packet that has no padding yet and whose last
        fragment can take one more byte without a new lacing value gains one
        byte: a padding count of zero when it is code 3, else the frame-count
        byte of the conversion. */
    method PadOneByte() returns (r: Result<()>)
      requires Laced(segments)
      modifies this
      ensures Header() == old(Header())
      ensures r == Err(ImpossibleToPad) ==>
        segments == old(segments) && forall j :: 0 <= j < |segments| ==> !CanTakeOneByte(segments, j)
      ensures old(segments) != [] && (forall j :: 0 <= j < |old(segments)| ==> !CanTakeOneByte(old(segments), j)) ==>
        r == Err(ImpossibleToPad)
      ensures r.Ok? ==> PageSize(segments) == old(PageSize(segments)) + 1
      ensures r.Ok? ==> Laced(segments) && Durations(segments) == old(Durations(segments))
      ensures r.Ok? ==> exists i :: OneByteSlotPadded(old(segments), segments, i)
    {
      if |segments| == 0 {
        return Err(EmptyPage);
      }
      var found := FirstOneByteSlot(segments);
      if found.None? {
        return Err(ImpossibleToPad);
      }
      r := TakeOneByte(found.value);
      if r.Ok? {
        assert OneByteSlotPadded(old(segments), segments, found.value);
      }
    }

    /** The search loop of pad_one_byte: the first packet start that can take
        one byte, or None when the search runs off the page. */
    static method FirstOneByteSlot(segs: seq<OpusPacket>) returns (found: Option<nat>)
      requires |segs| > 0
      ensures found.Some? ==> found.value < |segs| && CanTakeOneByte(segs, found.value)
      ensures found.Some? ==> forall j :: 0 <= j < found.value ==> !CanTakeOneByte(segs, j)
      ensures found.None? ==> forall j :: 0 <= j < |segs| ==> !CanTakeOneByte(segs, j)
    {
      var i := 0;
      while !CanTakeOneByte(segs, i)
        invariant 0 <= i < |segs|
        invariant forall j :: 0 <= j < i ==> !CanTakeOneByte(segs, j)
        decreases |segs| - i
      {
        i := i + 1;
        if i >= |segs| {
          return None;
        }
      }
      return Some(i);
    }

    /** The rewrite at the end of pad_one_byte: the packet at `i` gains a
        padding count of zero when it is code 3, else the frame-count byte. */
    method TakeOneByte(i: nat) returns (r: Result<()>)
      requires Laced(segments) && i < |segments| && CanTakeOneByte(segments, i)
      modifies this
      ensures Header() == old(Header())
      ensures r.Err? ==> r.error in {MissingPacketInfo, Truncated, NotCodeThree, AlreadyPadded}
      ensures r.Ok? ==> PageSize(segments) == old(PageSize(segments)) + 1
      ensures r.Ok? ==> Laced(segments) && Durations(segments) == old(Durations(segments))
      ensures r.Ok? ==>
        && Rewritten(old(segments)[i], !NeedsConversion(old(segments)[i]), 0).Ok?
        && segments == PaddedPage(old(segments), i, !NeedsConversion(old(segments)[i]), 0)
    {
      ghost var before := segments;
      var codeThree := !NeedsConversion(segments[i]);
      r := ConvertPacketToFramePackingThreeAndPad(i, codeThree, 0);
      if r.Ok? {
        OneBytePadded(before, i);
      }
    }

    /** calc_actual_padding_value for the packet starting at `segStart` on a
        page that lacks `bytesNeeded` bytes: the decision depends on the
        packet's fragment count, the size of its last fragment and whether it
        is already code 3. */
    method CalcActualPaddingValue(segStart: nat, bytesNeeded: int) returns (r: Result<PadAction>)
      requires segStart < |segments|
      requires forall i :: 0 <= i < |segments| ==> |segments[i].data| <= 255
      ensures var c := PacketSegCountAt(segments, segStart);
        r == PaddingValue(bytesNeeded, |segments[segStart + c - 1].data|, c, NeedsConversion(segments[segStart]))
    {
      var c := PacketSegCountAt(segments, segStart);
      r := DecidePadding(bytesNeeded, |segments[segStart + c - 1].data|, c, NeedsConversion(segments[segStart]));
    }
  }

  /** The branches of calc_actual_padding_value; its loop counts the lacing
      values the grown last fragment needs, one per 256 bytes beyond 254. */
  method DecidePadding(bytesNeeded: int, lastSize: byte, segCount: nat, convert: bool) returns (r: Result<PadAction>)
    ensures r == PaddingValue(bytesNeeded, lastSize, segCount, convert)
  {
    if bytesNeeded < 0 {
      return Err(PageTooLarge);
    }
    if bytesNeeded == 0 {
      return Ok(DoNothing);
    }
    if (bytesNeeded + lastSize) % 255 == 0 {
      return Ok(OtherPacketNeeded);
    }
    if bytesNeeded == 1 {
      return Ok(if convert then OnlyConvertFramePacking else PadWith(0));
    }
    var newSegments := CountNewSegments(bytesNeeded + lastSize);
    if newSegments + segCount > 255 {
      return Ok(TooManySegments);
    }
    if (bytesNeeded + lastSize) % 255 == newSegments - 1 {
      return Ok(OtherPacketNeeded);
    }
    var packetBytes := bytesNeeded - newSegments;
    if packetBytes == 1 {
      return Ok(if convert then OnlyConvertFramePacking else PadWith(0));
    }
    NewSegmentsBelow(bytesNeeded, lastSize);
    var action := FitPadCount(packetBytes, convert);
    return Ok(action);
  }

  /** The last steps of calc_actual_padding_value, for a packet that must grow
      by `packetBytes` bytes: the frame-count byte (when converting) and one
      padding-count byte are taken out, the width of the count's encoding is
      estimated and the count refused when that estimate does not hold. */
  method FitPadCount(packetBytes: int, convert: bool) returns (a: PadAction)
    requires packetBytes >= 2
    ensures a == PadCountFor(packetBytes, convert)
  {
    var p := packetBytes;
    if convert {
      p := p - 1;
    }
    p := p - 1;
    var width := Max(1, Ceil(p, 254));
    var check := Ceil(p - width + 1, 254);
    if check != width {
      return OtherPacketNeeded;
    }
    return PadWith(p - width + 1);
  }

  /** The granules correct_values adds up: none on the two header pages,
      else those of the packets that begin on the page, if all are known. */
  function PageGranule(pageNo: nat, segs: seq<OpusPacket>): Option<nat>
  {
    if IsHeaderPage(pageNo) then Some(0) else PacketGranules(segs)
  }

  /** One more fragment in the granule sum. */
  lemma GranulesSnoc(segs: seq<OpusPacket>, i: nat)
    requires i < |segs|
    ensures PacketGranules(segs[..i + 1]) == AddGranules(PacketGranules(segs[..i]), PacketGranules([segs[i]]))
  {
    assert segs[..i + 1] == segs[..i] + [segs[i]];
    PacketGranulesAppend(segs[..i], [segs[i]]);
  }

  /** A packet start without decoded fields makes the whole sum unknown. */
  lemma GranulesOfPrefix(segs: seq<OpusPacket>, k: nat)
    requires k <= |segs| && PacketGranules(segs[..k]).None?
    ensures PacketGranules(segs).None?
  {
    assert segs == segs[..k] + segs[k..];
    PacketGranulesAppend(segs[..k], segs[k..]);
  }

  /** The loop of correct_values: the granules of the packets that begin
      among `segs`; a packet start without decoded fields makes the sum fail. */
  method SumGranules(segs: seq<OpusPacket>) returns (r: Option<nat>)
    ensures r == PacketGranules(segs)
  {
    var granule := 0;
    var i := 0;
    while i < |segs|
      invariant 0 <= i <= |segs|
      invariant PacketGranules(segs[..i]) == Some(granule)
    {
      GranulesSnoc(segs, i);
      if segs[i].firstPacket {
        if segs[i].info.None? {
          GranulesOfPrefix(segs, i + 1);
          return None;
        }
        granule := granule + segs[i].info.value.granule;
      }
      i := i + 1;
    }
    assert segs[..i] == segs;
    return Some(granule);
  }

  /** The bytes write_page emits: the packed header, one lacing value per
      fragment, then the payloads. */
  method SerializePage(h: OggFormat.Header, segs: seq<OpusPacket>) returns (r: Result<seq<byte>>)
    ensures r == PageBytes(h, segs)
  {
    if !FieldsInRange(h) {
      return Err(FieldOutOfRange);
    }
    var lacing := PackLacingValues(segs);
    if lacing.Err? {
      return Err(lacing.error);
    }
    var payload := ConcatPayloads(segs, 0, |segs|);
    assert segs[0..|segs|] == segs;
    return Ok(HeaderBytes(h) + lacing.value + payload);
  }

  /** The lacing loop of write_page: one byte per fragment, its length;
      struct.pack refuses a length above 255. */
  method PackLacingValues(segs: seq<OpusPacket>) returns (r: Result<seq<byte>>)
    ensures r.Ok? <==> forall j :: 0 <= j < |segs| ==> |segs[j].data| <= 255
    ensures r.Ok? ==> r.value == LacingValues(segs)
    ensures r.Err? ==> r.error == FieldOutOfRange
  {
    var data := [];
    var i := 0;
    while i < |segs|
      invariant 0 <= i <= |segs|
      invariant forall j :: 0 <= j < i ==> |segs[j].data| <= 255
      invariant data == LacingValues(segs[..i])
    {
      if |segs[i].data| > 255 {
        return Err(FieldOutOfRange);
      }
      LacingSnoc(segs, i);
      data := data + [|segs[i].data|];
      i := i + 1;
    }
    assert segs[..i] == segs;
    return Ok(data);
  }

  lemma LacingSnoc(segs: seq<OpusPacket>, i: nat)
    requires i < |segs| && forall j :: 0 <= j <= i ==> |segs[j].data| <= 255
    ensures LacingValues(segs[..i + 1]) == LacingValues(segs[..i]) + [|segs[i].data|]
  {
    var a := LacingValues(segs[..i + 1]);
    var b := LacingValues(segs[..i]) + [|segs[i].data|];
    forall j | 0 <= j < |a|
      ensures a[j] == b[j]
    {
      assert segs[..i + 1][j] == segs[j];
    }
  }

  /** The backward scan of pad: the last packet start at or before `from`. */
  method PacketStartAtOrBefore(segs: seq<OpusPacket>, from: nat) returns (r: Result<nat>)
    requires from < |segs|
    ensures r.Ok? ==> r.value <= from && segs[r.value].firstPacket
    ensures r.Ok? ==> forall j :: r.value < j <= from ==> !segs[j].firstPacket
    ensures r.Err? ==> r.error == NoPacketBegin && forall j :: 0 <= j <= from ==> !segs[j].firstPacket
  {
    var idx: int := from;
    while !segs[idx].firstPacket
      invariant 0 <= idx <= from
      invariant forall j :: idx < j <= from ==> !segs[j].firstPacket
      decreases idx
    {
      idx := idx - 1;
      if idx < 0 {
        return Err(NoPacketBegin);
      }
    }
    return Ok(idx);
  }

  /** What pad_one_byte looks for: a packet start without padding whose
      packet can grow by one byte without a new lacing value. */
  predicate CanTakeOneByte(segs: seq<OpusPacket>, i: nat)
    requires i < |segs|
  {
    && segs[i].firstPacket
    && (segs[i].info.None? || segs[i].info.value.padding == 0)
    && PacketSizeAt(segs, i) % 255 < 254
  }

  /** `after` is `before` with its first packet start that can take one byte
      (at `i`) given that byte, as pad_one_byte does. */
  ghost predicate OneByteSlotPadded(before: seq<OpusPacket>, after: seq<OpusPacket>, i: nat)
  {
    && i < |before| && CanTakeOneByte(before, i)
    && (forall j :: 0 <= j < i ==> !CanTakeOneByte(before, j))
    && Rewritten(before[i], !NeedsConversion(before[i]), 0).Ok?
    && after == PaddedPage(before, i, !NeedsConversion(before[i]), 0)
  }

  /** The page after convert_packet_to_framepacking_three_and_pad succeeds:
      the packet's first fragment rewritten, then the packet re-sliced with
      `count` zero bytes. */
  function PaddedPage(segs: seq<OpusPacket>, start: nat, pad: bool, count: nat): seq<OpusPacket>
    requires start < |segs| && Rewritten(segs[start], pad, count).Ok?
  {
    Redistributed(segs[start := Rewritten(segs[start], pad, count).value], start, count)
  }

  /** Rewriting and re-slicing a packet keeps a laced page laced and keeps
      its packets. */
  lemma PaddedPageKeeps(segs: seq<OpusPacket>, start: nat, pad: bool, count: nat)
    requires Laced(segs) && start < |segs| && segs[start].firstPacket
    requires Rewritten(segs[start], pad, count).Ok?
    ensures Laced(PaddedPage(segs, start, pad, count))
    ensures Durations(PaddedPage(segs, start, pad, count)) == Durations(segs)
  {
    var q := Rewritten(segs[start], pad, count).value;
    assert GrowsPacketStart(segs, start, q);
    RedistributedAfterRewriteLaced(segs, start, q, count);
    RedistributedAfterRewriteDurations(segs, start, q, count);
  }

  /** Rewriting and re-slicing a packet adds the packet's growth, the zero
      bytes and the new lacing values to the page. */
  lemma PaddedPageSize(segs: seq<OpusPacket>, start: nat, pad: bool, count: nat)
    requires Laced(segs) && start < |segs| && segs[start].firstPacket
    requires Rewritten(segs[start], pad, count).Ok?
    ensures var c := PacketSegCountAt(segs, start);
      var g := |Rewritten(segs[start], pad, count).value.data| - |segs[start].data| + count;
      PageSize(PaddedPage(segs, start, pad, count))
        == PageSize(segs) + g + NeededSegments(PacketSizeAt(segs, start) + g) - c
  {
    var q := Rewritten(segs[start], pad, count).value;
    assert GrowsPacketStart(segs, start, q);
    RedistributedAfterRewriteSize(segs, start, q, count);
  }

  /** The page pad leaves after rewriting the packet at `start` as the
      padding decision `a` prescribes: exactly `bytesNeeded` bytes longer,
      still laced, with the same packets. */
  lemma DecidedPagePadded(segs: seq<OpusPacket>, start: nat, bytesNeeded: int, a: PadAction, pad: bool, count: nat)
    requires Laced(segs) && start < |segs| && segs[start].firstPacket
    requires (a == OnlyConvertFramePacking && !pad && count == 0) || (a == PadWith(count) && pad)
    requires var c := PacketSegCountAt(segs, start);
      PaddingValue(bytesNeeded, |segs[start + c - 1].data|, c, NeedsConversion(segs[start])) == Ok(a)
    requires Rewritten(segs[start], pad, count).Ok?
    ensures PageSize(PaddedPage(segs, start, pad, count)) == PageSize(segs) + bytesNeeded
    ensures Laced(PaddedPage(segs, start, pad, count))
    ensures Durations(PaddedPage(segs, start, pad, count)) == Durations(segs)
  {
    GrowthReachesTarget(segs, start, bytesNeeded, a, pad, count);
    PaddedPageKeeps(segs, start, pad, count);
  }

  /** When `a` is the padding decision for a page `bytesNeeded` bytes short,
      rewriting and re-slicing the packet as `a` prescribes makes the page
      exactly `bytesNeeded` bytes longer. */
  lemma GrowthReachesTarget(segs: seq<OpusPacket>, start: nat, bytesNeeded: int, a: PadAction, pad: bool, count: nat)
    requires Laced(segs) && start < |segs| && segs[start].firstPacket
    requires (a == OnlyConvertFramePacking && !pad && count == 0) || (a == PadWith(count) && pad)
    requires var c := PacketSegCountAt(segs, start);
      PaddingValue(bytesNeeded, |segs[start + c - 1].data|, c, NeedsConversion(segs[start])) == Ok(a)
    requires Rewritten(segs[start], pad, count).Ok?
    ensures PageSize(PaddedPage(segs, start, pad, count)) == PageSize(segs) + bytesNeeded
  {
    DecisionGrowth(segs, start, bytesNeeded, a);
    var c := PacketSegCountAt(segs, start);
    var g := |Rewritten(segs[start], pad, count).value.data| - |segs[start].data| + count;
    assert g == Growth(a, NeedsConversion(segs[start]));
    CanonicalPacket(segs, start);
    PaddedPageSize(segs, start, pad, count);
  }

  /** The decision of calc_actual_padding_value, when it is to convert or to
      pad, makes the page grow by exactly the bytes it lacks. */
  lemma DecisionGrowth(segs: seq<OpusPacket>, start: nat, bytesNeeded: int, a: PadAction)
    requires Laced(segs) && start < |segs| && segs[start].firstPacket
    requires var c := PacketSegCountAt(segs, start);
      PaddingValue(bytesNeeded, |segs[start + c - 1].data|, c, NeedsConversion(segs[start])) == Ok(a)
    requires a.OnlyConvertFramePacking? || a.PadWith?
    ensures a.OnlyConvertFramePacking? ==> NeedsConversion(segs[start])
    ensures var c := PacketSegCountAt(segs, start);
      PageGrowth(|segs[start + c - 1].data|, c, Growth(a, NeedsConversion(segs[start]))) == bytesNeeded
  {
    var c := PacketSegCountAt(segs, start);
    PacketEnd(segs, start, c);
    PaddingExact(bytesNeeded, |segs[start + c - 1].data|, c, NeedsConversion(segs[start]));
  }

  /** The rewrite pad_one_byte makes grows the page by exactly one byte. */
  lemma OneByteGrowth(segs: seq<OpusPacket>, i: nat)
    requires Laced(segs) && i < |segs| && CanTakeOneByte(segs, i)
    requires Rewritten(segs[i], !NeedsConversion(segs[i]), 0).Ok?
    ensures PageSize(PaddedPage(segs, i, !NeedsConversion(segs[i]), 0)) == PageSize(segs) + 1
  {
    var c := PacketSegCountAt(segs, i);
    var last := |segs[i + c - 1].data|;
    var g := |Rewritten(segs[i], !NeedsConversion(segs[i]), 0).value.data| - |segs[i].data|;
    assert g == 1 by {
      assert EncodePadCount(0) == [0];
    }
    assert PacketSizeAt(segs, i) == 255 * (c - 1) + last && last < 254 by {
      CanonicalPacket(segs, i);
      RemainderOfRun(c, last);
    }
    assert NeededSegments(PacketSizeAt(segs, i) + 1) == c by {
      DivShift(c - 1, last + 1);
    }
    PaddedPageSize(segs, i, !NeedsConversion(segs[i]), 0);
  }

  /** The page pad_one_byte leaves: one byte larger, still laced, with the
      same packets in the same order. */
  lemma OneBytePadded(segs: seq<OpusPacket>, i: nat)
    requires Laced(segs) && i < |segs| && CanTakeOneByte(segs, i)
    requires Rewritten(segs[i], !NeedsConversion(segs[i]), 0).Ok?
    ensures var after := PaddedPage(segs, i, !NeedsConversion(segs[i]), 0);
      && PageSize(after) == PageSize(segs) + 1
      && Laced(after) && Durations(after) == Durations(segs)
  {
    OneByteGrowth(segs, i);
    PaddedPageKeeps(segs, i, !NeedsConversion(segs[i]), 0);
  }

  /** A packet of `c` fragments whose last holds `last` bytes leaves `last`
      over when divided into 255-byte pieces. */
  lemma RemainderOfRun(c: nat, last: nat)
    requires c >= 1 && last < 255
    ensures (255 * (c - 1) + last) % 255 == last
  {
    DivShift(c - 1, last);
  }

  /** The loop of calc_actual_padding_value: the lacing values a last
      fragment of `total` bytes needs beyond its own, counted by taking 256
      bytes at a time from what exceeds 254. */
  method CountNewSegments(total: nat) returns (n: nat)
    ensures n == NewSegmentsNeeded(total)
  {
    n := 0;
    if total >= 255 {
      var tmp := total - 255;
      while tmp >= 0
        invariant tmp + 256 * n == total - 255
        invariant tmp >= -256
        decreases tmp + 256
      {
        tmp := tmp - 255 - 1;
        n := n + 1;
      }
    }
  }

  /** The first fragment of a packet as convert_packet_to_framepacking_three_and_pad
      rewrites it: converted to code 3, then given a padding count when `pad`. */
  function Rewritten(p: OpusPacket, pad: bool, count: nat): (r: Result<OpusPacket>)
    ensures r.Ok? ==> p.info.Some? && r.value.firstPacket == p.firstPacket
    ensures r.Ok? ==> r.value.info.Some? && r.value.info.value.granule == p.info.value.granule
    ensures r.Ok? ==>
      |r.value.data| == |p.data| + (if NeedsConversion(p) then 1 else 0) + (if pad then |EncodePadCount(count)| else 0)
    ensures r.Ok? && pad ==> Opus.Padding(3, r.value.data) == Ok(count)
    ensures r.Err? ==> r.error in {MissingPacketInfo, Truncated, NotCodeThree, AlreadyPadded}
  {
    match ConvertToFramePackingThree(p)
    case Err(e) => Err(e)
    case Ok(q) =>
      if pad then
        var r := SetPadCount(q, count);
        if r.Ok? then SetPadCountRoundTrip(q, count); r else r
      else Ok(q)
  }

  /** The first loop of redistribute_packet_data_at: the payloads of the `c`
      fragments from `start`, concatenated. */
  method ConcatPayloads(segs: seq<OpusPacket>, start: nat, c: nat) returns (full: seq<byte>)
    requires start + c <= |segs|
    ensures full == Payload(segs[start..start + c])
  {
    full := [];
    var i := 0;
    while i < c
      invariant 0 <= i <= c
      invariant full == Payload(segs[start..start + i])
    {
      PayloadSnoc(segs, start, i);
      full := full + segs[start + i].data;
      i := i + 1;
    }
  }

  /** The second loop: `count` empty fragments, each inserted after the one
      before it, starting at `at` (none when `count` is not positive). */
  method InsertEmpties(segs: seq<OpusPacket>, at: nat, count: int) returns (grown: seq<OpusPacket>)
    requires at <= |segs|
    ensures grown == segs[..at] + Empties(Max0(count)) + segs[at..]
  {
    grown := segs;
    assert grown == segs[..at] + Empties(0) + segs[at..];
    var i := 0;
    while i < count
      invariant 0 <= i && (count >= 0 ==> i <= count) && (count < 0 ==> i == 0)
      invariant grown == segs[..at] + Empties(i) + segs[at..]
    {
      var k := Min(at + i, |grown|);
      InsertStep(segs, at, i, grown);
      grown := grown[..k] + [EmptySegment()] + grown[k..];
      i := i + 1;
    }
  }

  /** The third loop: fragment `start + i`, for each `i` below `needed`, gets
      the next 255 bytes of `full` (or what is left of it). */
  method WriteChunks(grown: seq<OpusPacket>, start: nat, full: seq<byte>, needed: nat) returns (written: seq<OpusPacket>)
    requires start + needed <= |grown|
    ensures |written| == |grown|
    ensures forall j :: 0 <= j < |grown| ==>
      written[j] == (if start <= j < start + needed then grown[j].(data := Chunk(full, j - start)) else grown[j])
  {
    written := grown;
    var rest := full;
    ghost var taken := 0;
    var i := 0;
    while i < needed
      invariant 0 <= i <= needed
      invariant taken == Min(255 * i, |full|) && rest == full[taken..]
      invariant |written| == |grown|
      invariant forall j :: 0 <= j < |grown| ==>
        written[j] == (if start <= j < start + i then grown[j].(data := Chunk(full, j - start)) else grown[j])
    {
      var piece := rest[..Min(255, |rest|)];
      ChunkStep(full, i, taken, rest);
      WriteStep(grown, written, start, full, i);
      written := written[start + i := written[start + i].(data := piece)];
      rest := rest[Min(255, |rest|)..];
      taken := taken + Min(255, |full| - taken);
      i := i + 1;
    }
  }

  function Max0(x: int): nat
  {
    if x < 0 then 0 else x
  }

  lemma PayloadSnoc(s: seq<OpusPacket>, start: nat, i: nat)
    requires start + i < |s|
    ensures Payload(s[start..start + i + 1]) == Payload(s[start..start + i]) + s[start + i].data
  {
    assert s[start..start + i + 1] == s[start..start + i] + [s[start + i]];
    PayloadAppend(s[start..start + i], [s[start + i]]);
    assert [s[start + i]][1..] == [];
  }

  /** A packet whose padded payload fits one fragment is rewritten in place. */
  lemma SmallRedistributed(s: seq<OpusPacket>, start: nat, padCount: nat)
    requires start < |s| && |PaddedPayload(s, start, padCount)| < 255
    ensures Redistributed(s, start, padCount) == s[start := s[start].(data := PaddedPayload(s, start, padCount))]
  {
    var full := PaddedPayload(s, start, padCount);
    var c := PacketSegCountAt(s, start);
    var m := ReslicedPacket(s, start, padCount);
    assert |m| == 1;
    assert m[0] == s[start].(data := Chunk(full, 0));
    assert Chunk(full, 0) == full;
    assert Redistributed(s, start, padCount) == s[..start] + m + s[start + 1..];
  }

  lemma InsertStep(orig: seq<OpusPacket>, at: nat, i: nat, s: seq<OpusPacket>)
    requires at <= |orig| && s == orig[..at] + Empties(i) + orig[at..]
    ensures var k := Min(at + i, |s|);
      s[..k] + [EmptySegment()] + s[k..] == orig[..at] + Empties(i + 1) + orig[at..]
  {
    assert s[..at + i] == orig[..at] + Empties(i);
    assert s[at + i..] == orig[at..];
    assert Empties(i + 1) == Empties(i) + [EmptySegment()];
  }

  /** What the write loop takes from the bytes it has left: the next piece,
      and the bytes after it. */
  lemma ChunkStep(full: seq<byte>, i: nat, taken: nat, rest: seq<byte>)
    requires taken == Min(255 * i, |full|) && rest == full[taken..]
    ensures rest[..Min(255, |rest|)] == Chunk(full, i)
    ensures rest[Min(255, |rest|)..] == full[taken + Min(255, |full| - taken)..]
    ensures taken + Min(255, |full| - taken) == Min(255 * (i + 1), |full|)
  {
  }

  /** Writing the next piece extends the written prefix of the packet. */
  lemma WriteStep(grown: seq<OpusPacket>, written: seq<OpusPacket>, start: nat, full: seq<byte>, i: nat)
    requires |written| == |grown| && start + i < |grown|
    requires forall j :: 0 <= j < |grown| ==>
      written[j] == (if start <= j < start + i then grown[j].(data := Chunk(full, j - start)) else grown[j])
    ensures var w := written[start + i := written[start + i].(data := Chunk(full, i))];
      forall j :: 0 <= j < |grown| ==>
        w[j] == (if start <= j < start + i + 1 then grown[j].(data := Chunk(full, j - start)) else grown[j])
  {
  }

  /** The fragments the write loop leaves are the re-sliced packet in place. */
  lemma WrittenIsRedistributed(orig: seq<OpusPacket>, start: nat, padCount: nat, toCreate: int,
                               inserted: seq<OpusPacket>, written: seq<OpusPacket>)
    requires start < |orig|
    requires var c := PacketSegCountAt(orig, start);
      && toCreate == NeededSegments(PacketSizeAt(orig, start) + padCount) - c
      && inserted == orig[..start + c] + Empties(Max0(toCreate)) + orig[start + c..]
    requires var needed := NeededSegments(PacketSizeAt(orig, start) + padCount);
      && |written| == |inserted| && start + needed <= |inserted|
      && forall j :: 0 <= j < |inserted| ==>
        written[j] == (if start <= j < start + needed
          then inserted[j].(data := Chunk(PaddedPayload(orig, start, padCount), j - start))
          else inserted[j])
    ensures written == Redistributed(orig, start, padCount)
  {
    var c := PacketSegCountAt(orig, start);
    var needed := NeededSegments(PacketSizeAt(orig, start) + padCount);
    var full := PaddedPayload(orig, start, padCount);
    var m := ReslicedPacket(orig, start, padCount);
    var r := Redistributed(orig, start, padCount);
    var tail := orig[start + Min(needed, c)..];
    assert r == orig[..start] + m + tail;
    assert |r| == |written|;
    forall j | 0 <= j < |written|
      ensures written[j] == r[j]
    {
      if j < start {
        assert r[j] == orig[j] && inserted[j] == orig[j];
      } else if j < start + needed {
        assert r[j] == m[j - start];
        if j - start < c {
          assert inserted[j] == orig[j];
        } else {
          assert inserted[j] == EmptySegment();
        }
      } else {
        assert r[j] == tail[j - start - needed];
        if needed >= c {
          assert inserted[j] == orig[j - Max0(toCreate)];
        } else {
          assert inserted[j] == orig[j];
        }
      }
    }
  }

  /** redistribute_packet_data_at as written: each new fragment goes in
      through insert_empty_segment(seg_start + seg_count + i), which inserts
      one place further on, so the first new fragment lands after the
      fragment that follows the packet, and the write loop then overwrites
      that fragment's bytes with the packet's. */
  function RedistributedAsWritten(segs: seq<OpusPacket>, start: nat, padCount: nat): seq<OpusPacket>
    requires start < |segs|
  {
    var c := PacketSegCountAt(segs, start);
    var full := PaddedPayload(segs, start, padCount);
    if |full| < 255 then segs[start := segs[start].(data := full)]
    else
      var needed := NeededSegments(|full|);
      var at := Min(start + c + 1, |segs|);
      var grown := segs[..at] + Empties(Max0(needed - c)) + segs[at..];
      seq(|grown|, j requires 0 <= j < |grown| =>
        if start <= j < start + needed then grown[j].(data := Chunk(full, j - start)) else grown[j])
  }

  /** A one-byte packet followed by a one-byte packet, padded by 254 bytes:
      the padded packet needs a second fragment, which the source writes over
      the following packet, so the page holds 255 bytes instead of 256 and the
      second packet's byte is gone; re-slicing with the new fragment right
      after the packet keeps all 256. */
  lemma RedistributeOverwritesNextPacket()
    ensures var segs := [OpusPacket([1], true, None), OpusPacket([7], true, None)];
      && TotalBytes(segs) + 254 == 256
      && TotalBytes(RedistributedAsWritten(segs, 0, 254)) == 255
      && TotalBytes(Redistributed(segs, 0, 254)) == 256
  {
    var segs := [OpusPacket([1], true, None), OpusPacket([7], true, None)];
    var c := PacketSegCountAt(segs, 0);
    assert c == 1;
    assert segs[0..1] == [segs[0]];
    assert PacketSizeAt(segs, 0) == 1;
    var full := PaddedPayload(segs, 0, 254);
    assert |full| == 255;
    var grown := segs + Empties(1);
    assert segs[..2] + Empties(1) + segs[2..] == grown;
    var r := RedistributedAsWritten(segs, 0, 254);
    assert |r| == 3;
    assert |r[0].data| == 255 && r[1].data == [] && r[2].data == [];
    assert r[1..][1..] == r[2..] && r[2..][1..] == [];
    assert TotalBytes(r[2..]) == 0;
    assert TotalBytes(r[1..]) == 0;
    assert TotalBytes(r) == 255;
    RedistributedShape(segs, 0, 254);
  }
}
