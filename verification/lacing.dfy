/** The fragment list of an Ogg page (section 6 of RFC 3533): its wire size,
    the packet spans the converter finds in it, and the re-slicing of one
    packet into 255-byte lacing fragments. */
module Lacing {
  import opened Common
  import opened Opus

  /** Python's math.ceil(a / b) for a positive divisor. */
  function Ceil(a: int, b: nat): int
    requires b > 0
  {
    -((-a) / b)
  }

  /** The number of payload bytes in `segs`. */
  function TotalBytes(segs: seq<OpusPacket>): nat
  {
    if segs == [] then 0 else |segs[0].data| + TotalBytes(segs[1..])
  }

  lemma {:induction false} TotalBytesAppend(a: seq<OpusPacket>, b: seq<OpusPacket>)
    ensures TotalBytes(a + b) == TotalBytes(a) + TotalBytes(b)
  {
    if a == [] {
      assert a + b == b;
    } else {
      assert (a + b)[1..] == a[1..] + b;
      TotalBytesAppend(a[1..], b);
    }
  }

  /** The bytes of a slice: its first fragment's and those of the rest. */
  lemma TotalBytesSlice(segs: seq<OpusPacket>, i: nat, j: nat)
    requires i < j <= |segs|
    ensures TotalBytes(segs[i..j]) == |segs[i].data| + TotalBytes(segs[i + 1..j])
  {
    var s := segs[i..j];
    assert s[0] == segs[i] && s[1..] == segs[i + 1..j];
  }

  /** get_page_size: the 27-byte header, one lacing byte per fragment, and the
      payloads. */
  function PageSize(segs: seq<OpusPacket>): nat
  {
    27 + |segs| + TotalBytes(segs)
  }

  /** The payloads of `segs`, concatenated in order. */
  function Payload(segs: seq<OpusPacket>): seq<byte>
  {
    if segs == [] then [] else segs[0].data + Payload(segs[1..])
  }

  lemma {:induction false} PayloadAppend(a: seq<OpusPacket>, b: seq<OpusPacket>)
    ensures Payload(a + b) == Payload(a) + Payload(b)
  {
    if a == [] {
      assert a + b == b;
    } else {
      assert (a + b)[1..] == a[1..] + b;
      PayloadAppend(a[1..], b);
    }
  }

  /** The payload and byte count of a fragment followed by others. */
  lemma PayloadCons(p: OpusPacket, rest: seq<OpusPacket>)
    ensures Payload([p] + rest) == p.data + Payload(rest)
    ensures TotalBytes([p] + rest) == |p.data| + TotalBytes(rest)
  {
    var s := [p] + rest;
    assert s[0] == p && s[1..] == rest;
  }

  lemma {:induction false} PayloadLength(segs: seq<OpusPacket>)
    ensures |Payload(segs)| == TotalBytes(segs)
  {
    if segs != [] {
      PayloadLength(segs[1..]);
    }
  }

  /** The lacing discipline of a parsed page: every fragment holds at most 255
      bytes, the first fragment begins a packet and any other begins one iff
      the one before it is shorter than 255 bytes, and the last fragment does not
      continue onto another page. */
  ghost predicate Laced(segs: seq<OpusPacket>)
  {
    && (forall i :: 0 <= i < |segs| ==> |segs[i].data| <= 255)
    && (|segs| > 0 ==> segs[0].firstPacket)
    && (forall i {:trigger segs[i].firstPacket} :: 0 < i < |segs| ==> (segs[i].firstPacket <==> |segs[i - 1].data| != 255))
    && (|segs| > 0 ==> |segs[|segs| - 1].data| < 255)
  }

  /** The fragments of the packet starting at `i`, by lacing values: the run of
      255-byte fragments and the one that ends it, cut at the end of the page. */
  function SpanBySize(segs: seq<OpusPacket>, i: nat): (c: nat)
    requires i < |segs|
    ensures 1 <= c <= |segs| - i
    ensures forall j :: i <= j < i + c - 1 ==> |segs[j].data| == 255
    ensures i + c == |segs| || |segs[i + c - 1].data| != 255
    decreases |segs| - i
  {
    if |segs[i].data| != 255 || i + 1 == |segs| then 1 else 1 + SpanBySize(segs, i + 1)
  }

  /** The payload bytes of that packet. */
  function SizeBySize(segs: seq<OpusPacket>, i: nat): nat
    requires i < |segs|
    decreases |segs| - i
  {
    if |segs[i].data| != 255 || i + 1 == |segs| then |segs[i].data|
    else |segs[i].data| + SizeBySize(segs, i + 1)
  }

  /** Those bytes are the bytes of the fragments SpanBySize counts. */
  lemma {:induction false} SizeBySizeIsBytes(segs: seq<OpusPacket>, i: nat)
    requires i < |segs|
    ensures SizeBySize(segs, i) == TotalBytes(segs[i..i + SpanBySize(segs, i)])
    decreases |segs| - i
  {
    var e := i + SpanBySize(segs, i);
    if |segs[i].data| != 255 || i + 1 == |segs| {
      assert e == i + 1;
      TotalBytesSlice(segs, i, e);
      assert segs[i + 1..e] == [];
    } else {
      assert e == i + 1 + SpanBySize(segs, i + 1);
      SizeBySizeIsBytes(segs, i + 1);
      TotalBytesSlice(segs, i, e);
      assert SizeBySize(segs, i) == |segs[i].data| + SizeBySize(segs, i + 1);
      assert SizeBySize(segs, i + 1) == TotalBytes(segs[i + 1..e]);
    }
  }

  /** get_segment_count_of_first_opus_packet. */
  function FirstPacketSegCount(segs: seq<OpusPacket>): (c: nat)
    ensures segs == [] ==> c == 0
    ensures segs != [] ==> 1 <= c <= |segs|
    ensures forall j :: 0 <= j < c - 1 ==> |segs[j].data| == 255
    ensures segs != [] ==> c == |segs| || |segs[c - 1].data| != 255
  {
    if segs == [] then 0 else SpanBySize(segs, 0)
  }

  /** get_size_of_first_opus_packet. */
  function FirstPacketSize(segs: seq<OpusPacket>): (r: nat)
    ensures r == TotalBytes(segs[..FirstPacketSegCount(segs)])
  {
    if segs == [] then 0
    else
      SizeBySizeIsBytes(segs, 0);
      SizeBySize(segs, 0)
  }

  /** The end of the packet that contains index `j - 1`, by packet-start flags. */
  function SpanByFlags(segs: seq<OpusPacket>, j: nat): (e: nat)
    requires j <= |segs|
    ensures j <= e <= |segs|
    ensures forall k :: j <= k < e ==> !segs[k].firstPacket
    ensures e == |segs| || segs[e].firstPacket
    decreases |segs| - j
  {
    if j < |segs| && !segs[j].firstPacket then SpanByFlags(segs, j + 1) else j
  }

  /** get_segment_count_of_packet_at: the packet starting at `start` runs up
      to the next fragment flagged as a packet start. */
  function PacketSegCountAt(segs: seq<OpusPacket>, start: nat): (c: nat)
    requires start < |segs|
    ensures 1 <= c <= |segs| - start
    ensures forall k :: start < k < start + c ==> !segs[k].firstPacket
    ensures start + c == |segs| || segs[start + c].firstPacket
  {
    SpanByFlags(segs, start + 1) - start
  }

  /** The payload bytes from `j` to the next packet start. */
  function SizeByFlags(segs: seq<OpusPacket>, j: nat): (r: nat)
    requires j <= |segs|
    ensures r == TotalBytes(segs[j..SpanByFlags(segs, j)])
    decreases |segs| - j
  {
    if j < |segs| && !segs[j].firstPacket then
      TotalBytesSlice(segs, j, SpanByFlags(segs, j));
      |segs[j].data| + SizeByFlags(segs, j + 1)
    else 0
  }

  /** get_opus_packet_size. */
  function PacketSizeAt(segs: seq<OpusPacket>, start: nat): (r: nat)
    requires start < |segs|
    ensures r == TotalBytes(segs[start..start + PacketSegCountAt(segs, start)])
  {
    var c := PacketSegCountAt(segs, start);
    TotalBytesSlice(segs, start, start + c);
    |segs[start].data| + SizeByFlags(segs, start + 1)
  }

  /** Packet ends found by flags depend only on the flags from `j` on. */
  lemma {:induction false} SpanByFlagsFrame(a: seq<OpusPacket>, b: seq<OpusPacket>, j: nat)
    requires j <= |a| == |b|
    requires forall k :: j <= k < |a| ==> a[k].firstPacket == b[k].firstPacket
    ensures SpanByFlags(a, j) == SpanByFlags(b, j)
    decreases |a| - j
  {
    if j < |a| && !a[j].firstPacket {
      SpanByFlagsFrame(a, b, j + 1);
    }
  }

  /** A run of 255-byte fragments followed by a shorter one. */
  lemma {:induction false} RunBytes(s: seq<OpusPacket>)
    requires |s| >= 1
    requires forall j :: 0 <= j < |s| - 1 ==> |s[j].data| == 255
    ensures TotalBytes(s) == 255 * (|s| - 1) + |s[|s| - 1].data|
  {
    if |s| > 1 {
      RunBytes(s[1..]);
    }
  }

  /** On a laced page, the packet found by flags is laid out as lacing requires:
      255-byte fragments and one shorter last fragment. */
  lemma CanonicalPacket(segs: seq<OpusPacket>, start: nat)
    requires Laced(segs) && start < |segs| && segs[start].firstPacket
    ensures var c := PacketSegCountAt(segs, start);
      && (forall j :: start <= j < start + c - 1 ==> |segs[j].data| == 255)
      && |segs[start + c - 1].data| < 255
      && PacketSizeAt(segs, start) == 255 * (c - 1) + |segs[start + c - 1].data|
  {
    var c := PacketSegCountAt(segs, start);
    PacketRun(segs, start, c);
    PacketRunBytes(segs, start, c);
  }

  /** A packet on a laced page ends on the page, in a fragment shorter than
      255 bytes. */
  lemma PacketEnd(segs: seq<OpusPacket>, start: nat, c: nat)
    requires Laced(segs) && start < |segs| && c == PacketSegCountAt(segs, start)
    ensures 1 <= c && start + c <= |segs| && |segs[start + c - 1].data| < 255
  {
    PacketRun(segs, start, c);
  }

  /** The fragments of a packet on a laced page. */
  lemma PacketRun(segs: seq<OpusPacket>, start: nat, c: nat)
    requires Laced(segs) && start < |segs| && c == PacketSegCountAt(segs, start)
    ensures 1 <= c && start + c <= |segs|
    ensures forall j :: start <= j < start + c - 1 ==> |segs[j].data| == 255
    ensures |segs[start + c - 1].data| < 255
    ensures start + c < |segs| ==> segs[start + c].firstPacket
  {
    forall j | start <= j < start + c - 1
      ensures |segs[j].data| == 255
    {
      assert !segs[j + 1].firstPacket;
    }
    var last := start + c - 1;
    if last + 1 < |segs| {
      assert segs[last + 1].firstPacket && |segs[last].data| <= 255;
    } else {
      assert last == |segs| - 1;
    }
  }

  /** The bytes of a packet made of 255-byte fragments and a last one. */
  lemma PacketRunBytes(segs: seq<OpusPacket>, start: nat, c: nat)
    requires start < |segs| && c == PacketSegCountAt(segs, start)
    requires forall j :: start <= j < start + c - 1 ==> |segs[j].data| == 255
    ensures PacketSizeAt(segs, start) == 255 * (c - 1) + |segs[start + c - 1].data|
  {
    var run := segs[start..start + c];
    forall j | 0 <= j < |run| - 1
      ensures |run[j].data| == 255
    {
      assert run[j] == segs[start + j];
    }
    assert |run| == c && run[|run| - 1] == segs[start + c - 1];
    RunBytes(run);
  }

  /** On a laced page the first packet by lacing values is the packet at 0 by
      flags: the two ways the source measures a packet agree. */
  lemma FirstSpanAgrees(segs: seq<OpusPacket>)
    requires Laced(segs) && segs != []
    ensures FirstPacketSegCount(segs) == PacketSegCountAt(segs, 0)
    ensures FirstPacketSize(segs) == PacketSizeAt(segs, 0)
  {
    var c := FirstPacketSegCount(segs);
    assert segs[0].firstPacket;
    var d := PacketSegCountAt(segs, 0);
    CanonicalPacket(segs, 0);
  }

  /** Two laced pages side by side make a laced page. */
  lemma LacedAppend(a: seq<OpusPacket>, b: seq<OpusPacket>)
    requires Laced(a) && Laced(b)
    ensures Laced(a + b)
  {
    var s := a + b;
    forall i | 0 <= i < |s|
      ensures |s[i].data| <= 255
      ensures i > 0 ==> (s[i].firstPacket <==> |s[i - 1].data| != 255)
    {
      if i < |a| {
        assert s[i] == a[i];
        if i > 0 {
          assert s[i - 1] == a[i - 1];
        }
      } else if i == |a| {
        assert s[i] == b[0];
        if i > 0 {
          assert s[i - 1] == a[|a| - 1];
        }
      } else {
        assert s[i] == b[i - |a|] && s[i - 1] == b[i - 1 - |a|];
      }
    }
    if |s| > 0 {
      if |a| > 0 {
        assert s[0] == a[0];
      } else {
        assert s[0] == b[0];
      }
      if |b| > 0 {
        assert s[|s| - 1] == b[|b| - 1];
      } else {
        assert s[|s| - 1] == a[|a| - 1];
      }
    }
  }

  /** Three laced pages side by side make a laced page; stated as an
      implication so that a caller holding the three facts among many others
      need not re-establish each conjunct of each one. */
  lemma LacedAppendThree(r: seq<OpusPacket>, a: seq<OpusPacket>, b: seq<OpusPacket>, c: seq<OpusPacket>)
    requires r == a + b + c
    ensures Laced(a) && Laced(b) && Laced(c) ==> Laced(r)
  {
    if Laced(a) && Laced(b) && Laced(c) {
      LacedAppend(a, b);
      LacedAppend(a + b, c);
    }
  }

  /** The fragments before a packet start of a laced page are laced. */
  lemma LacedPrefix(segs: seq<OpusPacket>, k: nat)
    requires Laced(segs) && k <= |segs|
    requires k == |segs| || segs[k].firstPacket
    ensures Laced(segs[..k])
  {
    var p := segs[..k];
    forall i | 0 <= i < |p|
      ensures i > 0 ==> (p[i].firstPacket <==> |p[i - 1].data| != 255)
    {
      assert p[i] == segs[i];
      if i > 0 {
        assert p[i - 1] == segs[i - 1];
      }
    }
    if 0 < k < |segs| {
      assert p[k - 1] == segs[k - 1];
    }
  }

  /** The fragments from a packet start of a laced page on are laced. */
  lemma LacedSuffix(segs: seq<OpusPacket>, k: nat)
    requires Laced(segs) && k <= |segs|
    requires k == |segs| || segs[k].firstPacket
    ensures Laced(segs[k..])
  {
    var t := segs[k..];
    forall i | 0 <= i < |t|
      ensures i > 0 ==> (t[i].firstPacket <==> |t[i - 1].data| != 255)
    {
      assert t[i] == segs[k + i];
      if i > 0 {
        assert t[i - 1] == segs[k + i - 1];
      }
    }
  }

  /** The first packet of a laced page, and what remains after it, are laced. */
  lemma LacedSplit(segs: seq<OpusPacket>)
    requires Laced(segs) && segs != []
    ensures var c := FirstPacketSegCount(segs);
      Laced(segs[..c]) && Laced(segs[c..])
  {
    var c := FirstPacketSegCount(segs);
    if c < |segs| {
      assert |segs[c - 1].data| != 255;
      assert segs[c].firstPacket;
    }
    LacedPrefix(segs, c);
    LacedSuffix(segs, c);
  }

  function PacketGranules(segs: seq<OpusPacket>): Option<nat>
  {
    if segs == [] then Some(0)
    else
      match PacketGranules(segs[1..])
      case None => None
      case Some(rest) =>
        if !segs[0].firstPacket then Some(rest)
        else if segs[0].info.None? then None
        else Some(segs[0].info.value.granule + rest)
  }

  function AddGranules(a: Option<nat>, b: Option<nat>): Option<nat>
  {
    if a.Some? && b.Some? then Some(a.value + b.value) else None
  }

  lemma {:induction false} PacketGranulesAppend(a: seq<OpusPacket>, b: seq<OpusPacket>)
    ensures PacketGranules(a + b) == AddGranules(PacketGranules(a), PacketGranules(b))
  {
    if a == [] {
      assert a + b == b;
    } else {
      assert (a + b)[1..] == a[1..] + b;
      PacketGranulesAppend(a[1..], b);
    }
  }

  /** The granule a fragment that begins a packet contributes: None when its
      fields were never decoded. */
  function StartGranule(p: OpusPacket): Option<nat>
  {
    if p.info.None? then None else Some(p.info.value.granule)
  }

  /** The page's packets in order, each as the granule its first fragment
      contributes: one entry per fragment that begins a packet. */
  function Durations(segs: seq<OpusPacket>): seq<Option<nat>>
  {
    if segs == [] then []
    else (if segs[0].firstPacket then [StartGranule(segs[0])] else []) + Durations(segs[1..])
  }

  function SumDurations(ds: seq<Option<nat>>): Option<nat>
  {
    if ds == [] then Some(0) else AddGranules(ds[0], SumDurations(ds[1..]))
  }

  /** The granule sum correct_values adds up is the sum over the page's
      packets, so keeping the packets keeps the sum. */
  lemma {:induction false} PacketGranulesOfDurations(segs: seq<OpusPacket>)
    ensures PacketGranules(segs) == SumDurations(Durations(segs))
  {
    if segs != [] {
      PacketGranulesOfDurations(segs[1..]);
      var d := Durations(segs);
      if segs[0].firstPacket {
        assert d[0] == StartGranule(segs[0]) && d[1..] == Durations(segs[1..]);
      } else {
        assert d == Durations(segs[1..]);
      }
    }
  }

  lemma {:induction false} DurationsAppend(a: seq<OpusPacket>, b: seq<OpusPacket>)
    ensures Durations(a + b) == Durations(a) + Durations(b)
  {
    if a == [] {
      assert a + b == b;
    } else {
      var h := if a[0].firstPacket then [StartGranule(a[0])] else [];
      assert (a + b)[0] == a[0] && (a + b)[1..] == a[1..] + b;
      DurationsAppend(a[1..], b);
      assert Durations(a + b) == h + (Durations(a[1..]) + Durations(b));
      assert Durations(a) == h + Durations(a[1..]);
    }
  }

  /** Fragments that do not begin a packet hold no packet start. */
  lemma {:induction false} DurationsContinuations(s: seq<OpusPacket>)
    requires forall j :: 0 <= j < |s| ==> !s[j].firstPacket
    ensures Durations(s) == []
  {
    if s != [] {
      DurationsContinuations(s[1..]);
    }
  }

  /** Replacing one fragment by one with the same flag and granule keeps the
      page's packets. */
  lemma DurationsUpdate(segs: seq<OpusPacket>, i: nat, q: OpusPacket)
    requires i < |segs|
    requires q.firstPacket == segs[i].firstPacket && StartGranule(q) == StartGranule(segs[i])
    ensures Durations(segs[i := q]) == Durations(segs)
  {
    assert segs == segs[..i] + [segs[i]] + segs[i + 1..];
    assert segs[i := q] == segs[..i] + [q] + segs[i + 1..];
    DurationsAppend(segs[..i] + [segs[i]], segs[i + 1..]);
    DurationsAppend(segs[..i], [segs[i]]);
    DurationsAppend(segs[..i] + [q], segs[i + 1..]);
    DurationsAppend(segs[..i], [q]);
    assert [q][1..] == [] && [segs[i]][1..] == [];
  }

  /** The number of fragments a packet of `size` bytes needs: the source's
      ceil(size / 255), plus one empty terminator when size is a multiple of
      255, and one fragment below 255 bytes. */
  function NeededSegments(size: nat): (n: nat)
    ensures n == size / 255 + 1
  {
    if size < 255 then 1
    else Ceil(size, 255) + (if size % 255 == 0 then 1 else 0)
  }

  /** Fragment `i` of `full` cut into 255-byte pieces. */
  function Chunk(full: seq<byte>, i: nat): (r: seq<byte>)
    ensures |r| <= 255
  {
    full[Min(255 * i, |full|)..Min(255 * i + 255, |full|)]
  }

  /** The re-sliced packet: piece `i` of `full` goes into the packet's own
      fragment `i` while there is one, else into a new empty fragment. */
  function Resliced(orig: seq<OpusPacket>, full: seq<byte>, needed: nat): (r: seq<OpusPacket>)
    ensures |r| == needed
  {
    seq(needed, i requires 0 <= i < needed =>
      (if i < |orig| then orig[i] else EmptySegment()).(data := Chunk(full, i)))
  }

  /** The payload of the packet at `start` followed by `padCount` zero bytes. */
  function PaddedPayload(segs: seq<OpusPacket>, start: nat, padCount: nat): (full: seq<byte>)
    requires start < |segs|
    ensures |full| == PacketSizeAt(segs, start) + padCount
  {
    var c := PacketSegCountAt(segs, start);
    PayloadLength(segs[start..start + c]);
    Payload(segs[start..start + c]) + Zeros(padCount)
  }

  /** The packet at `start`, padded and re-sliced. */
  function ReslicedPacket(segs: seq<OpusPacket>, start: nat, padCount: nat): (m: seq<OpusPacket>)
    requires start < |segs|
    ensures |m| == NeededSegments(PacketSizeAt(segs, start) + padCount)
  {
    var full := PaddedPayload(segs, start, padCount);
    Resliced(segs[start..start + PacketSegCountAt(segs, start)], full, NeededSegments(|full|))
  }

  /** redistribute_packet_data_at, with the new fragments inserted right after
      the packet: the packet's payload, followed by `padCount` zero bytes, is
      cut into the fewest 255-byte fragments. Fragments of the packet that are no
      longer needed stay, with their payloads, as in the source. */
  function Redistributed(segs: seq<OpusPacket>, start: nat, padCount: nat): seq<OpusPacket>
    requires start < |segs|
  {
    var c := PacketSegCountAt(segs, start);
    var needed := NeededSegments(PacketSizeAt(segs, start) + padCount);
    segs[..start] + ReslicedPacket(segs, start, padCount) + segs[start + Min(needed, c)..]
  }

  /** The pieces of `full` concatenate back to it. */
  lemma {:induction false} ReslicedPayload(orig: seq<OpusPacket>, full: seq<byte>, k: nat)
    requires k <= |full| / 255 + 1
    ensures Payload(Resliced(orig, full, |full| / 255 + 1)[..k]) == full[..Min(255 * k, |full|)]
  {
    var r := Resliced(orig, full, |full| / 255 + 1);
    if k > 0 {
      ReslicedPayload(orig, full, k - 1);
      assert r[..k] == r[..k - 1] + [r[k - 1]];
      PayloadAppend(r[..k - 1], [r[k - 1]]);
      assert [r[k - 1]][1..] == [];
      assert full[..Min(255 * k, |full|)] == full[..Min(255 * (k - 1), |full|)] + Chunk(full, k - 1);
    }
  }

  /** A re-sliced packet on its own: it carries `full`, every fragment but the
      last holds 255 bytes, and the fragments keep the flags and decoded fields
      of the fragments they replace, new ones being empty continuations. */
  lemma ReslicedShape(orig: seq<OpusPacket>, full: seq<byte>)
    ensures var m := Resliced(orig, full, |full| / 255 + 1);
      && Payload(m) == full
      && TotalBytes(m) == |full|
      && (forall j :: 0 <= j < |m| - 1 ==> |m[j].data| == 255)
      && |m[|m| - 1].data| < 255
      && (forall j :: 0 <= j < |m| ==> m[j].firstPacket == (j < |orig| && orig[j].firstPacket))
      && (forall j :: 0 <= j < |m| ==> m[j].info == (if j < |orig| then orig[j].info else None))
  {
    var n := |full| / 255 + 1;
    var m := Resliced(orig, full, n);
    ReslicedPayload(orig, full, n);
    assert m[..n] == m;
    PayloadLength(m);
    forall j | 0 <= j < n - 1
      ensures |m[j].data| == 255
    {
      assert 255 * j + 255 <= 255 * (n - 1) <= |full|;
    }
    forall j | 0 <= j < |m|
      ensures m[j].firstPacket == (j < |orig| && orig[j].firstPacket)
      ensures m[j].info == (if j < |orig| then orig[j].info else None)
    {
      var o := if j < |orig| then orig[j] else EmptySegment();
      assert m[j] == o.(data := Chunk(full, j));
    }
    assert 255 * (n - 1) <= |full| < 255 * n;
  }

  /** Re-slicing a packet that begins with a packet start and has no other
      yields a laced packet with no other packet start. */
  lemma ReslicedLaced(orig: seq<OpusPacket>, full: seq<byte>)
    requires orig != [] && orig[0].firstPacket
    requires forall j :: 0 < j < |orig| ==> !orig[j].firstPacket
    ensures var m := Resliced(orig, full, |full| / 255 + 1);
      Laced(m) && forall j :: 0 < j < |m| ==> !m[j].firstPacket
  {
    var m := Resliced(orig, full, |full| / 255 + 1);
    ReslicedShape(orig, full);
    forall i | 0 <= i < |m|
      ensures |m[i].data| <= 255
      ensures i > 0 ==> !m[i].firstPacket && |m[i - 1].data| == 255
    {
      if i < |m| - 1 {
        assert |m[i].data| == 255;
      }
      if i > 0 {
        assert m[i].firstPacket == (i < |orig| && orig[i].firstPacket);
        assert |m[i - 1].data| == 255;
      }
    }
    assert m[0].firstPacket == (0 < |orig| && orig[0].firstPacket);
  }

  lemma SplitThree(segs: seq<OpusPacket>, start: nat, c: nat)
    requires start + c <= |segs|
    ensures segs == segs[..start] + segs[start..start + c] + segs[start + c..]
  {
  }

  /** The re-sliced packet carries the packet's bytes and the zero bytes. */
  lemma ReslicedPacketBytes(segs: seq<OpusPacket>, start: nat, padCount: nat)
    requires start < |segs|
    ensures TotalBytes(ReslicedPacket(segs, start, padCount)) == PacketSizeAt(segs, start) + padCount
    ensures Payload(ReslicedPacket(segs, start, padCount)) == PaddedPayload(segs, start, padCount)
  {
    ReslicedShape(segs[start..start + PacketSegCountAt(segs, start)], PaddedPayload(segs, start, padCount));
  }

  /** The re-sliced packet is laced and begins the only packet in it. */
  lemma ReslicedPacketLaced(segs: seq<OpusPacket>, start: nat, padCount: nat)
    requires start < |segs| && segs[start].firstPacket
    ensures var m := ReslicedPacket(segs, start, padCount);
      && Laced(m) && (forall j :: 0 < j < |m| ==> !m[j].firstPacket)
      && m[0].firstPacket == segs[start].firstPacket && m[0].info == segs[start].info
  {
    var c := PacketSegCountAt(segs, start);
    var orig := segs[start..start + c];
    forall j | 0 < j < |orig|
      ensures !orig[j].firstPacket
    {
      assert orig[j] == segs[start + j];
    }
    var full := PaddedPayload(segs, start, padCount);
    assert ReslicedPacket(segs, start, padCount) == Resliced(orig, full, |full| / 255 + 1);
    ReslicedLaced(orig, full);
    ReslicedShape(orig, full);
  }

  /** With enough room, the page after re-slicing is the fragments before the
      packet, the re-sliced packet, and the fragments after it; the page gains
      exactly the zero bytes. */
  lemma RedistributedShape(segs: seq<OpusPacket>, start: nat, padCount: nat)
    requires start < |segs|
    requires NeededSegments(PacketSizeAt(segs, start) + padCount) >= PacketSegCountAt(segs, start)
    ensures var c := PacketSegCountAt(segs, start);
      var r := Redistributed(segs, start, padCount);
      && r == segs[..start] + ReslicedPacket(segs, start, padCount) + segs[start + c..]
      && TotalBytes(r) == TotalBytes(segs) + padCount
  {
    var c := PacketSegCountAt(segs, start);
    var orig := segs[start..start + c];
    SplitThree(segs, start, c);
    var mid := ReslicedPacket(segs, start, padCount);
    ReslicedPacketBytes(segs, start, padCount);
    TotalBytesAppend(segs[..start] + orig, segs[start + c..]);
    TotalBytesAppend(segs[..start], orig);
    TotalBytesAppend(segs[..start] + mid, segs[start + c..]);
    TotalBytesAppend(segs[..start], mid);
  }

  lemma TotalBytesUpdate(segs: seq<OpusPacket>, i: nat, q: OpusPacket)
    requires i < |segs|
    ensures TotalBytes(segs[i := q]) == TotalBytes(segs) - |segs[i].data| + |q.data|
  {
    assert segs == segs[..i] + [segs[i]] + segs[i + 1..];
    assert segs[i := q] == segs[..i] + [q] + segs[i + 1..];
    TotalBytesAppend(segs[..i] + [segs[i]], segs[i + 1..]);
    TotalBytesAppend(segs[..i], [segs[i]]);
    TotalBytesAppend(segs[..i] + [q], segs[i + 1..]);
    TotalBytesAppend(segs[..i], [q]);
  }

  /** A packet holds one packet start: that of its first fragment. */
  lemma DurationsOfPacket(x: seq<OpusPacket>)
    requires x != [] && forall j :: 0 < j < |x| ==> !x[j].firstPacket
    ensures Durations(x) == Durations([x[0]])
  {
    assert x == [x[0]] + x[1..];
    DurationsAppend([x[0]], x[1..]);
    DurationsContinuations(x[1..]);
  }

  /** Re-slicing a packet between laced neighbours, with room for the
      padding, yields a laced page. */
  lemma RedistributedLaced(s: seq<OpusPacket>, start: nat, padCount: nat, c: nat)
    requires start < |s| && s[start].firstPacket && c == PacketSegCountAt(s, start)
    requires Laced(s[..start]) && Laced(s[start + c..])
    requires NeededSegments(PacketSizeAt(s, start) + padCount) >= c
    ensures Laced(Redistributed(s, start, padCount))
  {
    var m := ReslicedPacket(s, start, padCount);
    assert Redistributed(s, start, padCount) == s[..start] + m + s[start + c..];
    ReslicedPacketLaced(s, start, padCount);
    LacedAppendThree(Redistributed(s, start, padCount), s[..start], m, s[start + c..]);
  }

  /** Re-slicing a packet, with room for the padding, keeps the page's
      packets: the same packet starts, in the same order, with the same
      granules. */
  lemma RedistributedDurations(s: seq<OpusPacket>, start: nat, padCount: nat)
    requires start < |s| && s[start].firstPacket
    requires NeededSegments(PacketSizeAt(s, start) + padCount) >= PacketSegCountAt(s, start)
    ensures Durations(Redistributed(s, start, padCount)) == Durations(s)
  {
    var c := PacketSegCountAt(s, start);
    var orig := s[start..start + c];
    SplitThree(s, start, c);
    forall j | 0 < j < |orig|
      ensures !orig[j].firstPacket
    {
      assert orig[j] == s[start + j];
    }
    RedistributedShape(s, start, padCount);
    ReslicedPacketLaced(s, start, padCount);
    var m := ReslicedPacket(s, start, padCount);
    SpliceDurations(s[..start], m, orig, s[start + c..]);
  }

  /** Replacing a packet by one whose first fragment has the same flag and
      decoded fields keeps the page's packets. */
  lemma SpliceDurations(pre: seq<OpusPacket>, x: seq<OpusPacket>, y: seq<OpusPacket>, post: seq<OpusPacket>)
    requires x != [] && forall j :: 0 < j < |x| ==> !x[j].firstPacket
    requires y != [] && forall j :: 0 < j < |y| ==> !y[j].firstPacket
    requires x[0].firstPacket == y[0].firstPacket && x[0].info == y[0].info
    ensures Durations(pre + x + post) == Durations(pre + y + post)
  {
    DurationsOfPacket(x);
    DurationsOfPacket(y);
    assert [x[0]][1..] == [] && [y[0]][1..] == [];
    assert Durations([x[0]]) == Durations([y[0]]);
    DurationsAppend(pre, x);
    DurationsAppend(pre + x, post);
    DurationsAppend(pre, y);
    DurationsAppend(pre + y, post);
  }

  /** The rewrite the converter makes before re-slicing: the first fragment
      of a packet replaced by a longer one with the same granule. */
  ghost predicate GrowsPacketStart(segs: seq<OpusPacket>, start: nat, q: OpusPacket)
  {
    && Laced(segs) && start < |segs| && segs[start].firstPacket
    && q.firstPacket && |q.data| >= |segs[start].data|
    && q.info.Some? == segs[start].info.Some?
    && (q.info.Some? ==> q.info.value.granule == segs[start].info.value.granule)
  }

  /** After such a rewrite the packet keeps its fragments, its size grows by
      the growth of its first fragment, and re-slicing it with padding needs
      no fewer fragments than it had. */
  lemma RewriteSpan(segs: seq<OpusPacket>, start: nat, q: OpusPacket, padCount: nat)
    requires GrowsPacketStart(segs, start, q)
    ensures var s2 := segs[start := q];
      var c := PacketSegCountAt(segs, start);
      && PacketSegCountAt(s2, start) == c
      && PacketSizeAt(s2, start) == PacketSizeAt(segs, start) + |q.data| - |segs[start].data|
      && TotalBytes(s2) == TotalBytes(segs) + |q.data| - |segs[start].data|
      && NeededSegments(PacketSizeAt(s2, start) + padCount) >= c
  {
    var s2 := segs[start := q];
    var c := PacketSegCountAt(segs, start);
    SpanByFlagsFrame(segs, s2, start + 1);
    CanonicalPacket(segs, start);
    assert s2[start..start + c] == segs[start..start + c][0 := q];
    TotalBytesUpdate(segs[start..start + c], 0, q);
    TotalBytesUpdate(segs, start, q);
  }

  /** Re-slicing after the rewrite keeps the page laced. */
  lemma RedistributedAfterRewriteLaced(segs: seq<OpusPacket>, start: nat, q: OpusPacket, padCount: nat)
    requires GrowsPacketStart(segs, start, q)
    ensures Laced(Redistributed(segs[start := q], start, padCount))
  {
    var s2 := segs[start := q];
    var c := PacketSegCountAt(segs, start);
    assert c == PacketSegCountAt(s2, start) && NeededSegments(PacketSizeAt(s2, start) + padCount) >= c by {
      RewriteSpan(segs, start, q, padCount);
    }
    assert Laced(s2[..start]) && Laced(s2[start + c..]) by {
      PacketRun(segs, start, c);
      LacedPrefix(segs, start);
      LacedSuffix(segs, start + c);
      assert s2[..start] == segs[..start] && s2[start + c..] == segs[start + c..];
    }
    RedistributedLaced(s2, start, padCount, c);
  }

  /** Re-slicing after the rewrite keeps the page's packets. */
  lemma RedistributedAfterRewriteDurations(segs: seq<OpusPacket>, start: nat, q: OpusPacket, padCount: nat)
    requires GrowsPacketStart(segs, start, q)
    ensures Durations(Redistributed(segs[start := q], start, padCount)) == Durations(segs)
  {
    RewriteSpan(segs, start, q, padCount);
    RedistributedDurations(segs[start := q], start, padCount);
    DurationsUpdate(segs, start, q);
  }

  /** Re-slicing after the rewrite adds the growth, the zero bytes and the new
      fragments to the page size. */
  lemma RedistributedAfterRewriteSize(segs: seq<OpusPacket>, start: nat, q: OpusPacket, padCount: nat)
    requires GrowsPacketStart(segs, start, q)
    ensures var c := PacketSegCountAt(segs, start);
      var size := PacketSizeAt(segs, start) + |q.data| - |segs[start].data| + padCount;
      PageSize(Redistributed(segs[start := q], start, padCount))
        == PageSize(segs) + (|q.data| - |segs[start].data|) + padCount + (NeededSegments(size) - c)
  {
    RewriteSpan(segs, start, q, padCount);
    RedistributedShape(segs[start := q], start, padCount);
  }
}
