# opus2tonie: the Ogg/Opus page core in Dafny

This project models the part of `opus2tonie.py` that turns an Ogg/Opus stream
into the fixed-size blocks a Toniebox reads. It covers:

- **Opus packets** (`Opus`). The TOC byte (section 3.1 of RFC 6716) gives the
  configuration, the stereo bit and the frame-packing code. A code-3 packet
  carries a frame count and a padding length (section 3.2.5 of RFC 6716).
  Each frame lasts a fixed time for the CELT-only configurations 16 to 31. The
  module also has the two rewrites the converter applies: conversion to code 3,
  and insertion of a padding count.
- **Lacing** (`Lacing`). A page's fragments are its lacing segments. A packet
  is a run of 255-byte fragments ended by a shorter one. This module has the
  packet-span helpers, the page size (27 + lacing values + payload) and the
  re-slicing of a padded packet into 255-byte fragments.
- **Page bytes** (`OggFormat`). The page layout of section 6 of RFC 3533:
  `OggS`, the `<BBQLLLB` header, the lacing table and the payloads. The
  module gives both the writer and the parser, and the checksum condition.
- **Checksum** (`OggCrc`). The table-driven CRC-32 of the Ogg format:
  polynomial 0x04C11DB7, initial value 0, no reflection and no final XOR.
- **Padding decision** (`Padding`). `calc_actual_padding_value`: how many
  zero bytes a packet must take so that the page grows by exactly the bytes
  it lacks.
- **The page object** (`OggPages`). `OggPage` becomes a class whose
  `segments` field the methods reassign. Its methods are the fragment
  insertion and re-slicing, the code-3/padding rewrite, `pad`,
  `pad_one_byte`, `correct_values`, `calc_checksum` and `write_page`.
- **Header pages** (`OpusHeaders`). `check_identification_header`
  (section 5.1 of RFC 7845) and `prepare_opus_tags`, which replaces the
  comment page with the converter's fixed two-fragment OpusTags packet.
- **Repacking** (`Repack`). `resize_pages` moves whole packets, in order,
  onto new pages of a target size. It numbers the pages, pads each to its
  exact size and stamps cumulative granule positions and checksums.
- **Helpers** (`PageSeek`, `FileNames`). The search for the next `OggS\0`
  capture pattern, and `append_to_filename`.

A fragment (the source's `OpusPacket` object) is a datatype value: its
payload, whether it begins a packet, and the decoded TOC fields when it
begins a packet on an audio page. Its lacing value is the length of its
payload. Its `spanning_packet` flag is that length being 255, which is how
the source sets it everywhere except the empty fragments that
`insert_empty_segment` creates. Frame durations are counted in 48 kHz
samples: 120, 240, 480 and 960 per frame.

## Model

| member | source | states |
|---|---|---|
| Opus.TocFields | opus2tonie.py:97-101 | The TOC byte splits into a configuration below 32, a stereo bit and a frame-packing code below 4, and is recomposed from them. |
| Opus.FrameCount | opus2tonie.py:50-59 | Exactly 1 for code 0 and exactly 2 for codes 1 and 2. For code 3 it is the second byte modulo 64. It fails iff the packet is code 3 and shorter than two bytes. |
| Opus.FrameSamples | opus2tonie.py:80-90 | Defined exactly for configurations 16 to 31: 120·2^(config mod 4) samples per frame, i.e. 2.5, 5, 10 or 20 ms at 48 kHz. Any other configuration is an error. |
| Opus.ParseInfo | opus2tonie.py:97-105 | Succeeds iff the data is nonempty, the TOC's configuration is at least 16 and the padding decodes. The configuration, stereo bit and frame-packing code are the TOC's. The padding, frame count and frame duration are what `Padding`, `FrameCount` and `FrameSamples` give for that data. The granule contribution is samples per frame times frame count. Codes 0 to 2 carry no padding and one or two frames. |
| Opus.ParseInfoOfToc | opus2tonie.py:97-105 | A code 0, 1 or 2 packet built from a configuration of 16 to 31, a stereo bit and the code decodes to exactly those fields, no padding, 1 or 2 frames and 120·2^(config mod 4) samples per frame. |
| Opus.ReadPacket | opus2tonie.py:30-47 | The fragment holds the bytes read. It begins a packet iff the previous lacing value is not 255. It has decoded fields iff it begins a packet on a page other than the two header pages. It fails only when decoding fails. |
| Opus.ConvertToFramePackingThree | opus2tonie.py:113-125 | A code-3 packet is returned unchanged. Otherwise the data grows by one byte: the TOC's low bits become 3, the other TOC fields are kept, and a frame-count byte is inserted with 0x80 set iff the packet was code 2. The rest of the payload follows unchanged. Flags are kept and the decoded fields become code 3. |
| Opus.ConvertIdempotent | opus2tonie.py:113-115 | Converting a converted packet changes nothing. |
| Opus.SetPadCount | opus2tonie.py:128-142 | Succeeds iff the packet is a decoded, unpadded code-3 packet of at least two bytes. The TOC is kept, byte 1 becomes the old byte 1 with bit 6 (0x40) set, the next bytes are exactly `EncodePadCount(count)` and the rest of the payload follows unchanged. Flags and decoded fields are kept. |
| Opus.PadCountBytes | opus2tonie.py:135-140 | The while loop builds exactly the 0xFF-per-254 encoding of the count. |
| Opus.EncodePadCountLength | opus2tonie.py:135-140 | The encoding of a count takes one byte for 0 and ⌈count/254⌉ bytes otherwise. |
| Opus.PadCountRoundTrip | opus2tonie.py:136-140 | Decoding the encoding of a count with the decoder of section 3.2.5 of RFC 6716, whatever comes before or after it, gives back the count (see Findings for get_padding as written). |
| Opus.SetPadCountRoundTrip | opus2tonie.py:128-142 | The corrected padding decoder (`Opus.Padding`) of a packet given a padding count returns exactly that count. |
| Opus.PaddingAsWritten | opus2tonie.py:62-77 | get_padding as written: never above 509, and it differs from the RFC 6716 decoder only on a code-3 packet whose first two count bytes are both 255. |
| Opus.SetPadCountAsWritten | opus2tonie.py:62-77 | get_padding as written reads back a count set by set_pad_count exactly up to 509, and every larger count as 509. |
| Opus.ParseInfoRefusesRunOnCount | opus2tonie.py:62-77 | A code-3 fragment whose count bytes are 255, 255 and then its end is read as padded by 509 by get_padding as written, but fails to decode with the corrected decoder. |
| Opus.PaddingAsWrittenLoses510 | opus2tonie.py:62-77 | A count of 510 is written as 255, 255, 2. get_padding as written reads it as 509, the RFC 6716 decoder as 510. |
| OggCrc.CreateTable | opus2tonie.py:450-457 | Entry i of the table is `i << 24` shifted eight times MSB-first against 0x04C11DB7, masked to 32 bits. |
| OggCrc.TableEntryOne | opus2tonie.py:450-457 | Entry 1 of the table is the polynomial 0x04C11DB7 and entry 0 is 0. |
| OggCrc.Crc32 | opus2tonie.py:460-465 | The loop computes the table-driven CRC of the data, starting from 0. |
| OggCrc.CrcFromAppend | opus2tonie.py:460-465 | The CRC of a concatenation continues from the CRC of its first part. |
| OggFormat.HeaderBytes | opus2tonie.py:406-408 | The packed header is 27 bytes long. |
| OggFormat.LacingValues | opus2tonie.py:409-410 | There is one lacing byte per fragment, equal to that fragment's length. |
| OggFormat.PageBytes | opus2tonie.py:406-417 | Writing succeeds iff every header field fits its packed width and every fragment has at most 255 bytes. The result is exactly page-size bytes long and starts with `OggS`. |
| OggFormat.ParseHeaderBytes | opus2tonie.py:162-171 | Unpacking packed header fields gives back the fields. |
| OggFormat.ParseFragmentsFlags | opus2tonie.py:174-186 | Each parsed fragment is as long as its lacing value. The first begins a packet, and each later one begins a packet iff the previous lacing value is not 255. |
| OggFormat.ParsePage | opus2tonie.py:146-186 | A parsed page has at least one fragment, as many as its header says. Its fragments are whole packets, so the last lacing value is not 255. Its size is 27 plus the fragments plus their bytes, within the input. |
| OggFormat.ParsePageDecoded | opus2tonie.py:174-186 | Every fragment that begins a packet on an audio page carries the fields decoded from its own bytes. |
| OggFormat.ParseOfPageBytes | opus2tonie.py:162-186 | Parsing the bytes write_page produces for a page of whole packets, followed by anything, gives back the same header and fragments. |
| OggFormat.PageBytesOfParse | opus2tonie.py:406-417 | Writing a parsed page reproduces the bytes it was parsed from. |
| OggFormat.HeaderChecksumField | opus2tonie.py:202-205 | The checksum field sits at bytes 22 to 25 of the header. The header calc_checksum packs is the written header with those bytes zeroed. |
| OggFormat.WrittenChecksumValid | opus2tonie.py:202-211 | A page whose checksum field holds the CRC of its bytes with that field zeroed satisfies the Ogg checksum condition. |
| Lacing.FirstPacketSegCount | opus2tonie.py:234-242 | No fragments for an empty page. Otherwise a run of 255-byte fragments ended by a shorter one, or by the end of the page. |
| Lacing.FirstPacketSize | opus2tonie.py:221-231 | The bytes of the fragments of the first packet. |
| Lacing.PacketSegCountAt | opus2tonie.py:263-267 | The fragments from the start up to the next fragment that begins a packet, or the end of the page. |
| Lacing.PacketSizeAt | opus2tonie.py:254-260 | The bytes of those fragments. |
| Lacing.FirstSpanAgrees | opus2tonie.py:221-267 | On a page of whole packets, the size-based and the flag-based spans of the first packet agree. |
| Lacing.CanonicalPacket | opus2tonie.py:254-267 | On a page of whole packets, a packet is 255-byte fragments ended by one below 255, so its size is 255·(n−1) plus its last fragment. |
| Lacing.NeededSegments | opus2tonie.py:283-285 | ⌈size/255⌉ fragments, plus one when size is a multiple of 255, is size/255 + 1. |
| Lacing.ReslicedShape | opus2tonie.py:283-295 | The re-sliced fragments carry the packet's bytes followed by the zero bytes. All but the last hold 255 bytes and the last fewer. The old fragments' flags and fields are kept, and new fragments are empty continuations. |
| Lacing.ReslicedPacketBytes | opus2tonie.py:270-295 | The re-sliced packet carries exactly the old payload followed by the zero bytes. |
| Lacing.RedistributedShape | opus2tonie.py:270-295 | The page becomes the fragments before the packet, the re-sliced packet and the untouched fragments after it. It gains exactly the zero bytes. |
| Lacing.RedistributedLaced | opus2tonie.py:270-295 | Re-slicing keeps the page made of whole packets. |
| Lacing.RedistributedDurations | opus2tonie.py:270-295 | Re-slicing keeps the page's packets: the same packet starts, in the same order, each with the same granule. |
| Lacing.PacketGranulesOfDurations | opus2tonie.py:189-196 | The granule sum correct_values adds up is the sum over the page's packets, so a page that keeps its packets keeps that sum. |
| Padding.PaddingValue | opus2tonie.py:306-356 | It refuses a page already too large. It answers DO_NOTHING iff nothing is lacking, OTHER_PACKET_NEEDED whenever the deficit plus the last fragment's size is a multiple of 255, and otherwise for a deficit of one byte ONLY_CONVERT_FRAMEPACKING for a packet not yet code 3 or a padding of zero for a code-3 packet. ONLY_CONVERT_FRAMEPACKING comes only for a packet not yet code 3. Any padding count is below the deficit. |
| Padding.PaddingExact | opus2tonie.py:306-356 | When the decision rewrites the packet, the page grows by exactly the deficit. The growth counts the frame-count byte, the padding-count bytes, the zero bytes and the new lacing values. |
| OggPages.DecidePadding | opus2tonie.py:306-356 | The method with the counting loop decides as calc_actual_padding_value specifies. |
| OggPages.FitPadCount | opus2tonie.py:346-356 | Taking out the frame-count byte and the padding-count bytes gives the padding count of `Padding.PadCountFor`, or OTHER_PACKET_NEEDED when the estimated width of the count's encoding does not hold. |
| OggPages.CountNewSegments | opus2tonie.py:325-330 | The counting loop finds one new lacing value per 256 bytes beyond 254. |
| OggPages.Page.CalcActualPaddingValue | opus2tonie.py:306-311 | The decision for a packet depends on its fragment count, its last fragment's size and whether it is already code 3. |
| OggPages.Page.Read | opus2tonie.py:146-159 | A page built from parsed bytes has the parsed header and fragments. |
| OggPages.Page.FromPage | opus2tonie.py:421-431 | The new page copies version, type, granule, serial and number, with no checksum and no fragments. |
| OggPages.Page.InsertEmptySegment | opus2tonie.py:245-251 | An empty fragment goes in after the given index, or at the end past it as list.insert does. The header is unchanged. |
| OggPages.InsertEmpties | opus2tonie.py:286-288 | The insertion loop puts the empty fragments right after the packet (see Findings). |
| OggPages.ConcatPayloads | opus2tonie.py:272-274 | The first loop concatenates the packet's payloads. |
| OggPages.WriteChunks | opus2tonie.py:291-294 | The write loop gives fragment start+i the i-th 255-byte piece and leaves every other fragment alone. |
| OggPages.Page.RedistributePacketDataAt | opus2tonie.py:270-295 | The fragments become the re-sliced page of `Lacing.Redistributed`, with the new fragments right after the packet. The header is unchanged. |
| OggPages.Rewritten | opus2tonie.py:298-302 | Conversion and an optional padding count keep the flags and the granule. They grow the data by the conversion byte and the count bytes. The count decodes back. Failures are the source's assertion failures. |
| OggPages.PaddedPageKeeps | opus2tonie.py:298-303 | Rewriting and re-slicing a packet keeps the page made of whole packets, with the same packet starts in the same order and the same granules. |
| OggPages.PaddedPageSize | opus2tonie.py:298-303 | The page grows by the packet's new bytes plus the new lacing values they need. |
| OggPages.Page.ConvertPacketToFramePackingThreeAndPad | opus2tonie.py:298-303 | It fails iff the fragment does not begin a packet or a rewrite step fails. A failed padding step leaves the conversion in place. Success leaves the rewritten, re-sliced page. |
| OggPages.PacketStartAtOrBefore | opus2tonie.py:366-369 | The backward scan finds the nearest packet start at or before the index, or fails iff there is none. |
| OggPages.Page.Pad | opus2tonie.py:359-389 | An empty page is an error. When the page already has the requested size, it is left unchanged and the call succeeds; when it is larger, it is left unchanged with PageTooLarge. A successful pad leaves the page exactly the requested size, still whole packets, with the same packet starts in the same order, each with the same granule, and the same header. |
| OggPages.Page.PadThrough | opus2tonie.py:371-389 | Nothing lacking leaves the page unchanged and succeeds, and a page already too large is left unchanged with PageTooLarge. Each other branch of the padding decision ends with the requested page size: convert, pad one byte and retry, pad half through an earlier packet then retry, or pad the packet. The page stays whole packets with the same packet starts, in order, with their granules. |
| OggPages.Page.PadPacketAt | opus2tonie.py:376-389 | Given the action calc_actual_padding_value returns for the packet, the new fragments are exactly the page with that packet converted, or converted and padded, and re-sliced (`PaddedPage`). This grows the page by exactly the deficit, as the source's closing assertion demands, and keeps it laced with its packets, in order and with their granules, unchanged. |
| OggPages.OneByteGrowth | opus2tonie.py:392-403 | Giving the chosen packet its one byte grows the page by exactly one. |
| OggPages.Page.PadOneByte | opus2tonie.py:392-403 | The page grows by exactly one byte: the new fragments are the old ones with the FIRST packet start that can take a byte (`OneByteSlotPadded`) given it. When the page is nonempty and no packet start can take a byte without a new lacing value, the result is ImpossibleToPad with the page unchanged, and only then. |
| OggPages.Page.FirstOneByteSlot | opus2tonie.py:393-398 | Returns the first packet start that has no padding and whose packet can grow by one byte without a new lacing value. It returns None exactly when no such start exists on the page. |
| OggPages.Page.TakeOneByte | opus2tonie.py:399-402 | The new fragments are exactly the page with the chosen packet given its one byte and re-sliced (`PaddedPage`), which grows the page by exactly one byte and keeps it whole packets with the same packets in the same order. Its failures are the rewrite's own. |
| OggPages.SumGranules | opus2tonie.py:192-196 | The loop adds the granules of the packets that begin on the page. |
| OggPages.Page.CorrectValues | opus2tonie.py:189-199 | More than 255 fragments is refused. Otherwise the granule position is the last one plus the page's packet granules, none on the header pages. The segment count is the number of fragments and the checksum is the CRC of the page with that field zeroed, so the written page passes the checksum check. |
| OggPages.Page.CalcChecksum | opus2tonie.py:202-211 | The CRC of the header with checksum 0, the lacing table and the payloads. Below 2^32. |
| OggPages.SerializePage | opus2tonie.py:406-417 | The loops produce exactly the page bytes. |
| OggPages.PackLacingValues | opus2tonie.py:409-410 | The lacing table, failing iff some fragment exceeds 255 bytes. |
| OggPages.Page.WritePage | opus2tonie.py:406-417 | The page is written as its header, lacing table and payloads. |
| OggPages.RedistributeOverwritesNextPacket | opus2tonie.py:287-288 | With the source's insertion index, a one-byte packet followed by another and padded by 254 loses the following packet's byte. The intended placement keeps all 256 bytes. |
| OpusHeaders.CheckIdentificationHeader | opus2tonie.py:468-474 | Accepts only a page whose first fragment starts with `OpusHead`, version 1, 2 channels and 48000 Hz. |
| OpusHeaders.CheckOfIdentificationHeader | opus2tonie.py:468-474 | For an identification header built from its fields, the check passes iff it is stereo at 48000 Hz. |
| OpusHeaders.OpusTagsWellFormed | opus2tonie.py:23-26 | The fixed OpusTags packet is 255 + 181 bytes. It parses as a 13-byte vendor string and three comments of 38, 42 and 315 bytes, the last one padding. |
| OpusHeaders.PrepareOpusTags | opus2tonie.py:477-493 | The page holds the two OpusTags fragments and keeps its identity. On the comment page it ends with granule 0, two segments and a valid checksum. |
| PageSeek.SeekToPageHeader | opus2tonie.py:435-447 | Found iff a capture pattern starts at or after the position among the places the loop examines (`tell()+5 < size`). It stops at the first one. When not found, the final position is where the loop gives up. |
| FileNames.RFind | opus2tonie.py:583 | The last index of the character, or −1 iff it does not occur. |
| FileNames.AppendToFilename | opus2tonie.py:582-587 | The suffix goes, after a space, before the last `.` extension, or at the end when there is none. |
| FileNames.AppendKeepsExtension | opus2tonie.py:582-587 | For a suffix without a dot, the extension is kept and the stem gains the suffix. |
| Repack.GroupPackets | opus2tonie.py:549-570 | Pages hold whole packets in input order, each under 256 fragments and within its size limit. Grouping is greedy: every closed page is closed only because the next packet does not fit on it (`Repack.Greedy`). When any fragment was placed (in particular when the last input page is nonempty), a final open page is left. |
| Repack.FinishPage | opus2tonie.py:562-563 | Padding then correct_values leaves a page of exactly its size, with its number, page type, version and serial number unchanged, its packets kept, its granule position following the previous one and a valid checksum. |
| Repack.BuildPage | opus2tonie.py:562-577 | A fresh page with the template's version and serial number, numbered, holding its packets, of type 4 when flagged and of the template's type otherwise, closed as above. |
| Repack.CloseNext | opus2tonie.py:562-565 | Closing the next page extends the closed pages by one, numbered and timed after the last, with the template's version and serial number. |
| Repack.ClosePages | opus2tonie.py:562-577 | Every new page is closed in order: the template's version and serial number, numbered from the start, padded to its size, with granules accumulating and a valid checksum. |
| Repack.ResizePages | opus2tonie.py:539-579 | The new pages hold the input's fragments in order, as whole packets, under 256 per page. They are numbered from start_no and padded to the first or later page size. Every page carries the template's version and serial number. Granules are cumulative and checksums valid. Only the last page is given type 4, and only if requested; the others keep the template's type, which is itself 4 when the template is an end-of-stream page. When requested and any fragment was placed, the last page is given type 4. Each page but the last holds as many packets as fit: the next page's first packet would not. |
| Repack.GranulesGrow | opus2tonie.py:189-199 | Granule positions of the new pages never decrease and start at or after the given last granule. |

## Left out

- File handles, `seek`/`tell`, the command line, glob, ffmpeg/opusenc, SHA-1, the protobuf header (`tonie_header_pb2.py`, `fix_tonie_header`), the page-copy/skip/read-all drivers and report printing are not part of this model. Pages are parsed from and written to byte sequences instead.
- PageSeek.SeekToPageHeader: searches a byte sequence from a position rather than moving a file handle; the returned position stands for the handle's final position.
- Opus.FrameSamples: counts frames in 48 kHz samples. The source computes 2.5 ms frames as the float 2.5, which would make granule positions floats that `struct.pack("<Q")` rejects. The model takes the evident integer meaning.
- OggPages.Page.Pad: the recursion of pad is bounded by a `fuel` parameter standing for the interpreter's recursion limit; running out is `RecursionLimit`.
- Uncaught Python exceptions (failed assertions, `RuntimeError`, `IndexError`, `TypeError` on missing fields, `struct.error`) are modelled as `Err` values of `Common.Error`. Where two exceptions are possible the model returns one of them.
- Fragments are values held in the page's `segments` field. The in-place rewrite of a fragment's `data` by `convert_to_framepacking_three` and `set_pad_count` is modelled as replacing that fragment in the list, since no fragment is shared between pages.
- The `size` and `spanning_packet` attributes of a fragment are not stored: the size is taken to be the payload length and the spanning flag that length being 255. The source keeps `size` so except on a page cut short by the end of the input (see `OggFormat.ParsePage`). It does not keep `spanning_packet` so after re-slicing, which rewrites only `data` and `size`: a parsed 100-byte fragment padded to 300 bytes becomes a 255-byte fragment whose flag stays false. The flag is read only when a page is parsed, on freshly parsed fragments, so deriving it from the length loses nothing the source uses.
- Opus.ParseInfo: decodes the padding count with the corrected decoder (see Findings). A code-3 fragment whose 255 count bytes run to its end is therefore `Err(Truncated)`, so `Opus.ReadPacket` and `OggFormat.ParsePage` fail on it, where the source's get_padding reads such a count as 254 plus the last byte and goes on.
- OggFormat.ParsePage: a lacing table or a payload cut short by the end of the input is `Err(Truncated)`. The source's parse_segments reads what is there without raising, builds fewer or shorter fragments whose `size` still records the lacing value, and fails only later. The model does not represent such pages.
- OggPages.Page.Pad: states that the page keeps its packet starts, in order, with their granules (`Lacing.Durations`), and its size, but not that each packet's audio frames (its bytes after the TOC, frame-count and padding-count bytes) are unchanged. Per packet this is stated by `Opus.ConvertToFramePackingThree`, `Opus.SetPadCount` and `Lacing.ReslicedPacketBytes`, not for the page as a whole.
- OggPages.Page.PadThrough: as for `OggPages.Page.Pad`, the page size and the packet starts, their order and granules are stated, but not that each packet's audio frames are unchanged for the page as a whole.
- Repack.ResizePages: takes the input pages as their fragment lists and does not model that the source empties the caller's page objects as it pops their fragments. It makes its grouping decisions first and then closes the pages. When a packet does not fit even on an empty page, it returns an error after closing the earlier pages, as the source fails on that page.
- OpusHeaders.PrepareOpusTags: on a page other than the two header pages it states only that the call fails (the source fails while summing granules of fragments that have no decoded fields), not which error.
- Pad, PadOneByte and the page methods that need it require the page to be made of whole packets (every parsed page is, see `OggFormat.ParsePage`).

## Findings

| source | as written | input that shows it | evidently intended | confidence | as-written member | corrected member |
|---|---|---|---|---|---|---|
| opus2tonie.py:287-288 | New fragments are inserted with `insert_empty_segment(seg_start + seg_count + i)`, which inserts at index `seg_start + seg_count + i + 1`. The first new fragment therefore lands after the fragment that follows the packet, and the write loop then overwrites that fragment's bytes. | A page of two one-byte packets, padding the first by 254 bytes (as `pad` does through an earlier packet after TOO_MANY_SEGMENTS): the result holds 255 bytes instead of 256 and the second packet's byte is lost. | The new fragments go directly after the packet, so the fragments after it are untouched. | high, not executed | OggPages.RedistributedAsWritten, OggPages.RedistributeOverwritesNextPacket | Lacing.Redistributed, Lacing.RedistributedShape |
| opus2tonie.py:73-76 | Inside the loop, `padding` is rebound to the tuple `struct.unpack` returns, and a tuple never equals 255. The loop therefore reads at most one byte after a leading 255, and counts above 509 read wrong. | `set_pad_count(510)` writes the count bytes 255, 255, 2. get_padding reads them as 254 + 255 = 509. | The count is read as section 3.2.5 of RFC 6716 defines it, each 255 adding 254 until a smaller byte ends it, so it reads back what set_pad_count wrote. The model's `ParseInfo` uses this decoder, so it also refuses a count whose 255 bytes run to the end of the fragment, which get_padding reads (`Opus.ParseInfoRefusesRunOnCount`). | high, not executed | Opus.PaddingAsWritten, Opus.PaddingAsWrittenLoses510, Opus.ParseInfoRefusesRunOnCount | Opus.Padding, Opus.SetPadCountRoundTrip |
