/** OggPage.seek_to_page_header over the bytes of a file: a forward scan for
    the capture pattern "OggS" followed by stream-structure version 0
    (section 6 of RFC 3533). */
module PageSeek {
  import opened Common

  /** "OggS" and a version byte of 0. */
  const PageStart: seq<byte> := [0x4F, 0x67, 0x67, 0x53, 0]

  predicate StartsPage(data: seq<byte>, q: nat)
    requires q + 5 <= |data|
  {
    data[q..q + 5] == PageStart
  }

  /** A window at `q` is examined only while the position after reading it
      stays more than five bytes short of the end of the file. */
  predicate Examined(data: seq<byte>, q: nat)
  {
    q + 10 < |data|
  }

  /** seek_to_page_header on a file holding `data`, positioned at `pos`:
      whether a page start was found and the position the file is left at. A
      page start is found exactly when one begins at or after `pos` in an
      examined window, and then the file is left at the first one; otherwise
      the file is left after the last window read. */
  method SeekToPageHeader(data: seq<byte>, pos: nat) returns (found: bool, newPos: nat)
    ensures found <==> exists q :: pos <= q && Examined(data, q) && StartsPage(data, q)
    ensures found ==> pos <= newPos && Examined(data, newPos) && StartsPage(data, newPos)
    ensures found ==> forall q :: pos <= q < newPos ==> !StartsPage(data, q)
    ensures !found ==> newPos == if pos + 10 < |data| then |data| - 5
                                 else if pos < |data| then Min(pos + 5, |data|)
                                 else pos
  {
    var p := pos;
    var five := if p < |data| then data[p..Min(p + 5, |data|)] else [];
    while |five| > 0 && p + |five| + 5 < |data|
      invariant pos <= p
      invariant p < |data| ==> five == data[p..Min(p + 5, |data|)]
      invariant p >= |data| ==> five == []
      invariant pos + 10 < |data| ==> p + 10 <= |data|
      invariant p > pos ==> pos + 10 < |data|
      invariant forall q :: pos <= q < p ==> !StartsPage(data, q)
      decreases |data| - p
    {
      if five == PageStart {
        assert Examined(data, p) && StartsPage(data, p);
        return true, p;
      }
      p := p + 1;
      five := data[p..Min(p + 5, |data|)];
    }
    found, newPos := false, p + |five|;
    forall q | pos <= q && Examined(data, q)
      ensures !StartsPage(data, q)
    {
      assert q < p;
    }
  }
}
