/** resize_pages: the audio packets of the input pages are laid out again on
    pages of a fixed size, each page filled with whole packets in order and
    then padded to exactly its size. */
module Repack {
  import opened Common
  import opened Opus
  import opened Lacing
  import opened OggFormat
  import opened OggCrc
  import opened OggPages

  lemma TakeSnoc<T>(s: seq<T>, i: nat)
    requires i < |s|
    ensures s[..i] + [s[i]] == s[..i + 1]
  {
  }

  lemma TakeAll<T>(s: seq<T>)
    ensures s[..|s|] == s
  {
  }

  lemma AppendEmpty<T>(a: seq<T>)
    ensures a + [] == a
  {
  }

  lemma AppendAssoc<T>(a: seq<T>, b: seq<T>, c: seq<T>)
    ensures a + (b + c) == a + b + c
  {
  }

  /** The fragments of a list of pages, in order. */
  function Flatten(pages: seq<seq<OpusPacket>>): seq<OpusPacket>
  {
    if pages == [] then [] else pages[0] + Flatten(pages[1..])
  }

  lemma {:induction false} FlattenSnoc(pages: seq<seq<OpusPacket>>, p: seq<OpusPacket>)
    ensures Flatten(pages + [p]) == Flatten(pages) + p
  {
    if pages == [] {
      assert pages + [p] == [p];
      assert Flatten([p]) == p + Flatten([]);
    } else {
      assert (pages + [p])[1..] == pages[1..] + [p];
      FlattenSnoc(pages[1..], p);
    }
  }

  /** What resize_pages promises of a page it has closed: its number, at most
      255 lacing values recorded in its header, the stream's version and
      serial number copied from the template, whole packets padded to the
      target size while keeping their durations, a granule position that
      adds those durations to the previous one, and a valid checksum. */
  ghost predicate Finished(p: Page, version: nat, serial: nat, no: nat, pageType: nat, target: int, prevGranule: nat,
                          content: seq<OpusPacket>)
    reads p
  {
    && p.version == version && p.serialNo == serial
    && p.pageNo == no && p.pageType == pageType
    && |p.segments| <= 255 && p.segmentCount == |p.segments|
    && content != [] && Laced(content) && Laced(p.segments)
    && PageSize(p.segments) == target
    && Durations(p.segments) == Durations(content)
    && PageGranule(no, p.segments).Some?
    && p.granulePosition == prevGranule + PageGranule(no, p.segments).value
    && PageBytes(p.Header(), p.segments).Ok?
    && ChecksumValid(PageBytes(p.Header(), p.segments).value)
  }

  /** Every page of `pages` is closed as resize_pages closes the `n`-th new
      page: numbered from `startNo`, of page type 4 if `n` is `flagAt` and of
      `pageType` otherwise, padded to `firstSize` (the first) or `maxSize`
      (the others), its granule position following the previous page's,
      starting from `lastGranule`. */
  ghost predicate AllFinished(pages: seq<Page>, contents: seq<seq<OpusPacket>>, startNo: nat, flagAt: int,
                              pageType: nat, version: nat, serial: nat, firstSize: int, maxSize: int, lastGranule: nat)
    reads pages
  {
    && |pages| == |contents|
    && forall k {:trigger contents[k]} :: 0 <= k < |pages| ==>
         Finished(pages[k], version, serial, startNo + k, if k == flagAt then 4 else pageType, Target(k, firstSize, maxSize),
                  if k == 0 then lastGranule else pages[k - 1].granulePosition, contents[k])
  }

  lemma AllFinishedSnoc(pages: seq<Page>, contents: seq<seq<OpusPacket>>, startNo: nat, flagAt: int,
                        pageType: nat, version: nat, serial: nat, firstSize: int, maxSize: int, lastGranule: nat,
                        n: nat, p: Page, ty: nat, prev: nat, c: seq<OpusPacket>)
    requires AllFinished(pages, contents, startNo, flagAt, pageType, version, serial, firstSize, maxSize, lastGranule)
    requires n == |pages| && ty == (if n == flagAt then 4 else pageType)
    requires prev == if n == 0 then lastGranule else pages[n - 1].granulePosition
    requires Finished(p, version, serial, startNo + n, ty, Target(n, firstSize, maxSize), prev, c)
    ensures AllFinished(pages + [p], contents + [c], startNo, flagAt, pageType, version, serial, firstSize, maxSize, lastGranule)
  {
    var ps, cs := pages + [p], contents + [c];
    forall k | 0 <= k < |ps|
      ensures Finished(ps[k], version, serial, startNo + k, if k == flagAt then 4 else pageType, Target(k, firstSize, maxSize),
                       if k == 0 then lastGranule else ps[k - 1].granulePosition, cs[k])
    {
      assert k > 0 ==> ps[k - 1] == pages[k - 1];
      if k < n {
        assert ps[k] == pages[k] && cs[k] == contents[k];
        assert Finished(pages[k], version, serial, startNo + k, if k == flagAt then 4 else pageType, Target(k, firstSize, maxSize),
                        if k == 0 then lastGranule else pages[k - 1].granulePosition, contents[k]);
      } else {
        assert ps[k] == p && cs[k] == c;
      }
    }
    assert |ps| == |cs|;
    assert AllFinished(ps, cs, startNo, flagAt, pageType, version, serial, firstSize, maxSize, lastGranule);
  }

  /** The granule positions of closed pages never decrease: each adds the
      duration of its packets to the one before, starting from `lastGranule`. */
  lemma {:induction false} GranulesGrow(pages: seq<Page>, contents: seq<seq<OpusPacket>>, startNo: nat, flagAt: int,
                                        pageType: nat, version: nat, serial: nat, firstSize: int, maxSize: int,
                                        lastGranule: nat, i: nat, j: nat)
    requires AllFinished(pages, contents, startNo, flagAt, pageType, version, serial, firstSize, maxSize, lastGranule)
    requires i <= j < |pages|
    ensures lastGranule <= pages[i].granulePosition <= pages[j].granulePosition
    decreases j
  {
    var prev := if j == 0 then lastGranule else pages[j - 1].granulePosition;
    assert Finished(pages[j], version, serial, startNo + j, if j == flagAt then 4 else pageType, Target(j, firstSize, maxSize),
                    prev, contents[j]);
    if j > 0 {
      GranulesGrow(pages, contents, startNo, flagAt, pageType, version, serial, firstSize, maxSize, lastGranule,
                   if i < j then i else j - 1, j - 1);
    }
  }

  /** Moving the first packet of a laced page onto a laced page keeps both
      laced and the fragments in order. */
  lemma MoveFirstPacket(s: seq<OpusPacket>, cur: seq<OpusPacket>)
    requires Laced(s) && Laced(cur)
    ensures var c := FirstPacketSegCount(cur);
      Laced(s + cur[..c]) && Laced(cur[c..]) && (s + cur[..c]) + cur[c..] == s + cur
  {
    var c := FirstPacketSegCount(cur);
    if cur != [] {
      LacedSplit(cur);
      LacedAppend(s, cur[..c]);
    }
    AppendSplit(s, cur, c);
  }

  lemma AppendSplit(s: seq<OpusPacket>, cur: seq<OpusPacket>, c: nat)
    requires c <= |cur|
    ensures (s + cur[..c]) + cur[c..] == s + cur
  {
    assert cur[..c] + cur[c..] == cur;
  }

  /** The two calls that close a page: pad to `maxSize`, then correct_values
      after the granule position of the previous page. */
  method FinishPage(page: Page, maxSize: int, lastGranule: nat, table: seq<bv32>, fuel: nat) returns (r: Result<()>)
    requires IsTable(table) && Laced(page.segments)
    modifies page
    ensures old(page.segments) == [] ==> r.Err?
    ensures r.Ok? ==> Finished(page, old(page.version), old(page.serialNo), old(page.pageNo), old(page.pageType), maxSize,
                               lastGranule, old(page.segments))
  {
    ghost var content := page.segments;
    r := page.Pad(maxSize, -1, fuel);
    if r.Err? {
      return;
    }
    r := page.CorrectValues(lastGranule, table);
  }

  /** The fit test of resize_pages: the first packet of `cur`, its bytes and
      its lacing values, still fits on a page holding `s` and padded to
      `maxSize`, and the page keeps fewer than 256 lacing values. */
  predicate Fits(s: seq<OpusPacket>, cur: seq<OpusPacket>, maxSize: int)
  {
    var c := FirstPacketSegCount(cur);
    FirstPacketSize(cur) + c + PageSize(s) <= maxSize && |s| + c < 256
  }

  /** The greedy rule of resize_pages: a page is closed only when the first
      packet of the page after it does not fit on it. */
  ghost predicate Greedy(groups: seq<seq<OpusPacket>>, firstPageSize: int, maxPageSize: int)
  {
    forall k :: 0 <= k < |groups| - 1 ==> !Fits(groups[k], groups[k + 1], Target(k, firstPageSize, maxPageSize))
  }

  /** The greedy rule while GroupPackets runs: the closed pages keep it, and
      the packet that closed the last one is the first of the open page or,
      while that page is still empty, the next one to be placed. */
  ghost predicate GreedySoFar(groups: seq<seq<OpusPacket>>, s: seq<OpusPacket>, cur: seq<OpusPacket>, havePage: bool,
                              firstPageSize: int, maxPageSize: int)
  {
    && Greedy(groups, firstPageSize, maxPageSize)
    && (|groups| > 0 && s == [] ==>
          havePage && cur != [] && !Fits(groups[|groups| - 1], cur, Target(|groups| - 1, firstPageSize, maxPageSize)))
    && (|groups| > 0 && s != [] ==>
          !Fits(groups[|groups| - 1], s, Target(|groups| - 1, firstPageSize, maxPageSize)))
  }

  /** Fragments appended after a run of whole packets do not change its first
      packet, so they do not change whether that packet fits. */
  lemma FitsOfPrefix(g: seq<OpusPacket>, s: seq<OpusPacket>, x: seq<OpusPacket>, maxSize: int)
    requires Laced(s) && s != []
    ensures Fits(g, s + x, maxSize) == Fits(g, s, maxSize)
  {
    FirstPacketOfPrefix(s, x, 0);
  }

  lemma {:induction false} FirstPacketOfPrefix(s: seq<OpusPacket>, x: seq<OpusPacket>, i: nat)
    requires i < |s| && |s[|s| - 1].data| != 255
    ensures SpanBySize(s + x, i) == SpanBySize(s, i) && SizeBySize(s + x, i) == SizeBySize(s, i)
    decreases |s| - i
  {
    assert (s + x)[i] == s[i];
    if |s[i].data| == 255 {
      assert i + 1 < |s|;
      FirstPacketOfPrefix(s, x, i + 1);
    }
  }

  /** Moving a packet onto the open page keeps the greedy rule. */
  lemma GreedyMove(groups: seq<seq<OpusPacket>>, s: seq<OpusPacket>, cur: seq<OpusPacket>,
                   firstPageSize: int, maxPageSize: int)
    requires GreedySoFar(groups, s, cur, true, firstPageSize, maxPageSize)
    requires Laced(s) && Laced(cur) && cur != []
    ensures var c := FirstPacketSegCount(cur);
      GreedySoFar(groups, s + cur[..c], cur[c..], |cur[c..]| > 0, firstPageSize, maxPageSize)
  {
    var c := FirstPacketSegCount(cur);
    MoveFirstPacket([], cur);
    assert [] + cur[..c] == cur[..c];
    if |groups| > 0 {
      var last, t := groups[|groups| - 1], Target(|groups| - 1, firstPageSize, maxPageSize);
      if s == [] {
        assert s + cur[..c] == cur[..c];
        assert cur[..c] + cur[c..] == cur;
        FitsOfPrefix(last, cur[..c], cur[c..], t);
      } else {
        FitsOfPrefix(last, s, cur[..c], t);
      }
    }
  }

  /** Closing the open page because the next packet does not fit on it keeps
      the greedy rule. */
  lemma GreedyClose(groups: seq<seq<OpusPacket>>, s: seq<OpusPacket>, cur: seq<OpusPacket>,
                    firstPageSize: int, maxPageSize: int)
    requires GreedySoFar(groups, s, cur, true, firstPageSize, maxPageSize)
    requires s != [] && cur != [] && !Fits(s, cur, Target(|groups|, firstPageSize, maxPageSize))
    ensures GreedySoFar(groups + [s], [], cur, true, firstPageSize, maxPageSize)
  {
    var g := groups + [s];
    forall k | 0 <= k < |g| - 1
      ensures !Fits(g[k], g[k + 1], Target(k, firstPageSize, maxPageSize))
    {
      assert g[k] == groups[k];
      if k + 1 < |groups| {
        assert g[k + 1] == groups[k + 1];
      }
    }
  }

  /** When the input has run out, the closed pages and the open one keep the
      greedy rule. */
  lemma GreedyEnd(groups: seq<seq<OpusPacket>>, s: seq<OpusPacket>, firstPageSize: int, maxPageSize: int)
    requires GreedySoFar(groups, s, [], false, firstPageSize, maxPageSize)
    ensures Greedy(groups, firstPageSize, maxPageSize)
    ensures s != [] ==> Greedy(groups + [s], firstPageSize, maxPageSize)
  {
    if s != [] {
      var g := groups + [s];
      forall k | 0 <= k < |g| - 1
        ensures !Fits(g[k], g[k + 1], Target(k, firstPageSize, maxPageSize))
      {
        assert g[k] == groups[k];
        if k + 1 < |groups| {
          assert g[k + 1] == groups[k + 1];
        }
      }
    }
  }

  /** The page a packet would go to: its byte limit. */
  function Target(k: nat, firstPageSize: int, maxPageSize: int): int
  {
    if k == 0 then firstPageSize else maxPageSize
  }

  /** The groups of GroupPackets, each a nonempty run of whole packets with
      fewer than 256 lacing values that fits its page before padding. */
  ghost predicate GroupsFit(groups: seq<seq<OpusPacket>>, firstPageSize: int, maxPageSize: int)
  {
    forall k :: 0 <= k < |groups| ==>
      groups[k] != [] && Laced(groups[k]) && |groups[k]| <= 255
      && PageSize(groups[k]) <= Target(k, firstPageSize, maxPageSize)
  }

  lemma GroupsFitSnoc(groups: seq<seq<OpusPacket>>, s: seq<OpusPacket>, firstPageSize: int, maxPageSize: int)
    requires GroupsFit(groups, firstPageSize, maxPageSize)
    requires s != [] && Laced(s) && |s| <= 255 && PageSize(s) <= Target(|groups|, firstPageSize, maxPageSize)
    ensures GroupsFit(groups + [s], firstPageSize, maxPageSize)
  {
    var g := groups + [s];
    forall k | 0 <= k < |g|
      ensures g[k] != [] && Laced(g[k]) && |g[k]| <= 255 && PageSize(g[k]) <= Target(k, firstPageSize, maxPageSize)
    {
      if k < |groups| {
        assert g[k] == groups[k];
      }
    }
  }

  /** The fragments not yet placed, in order: the closed groups, the open
      page, the rest of the current input page and the pages still to come
      make up the input. */
  ghost predicate InOrder(groups: seq<seq<OpusPacket>>, s: seq<OpusPacket>, cur: seq<OpusPacket>,
                          pending: seq<seq<OpusPacket>>, oldPages: seq<seq<OpusPacket>>)
  {
    Flatten(groups) + s + cur + Flatten(pending) == Flatten(oldPages)
  }

  lemma InOrderPop(groups: seq<seq<OpusPacket>>, s: seq<OpusPacket>,
                   pending: seq<seq<OpusPacket>>, oldPages: seq<seq<OpusPacket>>)
    requires pending != [] && InOrder(groups, s, [], pending, oldPages)
    ensures InOrder(groups, s, pending[0], pending[1..], oldPages)
  {
    var f, p, r := Flatten(groups) + s, pending[0], Flatten(pending[1..]);
    assert Flatten(pending) == p + r;
    AppendEmpty(f);
    AppendAssoc(f, p, r);
  }

  lemma InOrderMove(groups: seq<seq<OpusPacket>>, s: seq<OpusPacket>, cur: seq<OpusPacket>, c: nat,
                    pending: seq<seq<OpusPacket>>, oldPages: seq<seq<OpusPacket>>)
    requires c <= |cur| && InOrder(groups, s, cur, pending, oldPages)
    ensures InOrder(groups, s + cur[..c], cur[c..], pending, oldPages)
  {
    var g, f := Flatten(groups), Flatten(pending);
    assert cur[..c] + cur[c..] == cur;
    assert g + s + cur + f == g + (s + cur[..c]) + cur[c..] + f;
  }

  lemma InOrderClose(groups: seq<seq<OpusPacket>>, s: seq<OpusPacket>, cur: seq<OpusPacket>,
                     pending: seq<seq<OpusPacket>>, oldPages: seq<seq<OpusPacket>>)
    requires InOrder(groups, s, cur, pending, oldPages)
    ensures InOrder(groups + [s], [], cur, pending, oldPages)
  {
    FlattenSnoc(groups, s);
    assert Flatten(groups) + s + [] == Flatten(groups) + s;
  }

  /** The state of GroupPackets between two steps: `groups` are the closed
      pages, `s` the open page, `cur` what is left of input page `next - 1`
      (when `havePage`) and the input pages from `next` on are untouched. */
  ghost predicate Grouping(oldPages: seq<seq<OpusPacket>>, groups: seq<seq<OpusPacket>>, s: seq<OpusPacket>,
                           cur: seq<OpusPacket>, havePage: bool, next: nat, maxSize: int,
                           firstPageSize: int, maxPageSize: int)
  {
    && next <= |oldPages|
    && (forall i :: next <= i < |oldPages| ==> Laced(oldPages[i]))
    && (!havePage ==> cur == [])
    && Laced(cur) && Laced(s) && |s| <= 255
    && (s != [] ==> PageSize(s) <= maxSize)
    && (next == |oldPages| && |oldPages| > 0 && oldPages[|oldPages| - 1] != [] ==>
          (havePage ==> cur != []) && (!havePage ==> s != []))
    && InOrder(groups, s, cur, oldPages[next..], oldPages)
    && maxSize == Target(|groups|, firstPageSize, maxPageSize)
    && GroupsFit(groups, firstPageSize, maxPageSize)
  }

  /** Taking the next input page keeps the state and the bytes left. */
  lemma GroupingPop(oldPages: seq<seq<OpusPacket>>, groups: seq<seq<OpusPacket>>, s: seq<OpusPacket>,
                    next: nat, maxSize: int, firstPageSize: int, maxPageSize: int)
    requires next < |oldPages|
    requires Grouping(oldPages, groups, s, [], false, next, maxSize, firstPageSize, maxPageSize)
    ensures Grouping(oldPages, groups, s, oldPages[next], true, next + 1, maxSize, firstPageSize, maxPageSize)
    ensures |Flatten(oldPages[next..])| == |Flatten(oldPages[next + 1..])| + |oldPages[next]|
  {
    InOrderPop(groups, s, oldPages[next..], oldPages);
    assert oldPages[next..][1..] == oldPages[next + 1..];
    assert Flatten(oldPages[next..]) == oldPages[next] + Flatten(oldPages[next + 1..]);
  }

  /** Moving the first packet of the current input page onto the open page,
      when it fits, keeps the state. */
  lemma GroupingMove(oldPages: seq<seq<OpusPacket>>, groups: seq<seq<OpusPacket>>, s: seq<OpusPacket>,
                     cur: seq<OpusPacket>, next: nat, maxSize: int, firstPageSize: int, maxPageSize: int)
    requires Grouping(oldPages, groups, s, cur, true, next, maxSize, firstPageSize, maxPageSize)
    requires Fits(s, cur, maxSize)
    ensures var c := FirstPacketSegCount(cur);
      Grouping(oldPages, groups, s + cur[..c], cur[c..], |cur[c..]| > 0, next, maxSize, firstPageSize, maxPageSize)
  {
    var c := FirstPacketSegCount(cur);
    MoveFirstPacket(s, cur);
    PageSizeGrows(s, cur);
    InOrderMove(groups, s, cur, c, oldPages[next..], oldPages);
  }

  /** Closing the open page, when the next packet does not fit, keeps the
      state. */
  lemma GroupingClose(oldPages: seq<seq<OpusPacket>>, groups: seq<seq<OpusPacket>>, s: seq<OpusPacket>,
                      cur: seq<OpusPacket>, next: nat, maxSize: int, firstPageSize: int, maxPageSize: int)
    requires Grouping(oldPages, groups, s, cur, true, next, maxSize, firstPageSize, maxPageSize)
    requires s != []
    ensures Grouping(oldPages, groups + [s], [], cur, true, next, maxPageSize, firstPageSize, maxPageSize)
  {
    InOrderClose(groups, s, cur, oldPages[next..], oldPages);
    GroupsFitSnoc(groups, s, firstPageSize, maxPageSize);
  }

  /** The decisions of resize_pages: which fragments go on which new page.
      Packets move whole and in order onto the open page while they fit; a
      page that cannot take the next packet is closed. `leftover` says that
      the last group is the page still open when the input ran out, and
      `stuck` that a packet did not fit even on an empty page, where the
      source goes on to pad an empty page and fails. */
  method GroupPackets(oldPages: seq<seq<OpusPacket>>, maxPageSize: int, firstPageSize: int)
    returns (groups: seq<seq<OpusPacket>>, leftover: bool, stuck: bool)
    requires forall i :: 0 <= i < |oldPages| ==> Laced(oldPages[i])
    ensures !stuck ==> Flatten(groups) == Flatten(oldPages)
    ensures GroupsFit(groups, firstPageSize, maxPageSize)
    ensures !stuck ==> Greedy(groups, firstPageSize, maxPageSize)
    ensures leftover ==> |groups| > 0 && !stuck
    ensures !stuck && |oldPages| > 0 && oldPages[|oldPages| - 1] != [] ==> leftover
    ensures !stuck && Flatten(oldPages) != [] ==> leftover
  {
    groups, leftover, stuck := [], false, false;
    var s: seq<OpusPacket> := [];
    var next := 0;
    var cur: seq<OpusPacket> := [];
    var havePage := false;
    var maxSize := firstPageSize;
    assert InOrder(groups, s, cur, oldPages[next..], oldPages) by {
      assert Flatten(groups) + s + cur == [] && oldPages[next..] == oldPages;
    }
    while next < |oldPages| || havePage
      invariant Grouping(oldPages, groups, s, cur, havePage, next, maxSize, firstPageSize, maxPageSize)
      invariant GreedySoFar(groups, s, cur, havePage, firstPageSize, maxPageSize)
      decreases |Flatten(oldPages[next..])| + |cur|, 2 * (|oldPages| - next) + (if havePage then 1 else 0), |s|
    {
      if !havePage {
        GroupingPop(oldPages, groups, s, next, maxSize, firstPageSize, maxPageSize);
        cur, next, havePage := oldPages[next], next + 1, true;
      } else if Fits(s, cur, maxSize) {
        var segCount := FirstPacketSegCount(cur);
        GroupingMove(oldPages, groups, s, cur, next, maxSize, firstPageSize, maxPageSize);
        if cur != [] {
          GreedyMove(groups, s, cur, firstPageSize, maxPageSize);
        } else {
          assert s + cur[..segCount] == s;
        }
        s, cur := s + cur[..segCount], cur[segCount..];
        havePage := |cur| > 0;
      } else if s == [] {
        return groups, false, true;
      } else {
        GroupingClose(oldPages, groups, s, cur, next, maxSize, firstPageSize, maxPageSize);
        GreedyClose(groups, s, cur, firstPageSize, maxPageSize);
        groups, s, maxSize := groups + [s], [], maxPageSize;
      }
    }
    GroupsEnd(oldPages, groups, s, next, maxSize, firstPageSize, maxPageSize);
    GreedyEnd(groups, s, firstPageSize, maxPageSize);
    if s != [] {
      GroupsFitSnoc(groups, s, firstPageSize, maxPageSize);
      groups := groups + [s];
      leftover := true;
    }
  }

  /** When the input has run out, the closed pages and the open page hold
      all of it. */
  lemma GroupsEnd(oldPages: seq<seq<OpusPacket>>, groups: seq<seq<OpusPacket>>, s: seq<OpusPacket>,
                  next: nat, maxSize: int, firstPageSize: int, maxPageSize: int)
    requires next == |oldPages|
    requires Grouping(oldPages, groups, s, [], false, next, maxSize, firstPageSize, maxPageSize)
    ensures Flatten(groups + [s]) == Flatten(oldPages) && (s == [] ==> Flatten(groups) == Flatten(oldPages))
    ensures PageSize(s) <= Target(|groups|, firstPageSize, maxPageSize) || s == []
  {
    assert oldPages[next..] == [];
    assert Flatten(groups) + s + [] + [] == Flatten(groups) + s;
    FlattenSnoc(groups, s);
    if s == [] {
      assert Flatten(groups) + s == Flatten(groups);
    }
  }

  /** Moving the first packet adds its bytes and its lacing values. */
  lemma PageSizeGrows(s: seq<OpusPacket>, cur: seq<OpusPacket>)
    ensures PageSize(s + cur[..FirstPacketSegCount(cur)])
      == PageSize(s) + FirstPacketSize(cur) + FirstPacketSegCount(cur)
  {
    TotalBytesAppend(s, cur[..FirstPacketSegCount(cur)]);
  }

  /** One new page of resize_pages: a copy of `template` numbered `no`,
      holding `segs`, given page type 4 when `flag`, then closed. */
  method BuildPage(template: Page, no: nat, segs: seq<OpusPacket>, flag: bool, target: int,
                   lastGranule: nat, table: seq<bv32>, fuel: nat)
    returns (page: Page, r: Result<()>)
    requires IsTable(table) && Laced(segs)
    ensures fresh(page)
    ensures segs == [] ==> r.Err?
    ensures r.Ok? ==> Finished(page, template.version, template.serialNo, no, if flag then 4 else template.pageType,
                               target, lastGranule, segs)
  {
    page := new Page.FromPage(template);
    page.pageNo := no;
    page.segments := segs;
    if flag {
      page.pageType := 4;
    }
    r := FinishPage(page, target, lastGranule, table, fuel);
  }

  /** One step of the closing loop: the page for group `i` is built and
      appended after the pages of the groups before it. */
  method CloseNext(pages: seq<Page>, groups: seq<seq<OpusPacket>>, i: nat, flagAt: int, template: Page, startNo: nat,
                   firstPageSize: int, maxPageSize: int, lastGranule: nat, table: seq<bv32>, fuel: nat)
    returns (r: Result<seq<Page>>)
    requires IsTable(table)
    requires i < |groups| && Laced(groups[i])
    requires AllFinished(pages, groups[..i], startNo, flagAt, template.pageType, template.version, template.serialNo,
                  firstPageSize, maxPageSize, lastGranule)
    ensures r.Ok? ==>
      AllFinished(r.value, groups[..i + 1], startNo, flagAt, template.pageType, template.version, template.serialNo,
                  firstPageSize, maxPageSize, lastGranule)
  {
    var granule := if i == 0 then lastGranule else pages[i - 1].granulePosition;
    var page, done := BuildPage(template, startNo + i, groups[i], i == flagAt,
                                Target(i, firstPageSize, maxPageSize), granule, table, fuel);
    if done.Err? {
      return Err(done.error);
    }
    assert AllFinished(pages, groups[..i], startNo, flagAt, template.pageType, template.version, template.serialNo,
                  firstPageSize, maxPageSize, lastGranule);
    AllFinishedSnoc(pages, groups[..i], startNo, flagAt, template.pageType, template.version, template.serialNo,
                    firstPageSize, maxPageSize,
                    lastGranule, i, page, if i == flagAt then 4 else template.pageType, granule, groups[i]);
    TakeSnoc(groups, i);
    return Ok(pages + [page]);
  }

  /** The pages of resize_pages, one per group, closed in order: a copy of
      `template` numbered from `startNo`, holding the group, page `flagAt`
      given page type 4, padded and corrected. */
  method ClosePages(groups: seq<seq<OpusPacket>>, flagAt: int, template: Page, startNo: nat,
                    firstPageSize: int, maxPageSize: int, lastGranule: nat, table: seq<bv32>, fuel: nat)
    returns (r: Result<seq<Page>>)
    requires IsTable(table)
    requires forall k :: 0 <= k < |groups| ==> Laced(groups[k])
    ensures r.Ok? ==>
      AllFinished(r.value, groups, startNo, flagAt, template.pageType, template.version, template.serialNo,
                  firstPageSize, maxPageSize, lastGranule)
  {
    var pages: seq<Page> := [];
    for i := 0 to |groups|
      invariant AllFinished(pages, groups[..i], startNo, flagAt, template.pageType, template.version, template.serialNo,
                  firstPageSize, maxPageSize, lastGranule)
    {
      var next := CloseNext(pages, groups, i, flagAt, template, startNo, firstPageSize, maxPageSize,
                            lastGranule, table, fuel);
      if next.Err? {
        return next;
      }
      pages := next.value;
    }
    TakeAll(groups);
    return Ok(pages);
  }

  /** resize_pages over the fragment lists of the input pages (each as the
      parser leaves it: whole packets, laced). `template` gives the fields of
      every new page, numbered from `startNo`; the first is padded to
      `firstPageSize` bytes and the others to `maxPageSize`; `fuel` stands
      for the recursion limit of pad. `contents` holds the fragments each
      new page received before padding, and `flagged` says whether the last
      page was given page type 4. */
  method ResizePages(oldPages: seq<seq<OpusPacket>>, maxPageSize: int, firstPageSize: int, template: Page,
                     lastGranule: nat, startNo: nat, setLastPageFlag: bool, table: seq<bv32>, fuel: nat)
    returns (r: Result<seq<Page>>, contents: seq<seq<OpusPacket>>, flagged: bool)
    requires IsTable(table)
    requires forall i :: 0 <= i < |oldPages| ==> Laced(oldPages[i])
    ensures r.Ok? ==> Flatten(contents) == Flatten(oldPages)
    ensures r.Ok? ==> GroupsFit(contents, firstPageSize, maxPageSize)
    ensures r.Ok? ==> Greedy(contents, firstPageSize, maxPageSize)
    ensures r.Ok? ==> AllFinished(r.value, contents, startNo, if flagged then |contents| - 1 else -1,
                                  template.pageType, template.version, template.serialNo,
                                  firstPageSize, maxPageSize, lastGranule)
    ensures flagged ==> setLastPageFlag
    ensures r.Ok? && setLastPageFlag && |oldPages| > 0 && oldPages[|oldPages| - 1] != [] ==> flagged
    ensures r.Ok? && setLastPageFlag && Flatten(oldPages) != [] ==> flagged
  {
    var groups, leftover, stuck := GroupPackets(oldPages, maxPageSize, firstPageSize);
    var flagLast := setLastPageFlag && leftover;
    contents, flagged := groups, flagLast;
    r := ClosePages(groups, if flagLast then |groups| - 1 else -1, template, startNo, firstPageSize, maxPageSize,
                    lastGranule, table, fuel);
    if r.Ok? && stuck {
      r := Err(EmptyPage);
    }
  }
}
