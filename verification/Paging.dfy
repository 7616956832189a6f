/**
 Range retrieval: a block range is cut into pages, each page is asked of one or two contract addresses,
 and a failing query is bisected. The node answers for some ranges and fails for others.
 */
module Paging {
  import opened Wrappers
  import opened Bits
  import opened MerkleModel
  import opened Replay

  const RETRY_MIN_PAGE_SIZE: nat := 100
  const MAX_RETRIES: nat := 20

  // --- Pages.

  function Pages(from: nat, to: nat, maxPage: nat): seq<(nat, nat)>
    requires maxPage > 0
    decreases 1 - from + to
  {
    if from > to then [] else [(from, Min(from + maxPage - 1, to))] + Pages(from + maxPage, to, maxPage)
  }

  /** Contiguous non-empty ranges from one block to another. */
  ghost predicate Partition(pages: seq<(nat, nat)>, from: nat, to: nat) {
    && |pages| > 0 && pages[0].0 == from && pages[|pages| - 1].1 == to
    && (forall i :: 0 <= i < |pages| ==> pages[i].0 <= pages[i].1)
    && (forall i :: 0 < i < |pages| ==> pages[i].0 == pages[i - 1].1 + 1)
  }

  lemma {:induction false} PagesPartition(from: nat, to: nat, maxPage: nat)
    requires maxPage > 0 && from <= to
    ensures Partition(Pages(from, to, maxPage), from, to)
    ensures forall p :: p in Pages(from, to, maxPage) ==> p.1 - p.0 < maxPage
    decreases 1 - from + to
  {
    hide Pages;
    PagesUnfold(from, to, maxPage);
    var first, rest := (from, Min(from + maxPage - 1, to)), Pages(from + maxPage, to, maxPage);
    if from + maxPage <= to {
      PagesPartition(from + maxPage, to, maxPage);
      PrependPage(first, rest, to);
    } else {
      PagesUnfold(from + maxPage, to, maxPage);
      assert [first] + rest == [first];
    }
  }

  lemma PagesUnfold(from: nat, to: nat, maxPage: nat)
    requires maxPage > 0
    ensures Pages(from, to, maxPage) ==
            if from > to then [] else [(from, Min(from + maxPage - 1, to))] + Pages(from + maxPage, to, maxPage)
  {
  }

  lemma PrependPage(first: (nat, nat), rest: seq<(nat, nat)>, to: nat)
    requires first.0 <= first.1 && Partition(rest, first.1 + 1, to)
    ensures Partition([first] + rest, first.0, to)
  {
    var pages := [first] + rest;
    assert pages[|pages| - 1] == rest[|rest| - 1];
    forall i | 0 < i < |pages| ensures pages[i].0 == pages[i - 1].1 + 1 && pages[i].0 <= pages[i].1 {
      assert pages[i] == rest[i - 1];
      if i > 1 { assert pages[i - 1] == rest[i - 2]; }
    }
  }

  /** No limit, or a limit of zero, means one page. */
  function PagesWithin(from: nat, to: nat, maxPage: Option<nat>): seq<(nat, nat)> {
    if maxPage.None? || maxPage.value == 0 then [(from, to)] else Pages(from, to, maxPage.value)
  }

  /** No page has more blocks than the limit, and only the last may have fewer. */
  predicate FullPages(pages: seq<(nat, nat)>, maxPage: nat) {
    forall i :: 0 <= i < |pages| ==>
      if i < |pages| - 1 then pages[i].1 + 1 == pages[i].0 + maxPage else pages[i].1 + 1 <= pages[i].0 + maxPage
  }

  lemma {:induction false} PagesAreFull(from: nat, to: nat, maxPage: nat)
    requires maxPage > 0
    ensures FullPages(Pages(from, to, maxPage), maxPage)
    decreases 1 - from + to
  {
    hide Pages;
    PagesUnfold(from, to, maxPage);
    if from <= to {
      var next := from + maxPage;
      PagesAreFull(next, to, maxPage);
      PagesUnfold(next, to, maxPage);
      var pages, rest := Pages(from, to, maxPage), Pages(next, to, maxPage);
      forall i | 0 < i < |pages| ensures pages[i] == rest[i - 1] {}
    }
  }

  method BuildPages(from: nat, to: nat, maxPage: Option<nat>) returns (pages: seq<(nat, nat)>)
    ensures pages == PagesWithin(from, to, maxPage)
    ensures from <= to ==> Partition(pages, from, to)
    ensures maxPage.Some? && maxPage.value > 0 ==> FullPages(pages, maxPage.value)
    ensures maxPage.None? || maxPage.value == 0 ==> pages == [(from, to)]
    ensures maxPage.Some? && maxPage.value > 0 && from > to ==> pages == []
  {
    hide FullPages, Partition;
    if maxPage.None? || maxPage.value == 0 {
      OnePage(from, to);
      return [(from, to)];
    }
    pages := [];
    var cur := from;
    PagesAreFull(from, to, maxPage.value);
    while cur <= to
      invariant pages + Pages(cur, to, maxPage.value) == Pages(from, to, maxPage.value)
      decreases 1 - cur + to
    {
      var end := if cur + maxPage.value - 1 <= to then cur + maxPage.value - 1 else to;
      pages := pages + [(cur, end)];
      cur := cur + maxPage.value;
    }
    if from <= to { PagesPartition(from, to, maxPage.value); }
  }

  lemma OnePage(from: nat, to: nat)
    ensures from <= to ==> Partition([(from, to)], from, to)
  {
  }

  const WRAP: nat := 0x1_0000_0000_0000_0000

  /** A sum of two 64-bit numbers, less than twice the bound, as 64 bits hold it. */
  function Wrapped(x: nat): nat {
    if x >= WRAP then x - WRAP else x
  }

  /** The same loop on 64-bit block numbers, for so many rounds. */
  function Pages64(cur: nat, to: nat, maxPage: nat, rounds: nat): Option<seq<(nat, nat)>>
    requires maxPage > 0
    decreases rounds
  {
    if cur > to then Some([])
    else if rounds == 0 then None
    else
      var rest := Pages64(Wrapped(cur + maxPage), to, maxPage, rounds - 1);
      if rest.None? then None else Some([(cur, Min(Wrapped(cur + maxPage - 1), to))] + rest.value)
  }

  /** Where the next page would start after the last one. */
  function NextStart(cur: nat, to: nat, maxPage: nat): nat
    requires maxPage > 0
    decreases 1 - cur + to
  {
    if cur > to then cur else NextStart(cur + maxPage, to, maxPage)
  }

  /** On 64-bit numbers the loop ends with the right pages exactly when the number after the last page still fits. */
  lemma {:induction false} Pages64Iff(from: nat, to: nat, maxPage: nat, rounds: nat)
    requires from < WRAP && to < WRAP && 0 < maxPage < WRAP
    ensures Pages64(from, to, maxPage, rounds) == Some(Pages(from, to, maxPage)) <==>
            NextStart(from, to, maxPage) < WRAP && |Pages(from, to, maxPage)| <= rounds
    decreases 1 - from + to
  {
    hide Pages, Pages64, NextStart;
    PagesUnfold(from, to, maxPage);
    Pages64Unfold(from, to, maxPage, rounds);
    if from <= to && rounds > 0 {
      var next := from + maxPage;
      PagesUnfold(next, to, maxPage);
      NextUnfold(next, to, maxPage);
      if next < WRAP {
        Pages64Iff(next, to, maxPage, rounds - 1);
        var page, rest64 := (from, Min(next - 1, to)), Pages64(next, to, maxPage, rounds - 1);
        if rest64.Some? { SameTail(page, rest64.value, Pages(next, to, maxPage)); }
      } else {
        Pages64Unfold(next - WRAP, to, maxPage, rounds - 1);
      }
    }
    NextUnfold(from, to, maxPage);
  }

  lemma SameTail<T>(x: T, a: seq<T>, b: seq<T>)
    ensures [x] + a == [x] + b <==> a == b
  {
    assert ([x] + a)[1..] == a && ([x] + b)[1..] == b;
  }

  lemma NextUnfold(cur: nat, to: nat, maxPage: nat)
    requires maxPage > 0
    ensures NextStart(cur, to, maxPage) == if cur > to then cur else NextStart(cur + maxPage, to, maxPage)
  {
  }

  lemma Pages64Unfold(cur: nat, to: nat, maxPage: nat, rounds: nat)
    requires maxPage > 0
    ensures cur > to ==> Pages64(cur, to, maxPage, rounds) == Some([])
    ensures cur <= to && rounds == 0 ==> Pages64(cur, to, maxPage, rounds) == None
    ensures cur <= to && rounds > 0 ==>
              var rest := Pages64(Wrapped(cur + maxPage), to, maxPage, rounds - 1);
              Pages64(cur, to, maxPage, rounds) ==
                if rest.None? then None else Some([(cur, Min(Wrapped(cur + maxPage - 1), to))] + rest.value)
  {
  }

  // --- One address over one page.

  /** The node's answer for an address (the main contract, or the hook) and a block range. */
  type LogSource = (bool, nat, nat) -> Option<seq<LogEvent>>

  /** The events of one of the two addresses, in order. */
  function Only(events: seq<LogEvent>, fromHook: LogEvent -> bool, hook: bool): seq<LogEvent> {
    if events == [] then []
    else
      var rest, last := Only(events[..|events| - 1], fromHook, hook), events[|events| - 1];
      if fromHook(last) == hook then rest + [last] else rest
  }

  /** The events that decode, in order. */
  function Decode(events: seq<LogEvent>): seq<LogEvent> {
    if events == [] then []
    else
      var rest, last := Decode(events[..|events| - 1]), events[|events| - 1];
      if last.UndecodableLog? then rest else rest + [last]
  }

  /** Whatever the node answers is the truth about that range. */
  ghost predicate Honest(source: LogSource, chain: seq<LogEvent>, fromHook: LogEvent -> bool) {
    forall hook, from, to :: source(hook, from, to).Some? ==>
      source(hook, from, to).value == Only(Page(chain, from, to), fromHook, hook)
  }

  /** Asks for a range and, when that fails, for its two halves. */
  function FetchRange(source: LogSource, hook: bool, from: nat, to: nat, retry: nat): Option<seq<LogEvent>>
    requires from <= to
    decreases 1 - from + to
  {
    var answer := source(hook, from, to);
    if answer.Some? then Some(Decode(answer.value))
    else if retry < MAX_RETRIES && to - from > RETRY_MIN_PAGE_SIZE then
      var mid := (from + to) / 2;
      var a := FetchRange(source, hook, from, mid, retry + 1);
      if a.None? then None
      else
        var b := FetchRange(source, hook, mid + 1, to, retry + 1);
        if b.None? then None else Some(a.value + b.value)
    else None
  }

  lemma {:induction false} OnlyConcat(a: seq<LogEvent>, b: seq<LogEvent>, fromHook: LogEvent -> bool, hook: bool)
    ensures Only(a + b, fromHook, hook) == Only(a, fromHook, hook) + Only(b, fromHook, hook)
    decreases |b|
  {
    if b == [] {
      assert a + b == a;
    } else {
      OnlyConcat(a, b[..|b| - 1], fromHook, hook);
      assert (a + b)[..|a + b| - 1] == a + b[..|b| - 1];
    }
  }

  lemma {:induction false} DecodeConcat(a: seq<LogEvent>, b: seq<LogEvent>)
    ensures Decode(a + b) == Decode(a) + Decode(b)
    decreases |b|
  {
    if b == [] {
      assert a + b == a;
    } else {
      DecodeConcat(a, b[..|b| - 1]);
      assert (a + b)[..|a + b| - 1] == a + b[..|b| - 1];
    }
  }

  /** On success the bisection returns every decodable event of the range once and in order, whichever queries failed. */
  lemma {:induction false} FetchRangeIsExact(source: LogSource, chain: seq<LogEvent>, fromHook: LogEvent -> bool, hook: bool, from: nat, to: nat, retry: nat)
    requires Honest(source, chain, fromHook) && InBlockOrder(chain) && from <= to
    ensures var r := FetchRange(source, hook, from, to, retry);
            r.Some? ==> r.value == Decode(Only(Page(chain, from, to), fromHook, hook))
    decreases 1 - from + to
  {
    hide Page, Only, Decode;
    if source(hook, from, to).None? && retry < MAX_RETRIES && to - from > RETRY_MIN_PAGE_SIZE {
      var mid := (from + to) / 2;
      FetchRangeIsExact(source, chain, fromHook, hook, from, mid, retry + 1);
      FetchRangeIsExact(source, chain, fromHook, hook, mid + 1, to, retry + 1);
      PageSplit(chain, from, mid, to);
      OnlyConcat(Page(chain, from, mid), Page(chain, mid + 1, to), fromHook, hook);
      DecodeConcat(Only(Page(chain, from, mid), fromHook, hook), Only(Page(chain, mid + 1, to), fromHook, hook));
    }
  }

  /** If every range of at most 101 blocks is answered, twenty bisections reach one within 101 * 2^20 blocks. */
  lemma {:induction false} FetchRangeSucceeds(source: LogSource, hook: bool, from: nat, to: nat, retry: nat)
    requires forall f: nat, t: nat :: t - f <= RETRY_MIN_PAGE_SIZE ==> source(hook, f, t).Some?
    requires from <= to && retry <= MAX_RETRIES && to - from < (RETRY_MIN_PAGE_SIZE + 1) * Pow2(MAX_RETRIES - retry)
    ensures FetchRange(source, hook, from, to, retry).Some?
    decreases 1 - from + to
  {
    if source(hook, from, to).None? {
      var mid := (from + to) / 2;
      assert retry < MAX_RETRIES;
      FetchRangeSucceeds(source, hook, from, mid, retry + 1);
      FetchRangeSucceeds(source, hook, mid + 1, to, retry + 1);
    }
  }

  // --- All pages, all addresses.

  function FetchPage(source: LogSource, page: (nat, nat), withHook: bool): Option<seq<LogEvent>>
    requires page.0 <= page.1
  {
    var a := FetchRange(source, false, page.0, page.1, 0);
    if a.None? then None
    else if !withHook then a
    else
      var b := FetchRange(source, true, page.0, page.1, 0);
      if b.None? then None else Some(a.value + b.value)
  }

  function FetchPages(source: LogSource, pages: seq<(nat, nat)>, withHook: bool): Option<seq<LogEvent>>
    requires forall i :: 0 <= i < |pages| ==> pages[i].0 <= pages[i].1
  {
    if pages == [] then Some([])
    else
      var rest := FetchPages(source, pages[..|pages| - 1], withHook);
      if rest.None? then None
      else
        var last := FetchPage(source, pages[|pages| - 1], withHook);
        if last.None? then None else Some(rest.value + last.value)
  }

  /** The retrieval as the emitter runs it: pages in order, both addresses for each. */
  method GetEventsInRange(source: LogSource, from: nat, to: nat, maxPage: Option<nat>, withHook: bool)
    returns (events: Option<seq<LogEvent>>)
    requires from <= to
    ensures Partition(PagesWithin(from, to, maxPage), from, to)
    ensures events == FetchPages(source, PagesWithin(from, to, maxPage), withHook)
  {
    hide FetchPage, FetchRange, Decode, PagesWithin;
    var built := BuildPages(from, to, maxPage);
    var all: seq<LogEvent> := [];
    for i := 0 to |built|
      invariant FetchPages(source, built[..i], withHook) == Some(all)
    {
      assert built[..i + 1][..i] == built[..i];
      var evs := FetchPage(source, built[i], withHook);
      if evs.None? {
        FetchPagesFails(source, built, i, withHook);
        return None;
      }
      all := all + evs.value;
    }
    assert built[..|built|] == built;
    events := Some(all);
  }

  /** One failing page fails the whole range. */
  lemma {:induction false} FetchPagesFails(source: LogSource, pages: seq<(nat, nat)>, i: nat, withHook: bool)
    requires forall k :: 0 <= k < |pages| ==> pages[k].0 <= pages[k].1
    requires i < |pages| && FetchPage(source, pages[i], withHook).None?
    ensures FetchPages(source, pages, withHook).None?
    decreases |pages|
  {
    if i < |pages| - 1 { FetchPagesFails(source, pages[..|pages| - 1], i, withHook); }
  }

  // --- What a successful retrieval hands over.

  /** Per address, the result is the range's decodable events, each once and in order. */
  ghost predicate Exact(events: seq<LogEvent>, chain: seq<LogEvent>, fromHook: LogEvent -> bool, from: nat, to: nat) {
    forall hook :: Only(events, fromHook, hook) == Decode(Only(Page(chain, from, to), fromHook, hook))
  }

  /** Commitments and nullifiers come from the main contract; without a hook address everything does. */
  ghost predicate Emitters(chain: seq<LogEvent>, fromHook: LogEvent -> bool, withHook: bool) {
    forall e :: e in chain && fromHook(e) ==> withHook && !e.CommitmentLog? && !e.NullifierLog?
  }

  lemma {:induction false} OnlyMember(events: seq<LogEvent>, fromHook: LogEvent -> bool, hook: bool)
    ensures forall e :: e in Only(events, fromHook, hook) <==> e in events && fromHook(e) == hook
    decreases |events|
  {
    if events != [] {
      OnlyMember(events[..|events| - 1], fromHook, hook);
      assert events == events[..|events| - 1] + [events[|events| - 1]];
    }
  }

  lemma {:induction false} DecodeMember(events: seq<LogEvent>)
    ensures forall e :: e in Decode(events) <==> e in events && !e.UndecodableLog?
    decreases |events|
  {
    if events != [] {
      DecodeMember(events[..|events| - 1]);
      assert events == events[..|events| - 1] + [events[|events| - 1]];
    }
  }

  /** Events of one address only: asking for that address keeps them all, asking for the other keeps none. */
  lemma {:induction false} OnlyOfSame(events: seq<LogEvent>, fromHook: LogEvent -> bool, hook: bool)
    requires forall e :: e in events ==> fromHook(e) == hook
    ensures Only(events, fromHook, hook) == events && Only(events, fromHook, !hook) == []
    decreases |events|
  {
    if events != [] { OnlyOfSame(events[..|events| - 1], fromHook, hook); }
  }

  lemma DecodeNothing()
    ensures Decode([]) == []
  {
  }

  lemma FetchPageIsExact(source: LogSource, chain: seq<LogEvent>, fromHook: LogEvent -> bool, page: (nat, nat), withHook: bool)
    requires Honest(source, chain, fromHook) && InBlockOrder(chain) && Emitters(chain, fromHook, withHook) && page.0 <= page.1
    ensures var r := FetchPage(source, page, withHook);
            r.Some? ==> Exact(r.value, chain, fromHook, page.0, page.1)
  {
    hide Page, Only, Decode, FetchRange, Honest;
    var p := Page(chain, page.0, page.1);
    var a, b := Decode(Only(p, fromHook, false)), Decode(Only(p, fromHook, true));
    FetchRangeIsExact(source, chain, fromHook, false, page.0, page.1, 0);
    FetchRangeIsExact(source, chain, fromHook, true, page.0, page.1, 0);
    PageMember(chain, page.0, page.1);
    OnlyMember(p, fromHook, false);
    OnlyMember(p, fromHook, true);
    DecodeMember(Only(p, fromHook, false));
    DecodeMember(Only(p, fromHook, true));
    OnlyOfSame(a, fromHook, false);
    OnlyOfSame(b, fromHook, true);
    OnlyConcat(a, b, fromHook, false);
    OnlyConcat(a, b, fromHook, true);
    if !withHook {
      OnlyOfSame(p, fromHook, false);
      assert b == [] by { DecodeNothing(); }
    }
    assert a + [] == a && [] + b == b;
  }

  lemma {:induction false} FetchPagesIsExact(source: LogSource, chain: seq<LogEvent>, fromHook: LogEvent -> bool,
                                             pages: seq<(nat, nat)>, from: nat, to: nat, withHook: bool)
    requires Honest(source, chain, fromHook) && InBlockOrder(chain) && Emitters(chain, fromHook, withHook)
    requires Partition(pages, from, to)
    ensures from <= to
    ensures var r := FetchPages(source, pages, withHook);
            r.Some? ==> Exact(r.value, chain, fromHook, from, to)
    decreases |pages|
  {
    hide Page, Only, Decode, FetchPage, Honest;
    var last := pages[|pages| - 1];
    FetchPageIsExact(source, chain, fromHook, last, withHook);
    if |pages| == 1 {
      assert pages[..0] == [];
      var r := FetchPage(source, last, withHook);
      if r.Some? { assert [] + r.value == r.value; }
    } else {
      var rest, mid := pages[..|pages| - 1], pages[|pages| - 2].1;
      FetchPagesIsExact(source, chain, fromHook, rest, from, mid, withHook);
      var a, b := FetchPages(source, rest, withHook), FetchPage(source, last, withHook);
      PageSplit(chain, from, mid, to);
      if a.Some? && b.Some? {
        forall hook ensures Only(a.value + b.value, fromHook, hook) == Decode(Only(Page(chain, from, to), fromHook, hook)) {
          OnlyConcat(a.value, b.value, fromHook, hook);
          OnlyConcat(Page(chain, from, mid), Page(chain, mid + 1, to), fromHook, hook);
          DecodeConcat(Only(Page(chain, from, mid), fromHook, hook), Only(Page(chain, mid + 1, to), fromHook, hook));
        }
      }
    }
  }

  lemma {:induction false} TagOfContract(events: seq<LogEvent>, fromHook: LogEvent -> bool, blocked: set<int>)
    requires forall e :: e in events && fromHook(e) ==> !e.CommitmentLog?
    ensures Tag(Only(events, fromHook, false), blocked) == Tag(events, blocked)
    decreases |events|
  {
    if events != [] {
      var rest, last := events[..|events| - 1], events[|events| - 1];
      TagOfContract(rest, fromHook, blocked);
      TagConcat(Only(rest, fromHook, false), [last], blocked);
      assert Tag([last], blocked) == TagOne(last, blocked) by { assert [last][..0] == []; }
      assert last in events;
    }
  }

  lemma {:induction false} TagOfDecoded(events: seq<LogEvent>, blocked: set<int>)
    ensures Tag(Decode(events), blocked) == Tag(events, blocked)
    decreases |events|
  {
    if events != [] {
      var rest, last := events[..|events| - 1], events[|events| - 1];
      TagOfDecoded(rest, blocked);
      TagConcat(Decode(rest), [last], blocked);
      assert Tag([last], blocked) == TagOne(last, blocked) by { assert [last][..0] == []; }
    }
  }

  lemma ExactMembers(events: seq<LogEvent>, chain: seq<LogEvent>, fromHook: LogEvent -> bool, from: nat, to: nat)
    requires Exact(events, chain, fromHook, from, to)
    ensures forall e :: e in events <==> e in Page(chain, from, to) && !e.UndecodableLog?
  {
    hide Page, Only, Decode;
    var p := Page(chain, from, to);
    forall e ensures e in events <==> e in p && !e.UndecodableLog? {
      var hook := fromHook(e);
      OnlyMember(events, fromHook, hook);
      OnlyMember(p, fromHook, hook);
      DecodeMember(Only(p, fromHook, hook));
    }
  }

  /**
   A successful retrieval of a range, page by page and address by address, is a faithful delivery of
   that range, although the two addresses' events are not merged in block order.
   */
  lemma RetrievalIsFaithful(source: LogSource, chain: seq<LogEvent>, fromHook: LogEvent -> bool,
                            pages: seq<(nat, nat)>, from: nat, to: nat, withHook: bool)
    requires Honest(source, chain, fromHook) && InBlockOrder(chain) && Emitters(chain, fromHook, withHook)
    requires Partition(pages, from, to)
    ensures var r := FetchPages(source, pages, withHook);
            r.Some? ==> Faithful(r.value, chain, from, to)
  {
    hide Page, Only, Decode, FetchPages, Honest, Tag;
    FetchPagesIsExact(source, chain, fromHook, pages, from, to, withHook);
    var r := FetchPages(source, pages, withHook);
    if r.Some? {
      var p := Page(chain, from, to);
      ExactMembers(r.value, chain, fromHook, from, to);
      PageMember(chain, from, to);
      assert BlockedTxs(r.value) == BlockedTxs(p);
      assert NullifiersOf(r.value) == NullifiersOf(p);
      var blocked := BlockedTxs(p);
      TagOfContract(r.value, fromHook, blocked);
      TagOfContract(p, fromHook, blocked);
      TagOfDecoded(Only(p, fromHook, false), blocked);
    }
  }
}
