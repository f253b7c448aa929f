/** The paged arena a series accumulates its samples in, and the buffer built on it. */
module SampleBuffers {
  import opened Readings
  import opened Doubles
  import opened Grids
  import opened Dedup
  import opened Windows

  const SAMPLE_BYTES: nat := 16
  const INITIAL_PAGE_CAPACITY: nat := 4

  /** One page: its storage never moves; only the fill count changes. */
  datatype Page = Page(data: array<Sample>, used: nat)

  ghost predicate InBounds(pages: seq<Page>) {
    forall i :: 0 <= i < |pages| ==> pages[i].used <= pages[i].data.Length
  }

  function TotalCapacity(pages: seq<Page>): nat {
    if pages == [] then 0 else TotalCapacity(pages[..|pages| - 1]) + pages[|pages| - 1].data.Length
  }

  function TotalUsed(pages: seq<Page>): nat {
    if pages == [] then 0 else TotalUsed(pages[..|pages| - 1]) + pages[|pages| - 1].used
  }

  ghost function PageArrays(pages: seq<Page>): set<object> {
    set p | p in pages :: p.data
  }

  /** The samples of all pages, in page order. */
  ghost function Flatten(pages: seq<Page>): seq<Sample>
    requires InBounds(pages)
    reads PageArrays(pages)
  {
    if pages == [] then []
    else
      var init, last := pages[..|pages| - 1], pages[|pages| - 1];
      Flatten(init) + last.data[..last.used]
  }

  /** Only the last page may have room, and the pages grow by doubling: a page is at most twice
      what all pages before it hold, unless it is the only one. */
  ghost predicate GrownByDoubling(pages: seq<Page>) {
    var n := |pages| - 1;
    && (forall i :: 0 <= i < n ==> pages[i].used == pages[i].data.Length)
    && (n >= 0 ==> pages[n].used > 0)
    && (n == 0 ==> pages[0].data.Length <= INITIAL_PAGE_CAPACITY || pages[0].used == pages[0].data.Length)
    && (n > 0 ==> pages[n].data.Length <= 2 * TotalCapacity(pages[..n]))
  }

  /** The same pages before the first sample is written on a newly added one. */
  ghost predicate ReadyToFill(pages: seq<Page>) {
    var n := |pages| - 1;
    && n >= 0 && pages[n].used < pages[n].data.Length
    && (forall i :: 0 <= i < n ==> pages[i].used == pages[i].data.Length)
    && (n == 0 ==> pages[0].data.Length <= INITIAL_PAGE_CAPACITY)
    && (n > 0 ==> pages[n].data.Length <= 2 * TotalCapacity(pages[..n]))
  }

  lemma NewPageGrows(was: seq<Page>, pages: seq<Page>)
    requires GrownByDoubling(was) && |pages| == |was| + 1 && pages[..|was|] == was
    requires pages[|was|].used == 0
    requires was != [] ==> was[|was| - 1].used == was[|was| - 1].data.Length
    requires pages[|was|].data.Length == if was == [] then INITIAL_PAGE_CAPACITY else 2 * was[|was| - 1].data.Length
    ensures ReadyToFill(pages)
    ensures TotalCapacity(pages) == TotalCapacity(was) + pages[|was|].data.Length
  {
    assert forall i :: 0 <= i < |was| ==> pages[i] == was[i];
  }

  lemma RoomIsReady(pages: seq<Page>)
    requires GrownByDoubling(pages) && pages != [] && pages[|pages| - 1].used < pages[|pages| - 1].data.Length
    ensures ReadyToFill(pages)
  {
  }

  lemma FilledSlotGrows(room: seq<Page>, pages: seq<Page>)
    requires ReadyToFill(room)
    requires pages == room[|room| - 1 := Page(room[|room| - 1].data, room[|room| - 1].used + 1)]
    ensures GrownByDoubling(pages) && TotalCapacity(pages) == TotalCapacity(room)
  {
    assert pages[..|pages| - 1] == room[..|room| - 1];
  }

  lemma {:induction false} FullPagesUseTheirCapacity(pages: seq<Page>)
    requires forall i :: 0 <= i < |pages| ==> pages[i].used == pages[i].data.Length
    ensures TotalUsed(pages) == TotalCapacity(pages)
  {
    if pages != [] {
      FullPagesUseTheirCapacity(pages[..|pages| - 1]);
    }
  }

  /** However many samples were appended, the pages reserve room for at most three times as
      many, plus one. */
  lemma CapacityIsLinear(pages: seq<Page>)
    requires GrownByDoubling(pages)
    ensures TotalCapacity(pages) <= 3 * TotalUsed(pages) + 1
  {
    if pages != [] {
      FullPagesUseTheirCapacity(pages[..|pages| - 1]);
    }
  }

  lemma {:induction false} FlattenLength(pages: seq<Page>)
    requires InBounds(pages)
    ensures |Flatten(pages)| == TotalUsed(pages)
  {
    if pages != [] {
      FlattenLength(pages[..|pages| - 1]);
    }
  }

  twostate lemma {:induction false} FlattenFrame(pages: seq<Page>)
    requires InBounds(pages)
    requires forall i :: 0 <= i < |pages| ==> pages[i].data[..] == old(pages[i].data[..])
    ensures Flatten(pages) == old(Flatten(pages))
  {
    if pages != [] {
      var n := |pages| - 1;
      FlattenFrame(pages[..n]);
      assert pages[n].data[..pages[n].used] == pages[n].data[..][..pages[n].used];
      assert old(pages[n].data[..pages[n].used]) == old(pages[n].data[..])[..pages[n].used];
    }
  }

  class SampleArena {
    var pages: seq<Page>
    var bytesAllocated: int

    ghost predicate Valid()
      reads this
    {
      && InBounds(pages)
      && (forall i, j :: 0 <= i < j < |pages| ==> pages[i].data != pages[j].data)
      && bytesAllocated == SAMPLE_BYTES * TotalCapacity(pages)
      && GrownByDoubling(pages)
    }

    /** What visiting every page in order yields. */
    ghost function Contents(): seq<Sample>
      requires Valid()
      reads this, PageArrays(pages)
    {
      Flatten(pages)
    }

    constructor ()
      ensures Valid() && Contents() == [] && pages == []
    {
      pages := [];
      bytesAllocated := 0;
    }

    function ByteCount(): int
      reads this
    {
      bytesAllocated
    }

    method AddPage(capacity: nat)
      requires InBounds(pages)
      modifies this
      ensures |pages| == |old(pages)| + 1 && pages[..|old(pages)|] == old(pages)
      ensures fresh(pages[|old(pages)|].data) && pages[|old(pages)|].data.Length == capacity
      ensures pages[|old(pages)|].used == 0
      ensures bytesAllocated == old(bytesAllocated) + 16 * capacity
      ensures InBounds(pages) && Flatten(pages) == old(Flatten(pages))
    {
      var data := new Sample[capacity];
      bytesAllocated := bytesAllocated + SAMPLE_BYTES * capacity;
      pages := pages + [Page(data, 0)];
      FlattenFrame(old(pages));
      assert pages[..|pages| - 1] == old(pages);
    }

    method FillSlot(s: Sample)
      requires InBounds(pages) && pages != [] && pages[|pages| - 1].used < pages[|pages| - 1].data.Length
      requires forall i :: 0 <= i < |pages| - 1 ==> pages[i].data != pages[|pages| - 1].data
      modifies this`pages, pages[|pages| - 1].data
      ensures var n := |old(pages)| - 1;
        && pages == old(pages)[n := Page(old(pages)[n].data, old(pages)[n].used + 1)]
        && pages[n].data[old(pages)[n].used] == s
        && (forall k :: 0 <= k < old(pages)[n].used ==> pages[n].data[k] == old(pages[n].data[k]))
      ensures InBounds(pages) && Flatten(pages) == old(Flatten(pages)) + [s]
    {
      var n := |pages| - 1;
      var last := pages[n];
      ghost var before := pages[..n];
      assert Flatten(pages) == Flatten(before) + last.data[..last.used];
      last.data[last.used] := s;
      pages := pages[n := Page(last.data, last.used + 1)];
      FlattenFrame(before);
      assert pages[..n] == before;
      assert last.data[..last.used + 1] == old(last.data[..last.used]) + [s];
      assert Flatten(pages) == Flatten(before) + last.data[..last.used + 1];
    }

    method Size() returns (n: nat)
      requires Valid()
      ensures n == |Contents()|
      ensures ByteCount() <= SAMPLE_BYTES * (3 * n + 1)
    {
      n := 0;
      for i := 0 to |pages|
        invariant n == TotalUsed(pages[..i])
      {
        assert pages[..i + 1][..i] == pages[..i];
        n := n + pages[i].used;
      }
      assert pages[..|pages|] == pages;
      FlattenLength(pages);
      CapacityIsLinear(pages);
    }

    /** Bump-allocates the next slot and writes the sample there, on a new page of twice the
        capacity when the last one is full. No earlier slot moves or changes. */
    method Append(t: int, v: Bits) returns (page: nat, slot: nat)
      requires Valid()
      modifies this, PageArrays(pages)
      ensures Valid() && Contents() == old(Contents()) + [Reading(t, v, ())]
      ensures old(|pages|) <= |pages| && page == |pages| - 1 && slot < pages[page].used
      ensures pages[page].data[slot] == Reading(t, v, ())
      ensures forall i :: 0 <= i < old(|pages|) ==>
                pages[i].data == old(pages[i].data) && old(pages[i].used) <= pages[i].used
      ensures forall i, k :: 0 <= i < old(|pages|) && 0 <= k < old(pages[i].used) ==>
                pages[i].data[k] == old(pages[i].data[k])
      ensures forall i :: old(|pages|) <= i < |pages| ==> fresh(pages[i].data)
      ensures var full := old(|pages|) == 0 || old(pages[|pages| - 1].used == pages[|pages| - 1].data.Length);
        && |pages| == old(|pages|) + (if full then 1 else 0)
        && (full ==> slot == 0 && pages[page].data.Length
                                  == if old(|pages|) == 0 then 4 else 2 * old(pages[|pages| - 1].data.Length))
        && (!full ==> slot == old(pages[|pages| - 1].used))
    {
      hide TotalCapacity, Flatten, GrownByDoubling;
      ghost var was := pages;
      if |pages| == 0 || pages[|pages| - 1].used == pages[|pages| - 1].data.Length {
        AddPage(if |pages| == 0 then INITIAL_PAGE_CAPACITY else pages[|pages| - 1].data.Length * 2);
        NewPageGrows(was, pages);
      } else {
        RoomIsReady(pages);
      }
      page := |pages| - 1;
      slot := pages[page].used;
      ghost var room := pages;
      FillSlot(Reading(t, v, ()));
      FilledSlotGrows(room, pages);
    }

    /** Gives every page back; a page that was forgotten would leave the byte counter nonzero. */
    method ReleaseAll()
      requires bytesAllocated == SAMPLE_BYTES * TotalCapacity(pages)
      modifies this
      ensures pages == [] && bytesAllocated == 0
    {
      for i := 0 to |pages|
        invariant pages == old(pages)
        invariant bytesAllocated == SAMPLE_BYTES * (TotalCapacity(pages) - TotalCapacity(pages[..i]))
      {
        assert pages[..i + 1][..i] == pages[..i];
        bytesAllocated := bytesAllocated - pages[i].data.Length * SAMPLE_BYTES;
      }
      assert pages[..|pages|] == pages;
      pages := [];
    }

    /** Replaces all pages by one that holds exactly `samples`. */
    method CompactTo(samples: seq<Sample>)
      requires Valid()
      modifies this
      ensures Valid() && Contents() == samples && |pages| <= 1
      ensures ByteCount() == SAMPLE_BYTES * |samples|
      ensures fresh(PageArrays(pages))
    {
      ReleaseAll();
      if |samples| == 0 {
        return;
      }
      AddPage(|samples|);
      var data := pages[0].data;
      forall i | 0 <= i < |samples| {
        data[i] := samples[i];
      }
      pages := [Page(data, |samples|)];
      assert data[..|samples|] == samples;
      assert Flatten(pages) == Flatten(pages[..0]) + data[..|samples|];
    }

    /** Visits every sample in page order and collects them. */
    method Collect() returns (all: seq<Sample>)
      requires Valid()
      ensures all == Contents() == old(Contents())
    {
      all := [];
      for i := 0 to |pages|
        invariant all == Flatten(pages[..i])
      {
        assert pages[..i + 1][..i] == pages[..i];
        var p := pages[i];
        for k := 0 to p.used
          invariant all == Flatten(pages[..i]) + p.data[..k]
        {
          all := all + [p.data[k]];
        }
      }
      assert pages[..|pages|] == pages;
    }
  }

  // ---- the buffer ----

  /** The deduplicating pass over samples that are already in time order. */
  method DedupSorted(all: seq<Sample>) returns (deduped: seq<Sample>)
    ensures deduped == Collapse(all)
  {
    hide DedupPolicy;
    deduped := [];
    for i := 0 to |all|
      invariant deduped == Collapse(all[..i])
    {
      assert all[..i + 1][..i] == all[..i];
      var s := all[i];
      assert Collapse(all[..i + 1]) == Absorb(deduped, s);
      if |deduped| > 0 && deduped[|deduped| - 1].t == s.t {
        assert deduped[|deduped| - 1].st == () == s.st;
        if DedupPolicy(s.v, deduped[|deduped| - 1].v) {
          deduped := deduped[|deduped| - 1 := deduped[|deduped| - 1].(v := s.v)];
        }
      } else {
        deduped := deduped + [s];
      }
    }
    assert all[..|all|] == all;
  }

  /** The samples between two ticks, both included, found by two binary searches. */
  function Slice(d: seq<Sample>, low: int, high: int): seq<Sample>
    requires SortedByT(d)
  {
    var from := UpperBound(d, low - 1);
    var to := UpperBound(d[from..], high);
    d[from..from + to]
  }

  lemma SliceIsFilter(d: seq<Sample>, low: int, high: int)
    requires SortedByT(d)
    ensures Slice(d, low, high) == Select(d, high, high - low + 1)
  {
    hide UpperBound;
    var from := UpperBound(d, low - 1);
    var rest := d[from..];
    var to := UpperBound(rest, high);
    assert forall k :: from <= k < |d| ==> d[k] == rest[k - from];
    if from + to < |d| {
      assert d[from + to] == rest[to];
    }
    SelectIsSlice(d, high, high - low + 1, from, from + to);
  }

  /** Over the whole range of 64-bit ticks the slice is everything. */
  lemma FullSliceIsEverything(d: seq<Sample>)
    requires SortedByT(d) && forall k :: 0 <= k < |d| ==> IsTick(d[k].t)
    ensures Slice(d, MIN_TICK, MAX_TICK) == d
  {
    hide UpperBound;
    SliceIsFilter(d, MIN_TICK, MAX_TICK);
    SelectIsSlice(d, MAX_TICK, MAX_TICK - MIN_TICK + 1, 0, |d|);
  }

  class SampleBuffer {
    const arena: SampleArena

    ghost predicate Valid()
      reads this, arena
    {
      arena.Valid()
    }

    ghost function Contents(): seq<Sample>
      requires Valid()
      reads this, arena, PageArrays(arena.pages)
    {
      arena.Contents()
    }

    constructor ()
      ensures Valid() && Contents() == [] && fresh(arena) && arena.pages == []
    {
      arena := new SampleArena();
    }

    /** Appends a sample and tells its slot; no slot that was filled moves or changes. */
    method Append(t: int, v: Bits) returns (page: nat, slot: nat)
      requires Valid()
      modifies arena, PageArrays(arena.pages)
      ensures Valid() && Contents() == old(Contents()) + [Reading(t, v, ())]
      ensures old(|arena.pages|) <= |arena.pages| && page == |arena.pages| - 1 && slot < arena.pages[page].used
      ensures arena.pages[page].data[slot] == Reading(t, v, ())
      ensures forall i :: 0 <= i < old(|arena.pages|) ==>
                && arena.pages[i].data == old(arena.pages[i].data)
                && old(arena.pages[i].used) <= arena.pages[i].used
      ensures forall i, k :: 0 <= i < old(|arena.pages|) && 0 <= k < old(arena.pages[i].used) ==>
                arena.pages[i].data[k] == old(arena.pages[i].data[k])
      ensures fresh(PageArrays(arena.pages) - old(PageArrays(arena.pages)))
    {
      hide Flatten, TotalCapacity, GrownByDoubling;
      page, slot := arena.Append(t, v);
    }

    /** Concatenates another buffer's samples; the other buffer is unchanged, and no slot of this one
        that was filled moves or changes. */
    method Merge(other: SampleBuffer)
      requires Valid() && other.Valid() && arena != other.arena
      requires PageArrays(arena.pages) !! PageArrays(other.arena.pages)
      modifies arena, PageArrays(arena.pages)
      ensures Valid() && Contents() == old(Contents()) + old(other.Contents())
      ensures other.Valid() && other.Contents() == old(other.Contents())
      ensures old(|arena.pages|) <= |arena.pages|
      ensures forall i :: 0 <= i < old(|arena.pages|) ==>
                && arena.pages[i].data == old(arena.pages[i].data)
                && old(arena.pages[i].used) <= arena.pages[i].used <= arena.pages[i].data.Length
      ensures forall i, k :: 0 <= i < old(|arena.pages|) && 0 <= k < old(arena.pages[i].used) ==>
                arena.pages[i].data[k] == old(arena.pages[i].data[k])
      ensures fresh(PageArrays(arena.pages) - old(PageArrays(arena.pages)))
    {
      hide Flatten, TotalCapacity, GrownByDoubling;
      var all := other.arena.Collect();
      for i := 0 to |all|
        invariant Valid() && Contents() == old(Contents()) + all[..i]
        invariant old(|arena.pages|) <= |arena.pages|
        invariant forall j :: 0 <= j < old(|arena.pages|) ==>
                    && arena.pages[j].data == old(arena.pages[j].data)
                    && old(arena.pages[j].used) <= arena.pages[j].used <= arena.pages[j].data.Length
        invariant forall j, k :: 0 <= j < old(|arena.pages|) && 0 <= k < old(arena.pages[j].used) ==>
                    arena.pages[j].data[k] == old(arena.pages[j].data[k])
        invariant fresh(PageArrays(arena.pages) - old(PageArrays(arena.pages)))
      {
        var _, _ := Append(all[i].t, all[i].v);
        assert all[i].st == () && all[..i + 1] == all[..i] + [all[i]];
      }
      assert all[..|all|] == all;
      FlattenFrame(other.arena.pages);
    }

    /** Sorts, keeps one sample for each timestamp and compacts the result into one page. */
    method SortDedupInPlace()
      requires Valid()
      modifies arena
      ensures Valid() && Contents() == SortDedup(old(Contents()))
      ensures |arena.pages| <= 1 && arena.ByteCount() == SAMPLE_BYTES * |Contents()|
    {
      hide Flatten, TotalCapacity, GrownByDoubling, InBounds;
      var all := arena.Collect();
      all := StableSort(all);
      var deduped := DedupSorted(all);
      arena.CompactTo(deduped);
    }
  }
}
