/** Building and tearing down page tables in place (Kernel/paging.cpp). */
module Paging {
  import opened Common
  import opened FrameAllocator
  import opened PageTree
  import opened PageGrowth
  import opened PageTeardown

  type Byte = b: int | 0 <= b < 256
  type PageData = d: seq<Byte> | |d| == BYTES_PER_FRAME witness seq(BYTES_PER_FRAME, _ => 0)

  function ZeroPage(): (d: PageData)
    ensures forall k :: 0 <= k < BYTES_PER_FRAME ==> d[k] == 0
  {
    seq(BYTES_PER_FRAME, _ => 0)
  }

  function PageAt(pages: map<nat, PageData>, f: nat): PageData {
    if f in pages then pages[f] else ZeroPage()
  }

  /**
   * Physical memory and the frame allocator. A frame is seen as a table (`mem`) or as bytes
   * (`pages`): what `pages` says of a table means nothing, and storing bytes spoils what `mem`
   * says of that frame. No frame of a page holds a table (`Elf.PageIsNoTable`).
   */
  class Pager {
    const cr3: nat
    const mm: BitmapMemoryManager
    var mem: Memory
    var pages: map<nat, PageData>
    ghost var frees: multiset<nat>  // how often CleanPageMap(s) has handed each frame back

    constructor (cr3: nat, mm: BitmapMemoryManager, mem: Memory, pages: map<nat, PageData>)
      ensures this.cr3 == cr3 && this.mm == mm && this.mem == mem && this.pages == pages
      ensures frees == multiset{}
    {
      this.cr3, this.mm, this.mem, this.pages := cr3, mm, mem, pages;
      frees := multiset{};
    }

    /** The tables at f form a tree of distinct frames, all of them marked allocated. */
    ghost predicate TreeInv(f: nat, level: nat)
      reads this, mm, mm.allocMap
    {
      mm.Valid() && Separate(mem, f, level) && Owned(mem, f, level, mm.frames)
    }

    /** No frame is left in range. */
    ghost predicate Exhausted()
      reads mm
    {
      forall f :: mm.rangeBegin <= f < mm.rangeEnd ==> f in mm.frames
    }

    method NewPageMap() returns (frame: nat, err: Error)
      requires mm.Valid()
      modifies this, mm`frames, mm.allocMap
      ensures mm.Valid() && frees == old(frees)
      ensures err == Success || err == NoEnoughMemory
      ensures err == Success ==>
        && frame < FRAME_COUNT && frame !in old(mm.frames) && mm.frames == old(mm.frames) + {frame}
        && mem == old(mem)[frame := ZeroTable()] && pages == old(pages)[frame := ZeroPage()]
      ensures err == NoEnoughMemory ==> mm.frames == old(mm.frames) && mem == old(mem) && pages == old(pages)
      ensures err == NoEnoughMemory ==> Exhausted()
    {
      var r := mm.Allocate(1);
      match r
      case NoFrames =>
        forall f | mm.rangeBegin <= f < mm.rangeEnd ensures f in mm.frames {
          assert !FreeRun(mm.frames, mm.rangeEnd, f, 1);
        }
        return 0, Error.NoEnoughMemory;
      case Frame(id) =>
        assert id !in old(mm.frames);
        mem, pages := mem[id := ZeroTable()], pages[id := ZeroPage()];
        return id, Success;
    }

    method SetNewPageMapIfNotPresent(table: nat, i: nat) returns (child: nat, err: Error)
      requires mm.Valid() && i < ENTRIES && table in mm.frames
      modifies this, mm`frames, mm.allocMap
      ensures mm.Valid() && frees == old(frees)
      ensures err == Success || err == NoEnoughMemory
      ensures err == NoEnoughMemory ==> Exhausted()
      ensures err == Success ==>
        if TableAt(old(mem), table)[i].present then
          child == TableAt(mem, table)[i].frame && mem == old(mem) && pages == old(pages) && mm.frames == old(mm.frames)
        else
          && child !in old(mm.frames) && mm.frames == old(mm.frames) + {child}
          && mem == old(mem)[child := ZeroTable()]
                    [table := TableAt(old(mem), table)[i :=
                      TableAt(old(mem), table)[i].(frame := child, present := true)]]
          && pages == old(pages)[child := ZeroPage()]
      ensures err == NoEnoughMemory ==> mm.frames == old(mm.frames) && mem == old(mem) && pages == old(pages)
    {
      hide BitmapMemoryManager.Valid;
      var entry := TableAt(mem, table)[i];
      if entry.present {
        return entry.frame, Success;
      }
      child, err := NewPageMap();
      if err != Success {
        return 0, err;
      }
      entry := entry.SetPointer(child).(present := true);
      mem := mem[table := TableAt(mem, table)[i := entry]];
    }

    /** The entry that a walk goes through, made present, writable and open to applications. */
    method OpenEntry(table: nat, level: nat, i: nat) returns (child: nat, err: Error)
      requires 1 <= level <= 4 && FirstSlot(level) <= i < ENTRIES && TreeInv(table, level)
      modifies this, mm`frames, mm.allocMap
      ensures mm.Valid() && frees == old(frees)
      ensures err == Success || err == NoEnoughMemory
      ensures err == NoEnoughMemory ==> Exhausted()
      ensures forall x :: x in old(mm.frames) ==> PageAt(pages, x) == PageAt(old(pages), x)
      ensures old(mm.frames) <= mm.frames
      ensures err == Success ==>
        Linked(old(mem), old(mm.frames), mem, mm.frames, table, level, i, child) && TreeInv(child, level - 1)
      ensures err != Success ==> mem == old(mem) && mm.frames == old(mm.frames)
    {
      hide BitmapMemoryManager.Valid;
      ghost var m, s := mem, mm.frames;
      assert InTree(mem, table, level, table);
      child, err := SetNewPageMapIfNotPresent(table, i);
      if err != Success {
        return;
      }
      mem := mem[table := TableAt(mem, table)[i := TableAt(mem, table)[i].(writable := true, user := true)]];
      LinkedChild(m, s, mem, mm.frames, table, level, level - 1, i, child);
    }

    /** The first address of the entry after i. */
    method NextEntry(addr: Address, level: nat, i: nat) returns (cur: Address)
      requires 1 <= level <= 4 && i + 1 < ENTRIES
      ensures cur.Part(level) == i + 1 && Index(cur, level) == (i + 1) * Span(level - 1)
    {
      cur := addr.SetPart(level, i + 1);
      var l := level - 1;
      while l >= 1
        invariant 0 <= l < level && cur.Part(level) == i + 1
        invariant forall q :: l < q < level ==> cur.Part(q) == 0
      {
        var was := cur;
        cur := cur.SetPart(l, 0);
        assert cur.Part(l) == 0;
        assert forall q :: q != l ==> cur.Part(q) == was.Part(q);
        l := l - 1;
      }
      ZeroIndex(cur, level - 1);
    }

    /** One round of SetupPageMap's loop: maps the pages from addr on that lie in addr's own entry. */
    method SetupEntry(table: nat, level: nat, addr: Address, n: nat) returns (left: nat, err: Error)
      requires 1 <= level <= 4 && Reaches(addr, level) && TreeInv(table, level) && n > 0
      modifies this, mm`frames, mm.allocMap
      ensures mm.Valid() && frees == old(frees)
      ensures err == Success || err == NoEnoughMemory
      ensures err == NoEnoughMemory ==> Exhausted()
      ensures forall x :: x in old(mm.frames) ==> PageAt(pages, x) == PageAt(old(pages), x)
      ensures Progress(old(mem), old(mm.frames), mem, mm.frames, table, level, Index(addr, level),
                       Index(addr, level) + EntryShare(addr, level, n))
      ensures err == Success ==>
        && left == n - EntryShare(addr, level, n)
        && Accessible(mem, table, level, Index(addr, level), Index(addr, level) + EntryShare(addr, level, n))
      decreases level, 0
    {
      hide BitmapMemoryManager.Valid, Progress, Grown, MapsWithin, SlotsKept, Accessible, Linked, Separate, Owned;
      ghost var m, s := mem, mm.frames;
      ghost var below, from, k := level - 1, Index(addr, level - 1), EntryShare(addr, level, n);
      var i := addr.Part(level);
      var child, e := OpenEntry(table, level, i);
      if e != Success {
        NoProgress(m, s, table, level, Index(addr, level));
        Widen(m, s, m, s, table, level, Index(addr, level), Index(addr, level), Index(addr, level) + k);
        return n, e;
      }
      ghost var m1, s1 := mem, mm.frames;
      if level == 1 {
        left := n - 1;
        LeafGrown(mem, s1, child);
      } else {
        left, e := SetupPageMap(child, level - 1, addr, n);
        ghost var got := if e == Success then TableShare(addr, below, n) else n;
        ProgressGrown(m1, s1, mem, mm.frames, child, below, from, from + got);
        ClipMaps(m1, mem, child, below, from, from + got, from + k);
        if e != Success {
          ProgressThroughChild(m, s, m1, s1, mem, mm.frames, table, level, below, i, child, from, k);
          return n, e;
        }
      }
      ProgressThroughChild(m, s, m1, s1, mem, mm.frames, table, level, below, i, child, from, k);
      return left, Success;
    }

    /**
     * Maps pages from addr on until n are mapped or the table ends; the result is the
     * number still to be mapped.
     */
    method SetupPageMap(table: nat, level: nat, addr: Address, n: nat) returns (remain: nat, err: Error)
      requires 1 <= level <= 4 && Reaches(addr, level) && TreeInv(table, level)
      modifies this, mm`frames, mm.allocMap
      ensures mm.Valid() && frees == old(frees)
      ensures err == Success || err == NoEnoughMemory
      ensures err == NoEnoughMemory ==> Exhausted()
      ensures forall x :: x in old(mm.frames) ==> PageAt(pages, x) == PageAt(old(pages), x)
      ensures Progress(old(mem), old(mm.frames), mem, mm.frames, table, level, Index(addr, level),
                       Index(addr, level) + if err == Success then TableShare(addr, level, n) else n)
      ensures err == Success ==>
        && remain == n - TableShare(addr, level, n)
        && Accessible(mem, table, level, Index(addr, level), Index(addr, level) + TableShare(addr, level, n))
      decreases level, 1
    {
      hide BitmapMemoryManager.Valid, Progress, Grown, MapsWithin, SlotsKept, Accessible, Separate, Owned,
           Index, Span, EntryShare, TableShare;
      ghost var m0, s0, first := mem, mm.frames, Index(addr, level);
      ghost var next := first;
      var cur: Address, num: nat := addr, n;
      NoProgress(mem, mm.frames, table, level, first);
      while num > 0
        invariant mm.Valid() && frees == old(frees) && Reaches(cur, level)
        invariant first <= next <= Span(level) && next - first + num == n
        invariant num > 0 ==> Index(cur, level) == next
        invariant Progress(m0, s0, mem, mm.frames, table, level, first, next)
        invariant Accessible(mem, table, level, first, next)
        invariant forall x :: x in s0 ==> PageAt(pages, x) == PageAt(old(pages), x)
      {
        ghost var m, s, k := mem, mm.frames, EntryShare(cur, level, num);
        var i := cur.Part(level);
        RoundEnds(cur, level, num);
        ProgressInv(m0, s0, m, s, table, level, first, next);
        var left, e := SetupEntry(table, level, cur, num);
        ProgressTransitive(m0, s0, m, s, mem, mm.frames, table, level, first, next, next + k);
        next := next + k;
        if e != Success {
          Widen(m0, s0, mem, mm.frames, table, level, first, next, first + n);
          return num, e;
        }
        num := left;
        if i == ENTRIES - 1 {
          break;
        }
        cur := NextEntry(cur, level, i);
      }
      TableShareIs(addr, level, n, next - first);
      return num, Success;
    }

    method SetupPageMaps(addr: Address, n: nat) returns (err: Error)
      requires Reaches(addr, 4) && TreeInv(cr3, 4)
      modifies this, mm`frames, mm.allocMap
      ensures TreeInv(cr3, 4) && frees == old(frees)
      ensures err == Success || err == NoEnoughMemory
      ensures err == NoEnoughMemory ==> Exhausted()
      ensures forall x :: x in old(mm.frames) ==> PageAt(pages, x) == PageAt(old(pages), x)
      ensures Progress(old(mem), old(mm.frames), mem, mm.frames, cr3, 4, Index(addr, 4),
                       Index(addr, 4) + if err == Success then TableShare(addr, 4, n) else n)
      ensures err == Success ==> Accessible(mem, cr3, 4, Index(addr, 4), Index(addr, 4) + TableShare(addr, 4, n))
    {
      hide BitmapMemoryManager.Valid, Progress, Accessible, Separate, Owned;
      ghost var m, s := mem, mm.frames;
      var remain;
      remain, err := SetupPageMap(cr3, 4, addr, n);
      ProgressInv(m, s, mem, mm.frames, cr3, 4, Index(addr, 4),
                  Index(addr, 4) + if err == Success then TableShare(addr, 4, n) else n);
    }

    /** Frees the subtree behind one present entry, then clears the entry. */
    method CleanEntry(table: nat, level: nat, i: nat) returns (err: Error)
      requires 1 <= level <= 3 && i < ENTRIES && TableAt(mem, table)[i].present
      requires TreeInv(Child(mem, table, i), level - 1) && !InTree(mem, Child(mem, table, i), level - 1, table)
      modifies this, mm`frames, mm.allocMap
      ensures mm.Valid() && err == Success && pages == old(pages)
      ensures forall x :: x in mm.frames <==> x in old(mm.frames) && !InSlot(old(mem), table, level, i, x)
      ensures forall x :: frees[x] == old(frees)[x] + if InSlot(old(mem), table, level, i, x) then 1 else 0
      ensures forall x :: x != table && !InSlot(old(mem), table, level, i, x) ==>
        TableAt(mem, x) == TableAt(old(mem), x)
      ensures TableAt(mem, table) == TableAt(old(mem), table)[i := ZERO_ENTRY]
      decreases level, 0
    {
      hide BitmapMemoryManager.Valid, Separate;
      ghost var m0, below := mem, level - 1;
      var entry := TableAt(mem, table)[i];
      assert forall x :: InSlot(m0, table, level, i, x) <==> InTree(m0, entry.frame, below, x);
      assert InTree(m0, entry.frame, below, entry.frame);
      mm.InMap(entry.frame);
      if level > 1 {
        err := CleanPageMap(entry.frame, level - 1);
        if err != Success {
          return err;
        }
        BelowAll(m0, entry.frame, below);
      }
      mm.Free(entry.frame, 1);
      frees := frees + multiset{entry.frame};
      mem := mem[table := TableAt(mem, table)[i := ZERO_ENTRY]];
      return Success;
    }

    /** Frees everything below a table and clears its entries. */
    method CleanPageMap(table: nat, level: nat) returns (err: Error)
      requires 1 <= level <= 3 && TreeInv(table, level)
      modifies this, mm`frames, mm.allocMap
      ensures mm.Valid() && err == Success && pages == old(pages)
      ensures forall x :: x in mm.frames <==> x in old(mm.frames) && !Below(old(mem), table, level, ENTRIES, x)
      ensures forall x :: frees[x] == old(frees)[x] + if Below(old(mem), table, level, ENTRIES, x) then 1 else 0
      ensures forall x :: x != table && !Below(old(mem), table, level, ENTRIES, x) ==>
        TableAt(mem, x) == TableAt(old(mem), x)
      ensures forall i :: 0 <= i < ENTRIES ==> TableAt(mem, table)[i] == Cleared(TableAt(old(mem), table)[i])
      decreases level, 1
    {
      hide BitmapMemoryManager.Valid;
      ghost var m0, s0, f0 := mem, mm.frames, frees;
      for i := 0 to ENTRIES
        invariant mm.Valid() && pages == old(pages)
        invariant forall x :: x in mm.frames <==> x in s0 && !Below(m0, table, level, i, x)
        invariant forall x :: frees[x] == f0[x] + if Below(m0, table, level, i, x) then 1 else 0
        invariant forall x :: x != table && !Below(m0, table, level, i, x) ==> TableAt(mem, x) == TableAt(m0, x)
        invariant forall j :: 0 <= j < i ==> TableAt(mem, table)[j] == Cleared(TableAt(m0, table)[j])
        invariant forall j :: i <= j < ENTRIES ==> TableAt(mem, table)[j] == TableAt(m0, table)[j]
      {
        hide Separate, Owned, Below;
        BelowNext(m0, table, level, i);
        if !TableAt(mem, table)[i].present {
          continue;
        }
        SlotIntact(m0, s0, mem, mm.frames, table, level, i);
        err := CleanEntry(table, level, i);
      }
      return Success;
    }

    /** Unmaps everything that shares addr's PML4 entry and frees the frames it took. */
    method CleanPageMaps(addr: Address) returns (err: Error)
      requires Reaches(addr, 4) && TreeInv(cr3, 4) && TableAt(mem, cr3)[addr.pml4].present
      modifies this, mm`frames, mm.allocMap
      ensures TreeInv(cr3, 4) && err == Success && pages == old(pages)
      ensures forall x :: x in mm.frames <==> x in old(mm.frames) && !InSlot(old(mem), cr3, 4, addr.pml4, x)
      ensures forall x :: frees[x] == old(frees)[x] + if InSlot(old(mem), cr3, 4, addr.pml4, x) then 1 else 0
      ensures forall a: Address :: Reaches(a, 4) ==>
        Walk(mem, cr3, 4, a) == if a.pml4 == addr.pml4 then None else Walk(old(mem), cr3, 4, a)
      ensures TableAt(mem, cr3) == TableAt(old(mem), cr3)[addr.pml4 := ZERO_ENTRY]
    {
      hide BitmapMemoryManager.Valid;
      ghost var m0, s0, i := mem, mm.frames, addr.pml4;
      var pdp := TableAt(mem, cr3)[addr.pml4].frame;
      mem := mem[cr3 := TableAt(mem, cr3)[addr.pml4 := ZERO_ENTRY]];
      ghost var m1 := mem;
      SlotDetached(m0, s0, m1, cr3, i);
      err := CleanPageMap(pdp, 3);
      if err != Success {
        return err;
      }
      BelowAll(m1, pdp, 3);
      mm.InMap(pdp);
      mm.Free(pdp, 1);
      frees := frees + multiset{pdp};
      SlotRemoved(m0, s0, m1, mem, mm.frames, cr3, i);
    }

    /**
     * Loading and unloading in one empty PML4 slot: the bitmap is what it was, also when the
     * mapping ran out of memory half way. The caller unmaps only if the slot is in use.
     */
    method SetupThenClean(addr: Address, n: nat) returns (err: Error)
      requires Reaches(addr, 4) && TreeInv(cr3, 4) && !TableAt(mem, cr3)[addr.pml4].present
      requires Index(addr, 3) + n <= Span(3)
      modifies this, mm`frames, mm.allocMap
      ensures TreeInv(cr3, 4) && mm.frames == old(mm.frames)
      ensures forall a: Address :: Reaches(a, 4) ==> Walk(mem, cr3, 4, a) == Walk(old(mem), cr3, 4, a)
    {
      hide BitmapMemoryManager.Valid, Progress, Accessible, Separate, Owned;
      ghost var m0, s0 := mem, mm.frames;
      err := SetupPageMaps(addr, n);
      ghost var m1, s1 := mem, mm.frames;
      OneSlotGrown(m0, s0, m1, s1, cr3, addr, n, if err == Success then TableShare(addr, 4, n) else n);
      if TableAt(mem, cr3)[addr.pml4].present {
        var e := CleanPageMaps(addr);
      }
    }
  }

  /** How many of n pages from a on lie in a's own entry of a table at this level. */
  function EntryShare(a: Address, level: nat, n: nat): nat
    requires 1 <= level <= 4
  {
    TableShare(a, level - 1, n)
  }

  /** How many of n pages from a on lie in the table at this level that a walks through. */
  function TableShare(a: Address, level: nat, n: nat): nat
    requires level <= 4
  {
    if n <= Span(level) - Index(a, level) then n else Span(level) - Index(a, level)
  }

  /** One entry's pages end with the request, or at the next entry, which for the last entry is the end of the table. */
  lemma RoundEnds(a: Address, level: nat, n: nat)
    requires 1 <= level <= 4
    ensures var k, end := EntryShare(a, level, n), Index(a, level) + EntryShare(a, level, n);
            && k <= n && end <= Span(level) && (n > 0 ==> k > 0)
            && (k < n ==> end == (a.Part(level) + 1) * Span(level - 1))
            && (k < n && a.Part(level) == ENTRIES - 1 ==> end == Span(level))
  {
  }

  lemma TableShareIs(a: Address, level: nat, n: nat, m: nat)
    requires level <= 4 && m <= n && Index(a, level) + m <= Span(level)
    requires m == n || Index(a, level) + m == Span(level)
    ensures TableShare(a, level, n) == m
  {
  }

  /** The page number belongs to some linear address. */
  ghost predicate IsPage(p: nat) {
    exists a: Address :: Index(a, 4) == p
  }

  /**
   * SetupPageMaps reports success also when it ran off the end of the PML4 table. The pages it
   * mapped are all that were asked for exactly when the request does not go past that end.
   */
  lemma SuccessIsComplete(addr: Address, n: nat)
    ensures TableShare(addr, 4, n) == n <==> forall p :: Index(addr, 4) <= p < Index(addr, 4) + n ==> IsPage(p)
  {
    hide FromValue;
    if TableShare(addr, 4, n) == n {
      forall p | Index(addr, 4) <= p < Index(addr, 4) + n ensures IsPage(p) {
        FromValueIndex(4096 * p);
        assert Index(FromValue(4096 * p), 4) == p;
      }
    } else {
      assert !IsPage(Span(4));
    }
  }

  /** Two pages asked for at the last page of the address space: success, and one is missing. */
  lemma LastPageExample()
    ensures var a := FromValue(LAST_PAGE); TableShare(a, 4, 2) == 1 && !IsPage(Index(a, 4) + 1)
  {
    FromValueIndex(LAST_PAGE);
  }

  const LAST_PAGE := 0xFFFF_FFFF_FFFF_F000

  /** The same request made: as long as memory lasts it succeeds, and at most one page is added. */
  method TwoPagesFromLast(pager: Pager) returns (err: Error)
    requires pager.TreeInv(pager.cr3, 4)
    modifies pager, pager.mm`frames, pager.mm.allocMap
    ensures !pager.Exhausted() ==> err == Success
    ensures forall a: Address | Reaches(a, 4) && Index(a, 4) != Index(FromValue(LAST_PAGE), 4) ::
              Walk(pager.mem, pager.cr3, 4, a).Some? ==> Walk(old(pager.mem), pager.cr3, 4, a).Some?
  {
    hide BitmapMemoryManager.Valid, Accessible, Separate, Owned, Index, FromValue, Walk;
    var a := FromValue(LAST_PAGE);
    LastPageExample();
    LastPageReached();
    err := pager.SetupPageMaps(a, 2);
  }

  lemma LastPageReached()
    ensures Reaches(FromValue(LAST_PAGE), 4) && Index(FromValue(LAST_PAGE), 4) == Span(4) - 1
    ensures forall b: Address :: Index(b, 4) < Span(4)
  {
    FromValueIndex(LAST_PAGE);
  }
}
