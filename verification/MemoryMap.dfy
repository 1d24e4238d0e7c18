/** Turning the firmware's memory map into the frame bitmap (Kernel/memory_manager.cpp, Kernel/memory_map.hpp). */
module MemoryMap {
  import opened FrameAllocator

  const UEFI_PAGE_SIZE := 4096

  const BOOT_SERVICES_CODE := 3
  const BOOT_SERVICES_DATA := 4
  const CONVENTIONAL_MEMORY := 7

  datatype Descriptor = Descriptor(kind: nat, physicalStart: nat, numberOfPages: nat) {
    function PhysicalEnd(): nat {
      physicalStart + numberOfPages * UEFI_PAGE_SIZE
    }

    function FirstFrame(): nat {
      physicalStart / BYTES_PER_FRAME
    }

    function EndFrame(): nat {
      FirstFrame() + numberOfPages
    }

    predicate Covers(frame: nat) {
      FirstFrame() <= frame < EndFrame()
    }
  }

  predicate IsAvailable(kind: nat) {
    kind == BOOT_SERVICES_CODE || kind == BOOT_SERVICES_DATA || kind == CONVENTIONAL_MEMORY
  }

  /** Sorted, disjoint, page-aligned and below 128 GiB. */
  ghost predicate WellFormed(descs: seq<Descriptor>) {
    && (forall i :: 0 <= i < |descs| ==>
          descs[i].physicalStart % BYTES_PER_FRAME == 0 && descs[i].PhysicalEnd() <= FRAME_COUNT * BYTES_PER_FRAME)
    && forall i, j :: 0 <= i < j < |descs| ==> descs[i].PhysicalEnd() <= descs[j].physicalStart
  }

  /** For an aligned descriptor, the covered frames are those whose bytes all lie in its range. */
  lemma FrameUnits(d: Descriptor)
    requires d.physicalStart % BYTES_PER_FRAME == 0
    ensures d.EndFrame() * BYTES_PER_FRAME == d.PhysicalEnd() && d.FirstFrame() * BYTES_PER_FRAME == d.physicalStart
    ensures forall f: nat :: d.Covers(f) <==>
              d.physicalStart <= f * BYTES_PER_FRAME && (f + 1) * BYTES_PER_FRAME <= d.PhysicalEnd()
  {
  }

  /**
   * Some range among the given descriptors is free for use, boot services code, their data or
   * conventional memory, and holds the frame.
   */
  ghost predicate Usable(descs: seq<Descriptor>, frame: nat) {
    exists d :: d in descs && (d.kind == 3 || d.kind == 4 || d.kind == 7) && d.Covers(frame)
  }

  /** The marks a run over the first descriptors sets; `end` is where the last available range ends. */
  ghost predicate MarkedUpTo(descs: seq<Descriptor>, frames: set<nat>, end: nat) {
    && (forall f: nat :: f < end ==> (f !in frames <==> Usable(descs, f)))
    && (forall f: nat :: f in frames && end <= f ==> Passed(descs, f))
    && (forall f: nat :: Usable(descs, f) ==> f < end)
  }

  ghost predicate Passed(descs: seq<Descriptor>, f: nat) {
    exists d :: d in descs && f < d.EndFrame()
  }

  /**
   * Marks the gap before each descriptor and each range that is not available. Because the end
   * mark moves only past available ranges, an unavailable range that is followed by another
   * descriptor is marked twice; the marks come out right all the same.
   */
  method InitializeMemoryManager(descs: seq<Descriptor>) returns (mm: BitmapMemoryManager)
    requires WellFormed(descs)
    ensures mm.Valid() && mm.rangeBegin == 1
    ensures forall f: nat :: f < mm.rangeEnd ==> (f !in mm.frames <==> Usable(descs, f))
    ensures forall f: nat :: Usable(descs, f) ==> f < mm.rangeEnd
  {
    hide BitmapMemoryManager.Valid, MarkedUpTo;
    mm := new BitmapMemoryManager();
    var availableEnd: nat := 0;
    NothingMarked();
    for i := 0 to |descs|
      invariant mm.Valid() && fresh(mm) && fresh(mm.allocMap)
      invariant availableEnd % BYTES_PER_FRAME == 0 && availableEnd <= FRAME_COUNT * BYTES_PER_FRAME
      invariant forall j :: i <= j < |descs| ==> availableEnd <= descs[j].physicalStart
      invariant MarkedUpTo(descs[..i], mm.frames, availableEnd / BYTES_PER_FRAME)
    {
      var desc := descs[i];
      FrameUnits(desc);
      ghost var before, oldEnd := mm.frames, availableEnd;
      if availableEnd < desc.physicalStart {
        mm.MarkAllocated(availableEnd / BYTES_PER_FRAME, (desc.physicalStart - availableEnd) / BYTES_PER_FRAME);
      }
      assert mm.frames == before + Run(oldEnd / BYTES_PER_FRAME, desc.FirstFrame() - oldEnd / BYTES_PER_FRAME);
      if IsAvailable(desc.kind) {
        availableEnd := desc.PhysicalEnd();
      } else {
        mm.MarkAllocated(desc.physicalStart / BYTES_PER_FRAME, desc.numberOfPages * UEFI_PAGE_SIZE / BYTES_PER_FRAME);
      }
      EarlierEnds(descs, i);
      DescriptorMarked(descs[..i], desc, before, mm.frames, oldEnd / BYTES_PER_FRAME, availableEnd / BYTES_PER_FRAME);
      assert descs[..i + 1] == descs[..i] + [desc];
    }
    assert descs[..|descs|] == descs;
    WholeMapMarked(descs, mm.frames, availableEnd / BYTES_PER_FRAME);
    mm.SetMemoryRange(1, availableEnd / BYTES_PER_FRAME);
  }

  lemma NothingMarked()
    ensures MarkedUpTo([], {}, 0)
  {
  }

  lemma WholeMapMarked(descs: seq<Descriptor>, frames: set<nat>, end: nat)
    requires MarkedUpTo(descs, frames, end)
    ensures forall f: nat :: f < end ==> (f !in frames <==> Usable(descs, f))
    ensures forall f: nat :: Usable(descs, f) ==> f < end
  {
  }

  lemma EarlierEnds(descs: seq<Descriptor>, i: nat)
    requires WellFormed(descs) && i < |descs|
    ensures forall e :: e in descs[..i] ==> e.EndFrame() <= descs[i].FirstFrame()
  {
  }

  lemma DescriptorMarked(descs: seq<Descriptor>, d: Descriptor, before: set<nat>, after: set<nat>, oldEnd: nat,
      newEnd: nat)
    requires oldEnd <= d.FirstFrame() && MarkedUpTo(descs, before, oldEnd)
    requires forall e :: e in descs ==> e.EndFrame() <= d.FirstFrame()
    requires newEnd == if IsAvailable(d.kind) then d.EndFrame() else oldEnd
    requires forall f: nat :: f in after <==>
      f in before || oldEnd <= f < d.FirstFrame() || (!IsAvailable(d.kind) && d.Covers(f))
    ensures MarkedUpTo(descs + [d], after, newEnd)
  {
    forall f: nat
      ensures Usable(descs + [d], f) <==> Usable(descs, f) || (IsAvailable(d.kind) && d.Covers(f))
      ensures Passed(descs + [d], f) <==> Passed(descs, f) || f < d.EndFrame()
    {
      assert d in descs + [d];
      assert forall e :: e in descs ==> e in descs + [d];
    }
    assert forall f: nat :: Passed(descs, f) ==> f < d.FirstFrame();
  }
}
