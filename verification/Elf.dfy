/** Loading the segments of an ELF image into application memory (Kernel/elf.cpp). */
module Elf {
  import opened Common
  import opened FrameAllocator
  import opened PageTree
  import opened PageGrowth
  import opened Paging

  const USER_BASE := 0xFFFF_8000_0000_0000
  const SIGN_BITS := 0xFFFF_0000_0000_0000
  const ADDRESS_END := 0x1_0000_0000_0000_0000

  /** The fields of Elf64_Phdr that CopyLoadSegments reads. */
  datatype ProgramHeader = ProgramHeader(isLoad: bool, offset: nat, vaddr: nat, filesz: nat, memsz: nat)

  /** An address of the application half. */
  predicate User(v: nat) {
    USER_BASE <= v < ADDRESS_END
  }

  /** The byte an application reads at virtual address v. */
  function Load(mem: Memory, pages: map<nat, PageData>, cr3: nat, v: nat): Option<Byte>
    requires User(v)
  {
    match Walk(mem, cr3, 4, FromValue(v))
    case None => None
    case Some(t) => Some(PageAt(pages, t.frame)[v % BYTES_PER_FRAME])
  }

  lemma UserIndex(v: nat)
    requires User(v)
    ensures Reaches(FromValue(v), 4)
    ensures Index(FromValue(v), 4) == (v - SIGN_BITS) / 4096
  {
    FromValueIndex(v);
    DropSign(v - SIGN_BITS);
    var a := FromValue(v);
    assert Index(a, 4) == a.pml4 * Span(3) + Index(a, 3);
  }

  /** A page walk ignores the sign extension of an address. */
  lemma DropSign(x: nat)
    requires x < 0x1_0000_0000_0000
    ensures (SIGN_BITS + x) / 4096 % 0x10_0000_0000 == x / 4096 && (SIGN_BITS + x) % 4096 == x % 4096
  {
  }

  /** A page frame belongs to the tree, and two pages never share one. */
  lemma {:induction false} WalkInTree(mem: Memory, f: nat, level: nat, a: Address)
    requires level <= 4 && Reaches(a, level) && Walk(mem, f, level, a).Some?
    ensures InTree(mem, f, level, Walk(mem, f, level, a).value.frame)
    decreases level
  {
    if level > 0 {
      assert Present(mem, f, level, a.Part(level));
      WalkInTree(mem, EntryFor(mem, f, level, a).frame, level - 1, a);
    }
  }

  lemma {:induction false} WalkInjective(mem: Memory, f: nat, level: nat, a: Address, b: Address)
    requires level <= 4 && Separate(mem, f, level) && Reaches(a, level) && Reaches(b, level)
    requires Walk(mem, f, level, a).Some? && Walk(mem, f, level, b).Some?
    requires Index(a, level) != Index(b, level)
    ensures Walk(mem, f, level, a).value.frame != Walk(mem, f, level, b).value.frame
    decreases level
  {
    if a.Part(level) == b.Part(level) {
      assert Present(mem, f, level, a.Part(level));
      WalkInjective(mem, EntryFor(mem, f, level, a).frame, level - 1, a, b);
    } else {
      hide Separate;
      WalkInSlot(mem, f, level, a);
      WalkInSlot(mem, f, level, b);
      OneSlot(mem, f, level, a.Part(level), b.Part(level), Walk(mem, f, level, a).value.frame);
    }
  }

  /** The frame of a page holds no table: what is stored in a page cannot change a page walk. */
  lemma {:induction false} PageIsNoTable(mem: Memory, f: nat, level: nat, a: Address)
    requires level <= 4 && Separate(mem, f, level) && Reaches(a, level) && Walk(mem, f, level, a).Some?
    ensures !IsTable(mem, f, level, Walk(mem, f, level, a).value.frame)
    decreases level
  {
    if level > 0 {
      var page, i := Walk(mem, f, level, a).value.frame, a.Part(level);
      WalkInSlot(mem, f, level, a);
      PageIsNoTable(mem, Child(mem, f, i), level - 1, a);
      if j :| Present(mem, f, level, j) && IsTable(mem, Child(mem, f, j), level - 1, page) {
        TableInTree(mem, Child(mem, f, j), level - 1, page);
        assert InSlot(mem, f, level, j, page) && InSlot(mem, f, level, i, page);
      }
    }
  }

  lemma WalkInSlot(mem: Memory, f: nat, level: nat, a: Address)
    requires 1 <= level <= 4 && Reaches(a, level) && Walk(mem, f, level, a).Some?
    ensures InSlot(mem, f, level, a.Part(level), Walk(mem, f, level, a).value.frame)
  {
    WalkInTree(mem, EntryFor(mem, f, level, a).frame, level - 1, a);
  }

  lemma OneSlot(mem: Memory, f: nat, level: nat, i: nat, j: nat, x: nat)
    requires Separate(mem, f, level) && InSlot(mem, f, level, i, x) && i != j
    ensures !InSlot(mem, f, level, j, x)
  {
  }

  /** Different addresses are different bytes of memory. */
  lemma LoadAfterStore(mem: Memory, pages: map<nat, PageData>, cr3: nat, w: nat, b: Byte, v: nat)
    requires Separate(mem, cr3, 4) && User(v) && User(w) && Walk(mem, cr3, 4, FromValue(w)).Some?
    ensures var f := Walk(mem, cr3, 4, FromValue(w)).value.frame;
            Load(mem, pages[f := PageAt(pages, f)[w % BYTES_PER_FRAME := b]], cr3, v)
            == if v == w then Some(b) else Load(mem, pages, cr3, v)
  {
    hide Index, Walk, Separate, FromValue;
    UserIndex(v);
    UserIndex(w);
    if v != w && v % 4096 == w % 4096 && Walk(mem, cr3, 4, FromValue(v)).Some? {
      WalkInjective(mem, cr3, 4, FromValue(v), FromValue(w));
    }
  }

  /** The bytes of a segment: its part of the file, then zeros. */
  function SegmentByte(image: seq<Byte>, ph: ProgramHeader, k: nat): Byte
    requires ph.offset + ph.filesz <= |image|
  {
    if k < ph.filesz then image[ph.offset + k] else 0
  }

  /** What the loader needs of a header: its bytes lie in the file and in the application half. */
  predicate WellFormed(image: seq<Byte>, ph: ProgramHeader) {
    ph.isLoad ==>
      && ph.filesz <= ph.memsz && ph.offset + ph.filesz <= |image|
      && User(ph.vaddr) && ph.vaddr + ph.memsz <= ADDRESS_END
  }

  predicate InSegment(ph: ProgramHeader, v: nat) {
    ph.isLoad && ph.vaddr <= v < ph.vaddr + ph.memsz
  }

  ghost predicate Loaded(mem: Memory, pages: map<nat, PageData>, cr3: nat, image: seq<Byte>, ph: ProgramHeader)
    requires WellFormed(image, ph)
  {
    forall v: nat :: InSegment(ph, v) ==> Load(mem, pages, cr3, v) == Some(SegmentByte(image, ph, v - ph.vaddr))
  }

  /** The page count that CopyLoadSegments requests. */
  function PageCount(ph: ProgramHeader): nat {
    (ph.vaddr % 4096 + ph.memsz + 4095) / 4096
  }

  /** The requested pages cover every byte of the segment and lie inside the page map. */
  lemma PageCountCovers(image: seq<Byte>, ph: ProgramHeader, v: nat)
    requires WellFormed(image, ph) && InSegment(ph, v)
    ensures TableShare(FromValue(ph.vaddr), 4, PageCount(ph)) == PageCount(ph)
    ensures Index(FromValue(ph.vaddr), 4) <= Index(FromValue(v), 4) < Index(FromValue(ph.vaddr), 4) + PageCount(ph)
  {
    hide Index;
    UserIndex(ph.vaddr);
    UserIndex(v);
    DropSign(ph.vaddr - SIGN_BITS);
    PageArithmetic(ph.vaddr - SIGN_BITS, v - ph.vaddr, ph.memsz);
  }

  /** Byte k of n bytes at x lies in one of the pages the count reserves, and these end with the last byte's page. */
  lemma PageArithmetic(x: nat, k: nat, n: nat)
    requires k < n && x + n <= 0x1_0000_0000_0000
    ensures var pages := (x % 4096 + n + 4095) / 4096;
            x / 4096 <= (x + k) / 4096 < x / 4096 + pages && x / 4096 + pages <= 0x10_0000_0000
  {
  }

  /** Overwriting a page changes no table, whatever its bytes would mean as one. */
  lemma StoreKeepsTree(mem: Memory, cr3: nat, w: nat, bytes: Table)
    requires Separate(mem, cr3, 4) && User(w) && Walk(mem, cr3, 4, FromValue(w)).Some?
    ensures SameTree(mem, mem[Walk(mem, cr3, 4, FromValue(w)).value.frame := bytes], cr3, 4)
  {
    hide Index, Walk, Separate, FromValue, SameTree, IsTable;
    UserIndex(w);
    PageIsNoTable(mem, cr3, 4, FromValue(w));
    TablesDecide(mem, mem[Walk(mem, cr3, 4, FromValue(w)).value.frame := bytes], cr3, 4);
  }

  lemma SameTreeThrough(m0: Memory, m1: Memory, m2: Memory, cr3: nat)
    requires SameTree(m0, m1, cr3, 4) && SameTree(m1, m2, cr3, 4)
    ensures SameTree(m0, m2, cr3, 4)
  {
    hide Walk, Separate, InTree, InSlot;
  }

  lemma SameLoads(m0: Memory, m1: Memory, pages: map<nat, PageData>, cr3: nat)
    requires SameTree(m0, m1, cr3, 4)
    ensures forall u: nat | User(u) :: Load(m1, pages, cr3, u) == Load(m0, pages, cr3, u)
    ensures forall u: nat | User(u) :: Walk(m1, cr3, 4, FromValue(u)) == Walk(m0, cr3, 4, FromValue(u))
    ensures Separate(m1, cr3, 4) <==> Separate(m0, cr3, 4)
    ensures forall x :: InTree(m1, cr3, 4, x) <==> InTree(m0, cr3, 4, x)
  {
    hide Walk, Separate, InTree, InSlot, FromValue, Index;
    forall u: nat | User(u) ensures Reaches(FromValue(u), 4) {
      UserIndex(u);
    }
  }

  lemma SameItself(m: Memory, cr3: nat)
    ensures SameTree(m, m, cr3, 4)
  {
  }

  /** Stores a byte through the page walk. What the frame would mean as a table is anything from then on. */
  method StoreByte(pager: Pager, v: nat, b: Byte)
    requires User(v) && Separate(pager.mem, pager.cr3, 4)
    requires Walk(pager.mem, pager.cr3, 4, FromValue(v)).Some? &&
      Walk(pager.mem, pager.cr3, 4, FromValue(v)).value.writable
    modifies pager`pages, pager`mem
    ensures SameTree(old(pager.mem), pager.mem, pager.cr3, 4)
    ensures forall u: nat | User(u) ::
      Load(pager.mem, pager.pages, pager.cr3, u)
      == if u == v then Some(b) else Load(old(pager.mem), old(pager.pages), pager.cr3, u)
  {
    hide Walk, Separate, SameTree, FromValue;
    ghost var m, pages := pager.mem, pager.pages;
    var f := Walk(pager.mem, pager.cr3, 4, FromValue(v)).value.frame;
    var bytes: Table := *;
    StoreKeepsTree(m, pager.cr3, v, bytes);
    pager.mem := pager.mem[f := bytes];
    pager.pages := pager.pages[f := PageAt(pager.pages, f)[v % BYTES_PER_FRAME := b]];
    SameLoads(m, pager.mem, pager.pages, pager.cr3);
    forall u: nat | User(u)
      ensures Load(m, pager.pages, pager.cr3, u) == if u == v then Some(b) else Load(m, pages, pager.cr3, u)
    {
      LoadAfterStore(m, pages, pager.cr3, v, b, u);
    }
  }

  /** Every byte of [dst, dst + n) can be written. */
  ghost predicate Writable(mem: Memory, cr3: nat, dst: nat, n: nat)
    requires USER_BASE <= dst && dst + n <= ADDRESS_END
  {
    forall v: nat :: dst <= v < dst + n ==>
      Walk(mem, cr3, 4, FromValue(v)).Some? && Walk(mem, cr3, 4, FromValue(v)).value.writable
  }

  method MemCopy(pager: Pager, dst: nat, src: seq<Byte>)
    requires USER_BASE <= dst && dst + |src| <= ADDRESS_END && Separate(pager.mem, pager.cr3, 4)
    requires Writable(pager.mem, pager.cr3, dst, |src|)
    modifies pager`pages, pager`mem
    ensures SameTree(old(pager.mem), pager.mem, pager.cr3, 4)
    ensures forall u: nat | User(u) ::
      Load(pager.mem, pager.pages, pager.cr3, u)
      == if dst <= u < dst + |src| then Some(src[u - dst]) else Load(old(pager.mem), old(pager.pages), pager.cr3, u)
  {
    hide Separate, Load, SameTree, Walk, FromValue;
    SameItself(pager.mem, pager.cr3);
    for i := 0 to |src|
      invariant SameTree(old(pager.mem), pager.mem, pager.cr3, 4)
      invariant forall u: nat | User(u) ::
        Load(pager.mem, pager.pages, pager.cr3, u)
        == if dst <= u < dst + i then Some(src[u - dst]) else Load(old(pager.mem), old(pager.pages), pager.cr3, u)
    {
      ghost var m := pager.mem;
      SameLoads(old(pager.mem), m, pager.pages, pager.cr3);
      StoreByte(pager, dst + i, src[i]);
      SameTreeThrough(old(pager.mem), m, pager.mem, pager.cr3);
    }
  }

  method MemZero(pager: Pager, dst: nat, n: nat)
    requires USER_BASE <= dst && dst + n <= ADDRESS_END && Separate(pager.mem, pager.cr3, 4)
    requires Writable(pager.mem, pager.cr3, dst, n)
    modifies pager`pages, pager`mem
    ensures SameTree(old(pager.mem), pager.mem, pager.cr3, 4)
    ensures forall u: nat | User(u) ::
      Load(pager.mem, pager.pages, pager.cr3, u)
      == if dst <= u < dst + n then Some(0) else Load(old(pager.mem), old(pager.pages), pager.cr3, u)
  {
    hide Separate, Load, SameTree, Walk, FromValue;
    SameItself(pager.mem, pager.cr3);
    for i := 0 to n
      invariant SameTree(old(pager.mem), pager.mem, pager.cr3, 4)
      invariant forall u: nat | User(u) ::
        Load(pager.mem, pager.pages, pager.cr3, u)
        == if dst <= u < dst + i then Some(0) else Load(old(pager.mem), old(pager.pages), pager.cr3, u)
    {
      ghost var m := pager.mem;
      SameLoads(old(pager.mem), m, pager.pages, pager.cr3);
      StoreByte(pager, dst + i, 0);
      SameTreeThrough(old(pager.mem), m, pager.mem, pager.cr3);
    }
  }

  /** Mapping more pages changes no byte that could be read before. */
  lemma LoadsKept(m0: Memory, s0: set<nat>, pages0: map<nat, PageData>, m: Memory, s: set<nat>,
      pages: map<nat, PageData>, cr3: nat, lo: nat, hi: nat)
    requires Owned(m0, cr3, 4, s0) && Progress(m0, s0, m, s, cr3, 4, lo, hi)
    requires forall x :: x in s0 ==> PageAt(pages, x) == PageAt(pages0, x)
    ensures forall u: nat | User(u) :: Load(m0, pages0, cr3, u).Some? ==>
      Load(m, pages, cr3, u) == Load(m0, pages0, cr3, u)
  {
    forall u: nat | User(u) && Load(m0, pages0, cr3, u).Some?
      ensures Load(m, pages, cr3, u) == Load(m0, pages0, cr3, u)
    {
      UserIndex(u);
      var a := FromValue(u);
      WalkInTree(m0, cr3, 4, a);
      assert Kept(Walk(m0, cr3, 4, a), Walk(m, cr3, 4, a));
    }
  }

  lemma SegmentWritable(image: seq<Byte>, ph: ProgramHeader, mem: Memory, cr3: nat)
    requires WellFormed(image, ph) && ph.isLoad
    requires var a := FromValue(ph.vaddr); Accessible(mem, cr3, 4, Index(a, 4),
      Index(a, 4) + TableShare(a, 4, PageCount(ph)))
    ensures Writable(mem, cr3, ph.vaddr, ph.memsz)
  {
    forall v: nat | ph.vaddr <= v < ph.vaddr + ph.memsz
      ensures Walk(mem, cr3, 4, FromValue(v)).Some? && Walk(mem, cr3, 4, FromValue(v)).value.writable
    {
      UserIndex(v);
      PageCountCovers(image, ph, v);
    }
  }

  predicate InSome(headers: seq<ProgramHeader>, v: nat) {
    exists i :: 0 <= i < |headers| && InSegment(headers[i], v)
  }

  /** Bytes outside the segment that could be read before read the same after. */
  ghost predicate KeptOutside(m0: Memory, pages0: map<nat, PageData>, m: Memory, pages: map<nat, PageData>, cr3: nat,
      ph: ProgramHeader) {
    forall u: nat | User(u) && !InSegment(ph, u) ::
      Load(m0, pages0, cr3, u).Some? ==> Load(m, pages, cr3, u) == Load(m0, pages0, cr3, u)
  }

  /** The same for all segments of an image. */
  ghost predicate KeptOutsideAll(m0: Memory, pages0: map<nat, PageData>, m: Memory, pages: map<nat, PageData>,
      cr3: nat, headers: seq<ProgramHeader>) {
    forall u: nat | User(u) && !InSome(headers, u) ::
      Load(m0, pages0, cr3, u).Some? ==> Load(m, pages, cr3, u) == Load(m0, pages0, cr3, u)
  }

  lemma Unchanged(m: Memory, pages: map<nat, PageData>, cr3: nat, headers: seq<ProgramHeader>)
    ensures KeptOutsideAll(m, pages, m, pages, cr3, headers)
  {
  }

  lemma KeptFurther(m0: Memory, pages0: map<nat, PageData>, m1: Memory, pages1: map<nat, PageData>, m2: Memory,
      pages2: map<nat, PageData>, cr3: nat, headers: seq<ProgramHeader>, n: nat)
    requires n < |headers|
    requires KeptOutsideAll(m0, pages0, m1, pages1, cr3, headers)
    requires KeptOutside(m1, pages1, m2, pages2, cr3, headers[n])
    ensures KeptOutsideAll(m0, pages0, m2, pages2, cr3, headers)
  {
  }

  lemma StillLoaded(m0: Memory, pages0: map<nat, PageData>, m: Memory, pages: map<nat, PageData>, cr3: nat,
      image: seq<Byte>, ph: ProgramHeader, other: ProgramHeader)
    requires WellFormed(image, ph) && Loaded(m0, pages0, cr3, image, ph)
    requires KeptOutside(m0, pages0, m, pages, cr3, other)
    requires forall v: nat :: InSegment(ph, v) ==> !InSegment(other, v)
    ensures Loaded(m, pages, cr3, image, ph)
  {
  }

  /** Maps one segment's pages, copies its file bytes and clears the rest. */
  method CopySegment(pager: Pager, image: seq<Byte>, ph: ProgramHeader) returns (err: Error)
    requires WellFormed(image, ph) && ph.isLoad && pager.TreeInv(pager.cr3, 4)
    modifies pager, pager.mm`frames, pager.mm.allocMap
    ensures pager.TreeInv(pager.cr3, 4)
    ensures KeptOutside(old(pager.mem), old(pager.pages), pager.mem, pager.pages, pager.cr3, ph)
    ensures err == Success ==> Loaded(pager.mem, pager.pages, pager.cr3, image, ph)
  {
    hide BitmapMemoryManager.Valid, Progress, Accessible, Separate, Load, Walk, SameTree, FromValue, InTree;
    ghost var m0, s0, pages0 := pager.mem, pager.mm.frames, pager.pages;
    var dst := FromValue(ph.vaddr);
    UserIndex(ph.vaddr);
    var num := PageCount(ph);
    err := pager.SetupPageMaps(dst, num);
    LoadsKept(m0, s0, pages0, pager.mem, pager.mm.frames, pager.pages, pager.cr3, Index(dst, 4),
              Index(dst, 4) + if err == Success then TableShare(dst, 4, num) else num);
    if err != Success {
      return err;
    }
    SegmentWritable(image, ph, pager.mem, pager.cr3);
    ghost var m1 := pager.mem;
    MemCopy(pager, ph.vaddr, image[ph.offset..ph.offset + ph.filesz]);
    SameLoads(m1, pager.mem, pager.pages, pager.cr3);
    ghost var m2 := pager.mem;
    MemZero(pager, ph.vaddr + ph.filesz, ph.memsz - ph.filesz);
    SameLoads(m2, pager.mem, pager.pages, pager.cr3);
  }

  /** Loads every PT_LOAD segment; afterwards each reads as its file bytes followed by zeros. */
  method CopyLoadSegments(pager: Pager, image: seq<Byte>, headers: seq<ProgramHeader>) returns (err: Error)
    requires pager.TreeInv(pager.cr3, 4)
    requires forall i :: 0 <= i < |headers| ==> WellFormed(image, headers[i])
    requires forall i, j, v: nat :: 0 <= i < j < |headers| && InSegment(headers[i], v) ==> !InSegment(headers[j], v)
    modifies pager, pager.mm`frames, pager.mm.allocMap
    ensures pager.TreeInv(pager.cr3, 4)
    ensures err == Success ==>
      forall i :: 0 <= i < |headers| && headers[i].isLoad ==>
        Loaded(pager.mem, pager.pages, pager.cr3, image, headers[i])
    ensures KeptOutsideAll(old(pager.mem), old(pager.pages), pager.mem, pager.pages, pager.cr3, headers)
  {
    hide BitmapMemoryManager.Valid, Separate, Owned, Loaded, KeptOutside, KeptOutsideAll;
    ghost var m0, pages0 := pager.mem, pager.pages;
    Unchanged(m0, pages0, pager.cr3, headers);
    for n := 0 to |headers|
      invariant pager.TreeInv(pager.cr3, 4)
      invariant forall i :: 0 <= i < n && headers[i].isLoad ==>
        Loaded(pager.mem, pager.pages, pager.cr3, image, headers[i])
      invariant KeptOutsideAll(m0, pages0, pager.mem, pager.pages, pager.cr3, headers)
    {
      if !headers[n].isLoad {
        continue;
      }
      ghost var m, pages := pager.mem, pager.pages;
      err := CopySegment(pager, image, headers[n]);
      KeptFurther(m0, pages0, m, pages, pager.mem, pager.pages, pager.cr3, headers, n);
      if err != Success {
        return err;
      }
      forall i | 0 <= i < n && headers[i].isLoad
        ensures Loaded(pager.mem, pager.pages, pager.cr3, image, headers[i])
      {
        StillLoaded(m, pages, pager.mem, pager.pages, pager.cr3, image, headers[i], headers[n]);
      }
    }
    return Success;
  }
}
