/**
 * Page tables as data: entries, linear addresses, and the tree of frames that a
 * table at a given level spans (Kernel/paging.hpp; Intel SDM Vol. 3A section 4.5).
 */
module PageTree {
  import opened Common

  const ENTRIES := 512
  const ADDR_FIELD := 0x100_0000_0000  // the 40-bit frame field of an entry

  /** The fields of PageMapEntry the code touches; `rest` stands for all its other bits. */
  datatype PageMapEntry = PageMapEntry(present: bool, writable: bool, user: bool, rest: nat, frame: nat) {
    function SetPointer(p: nat): PageMapEntry {
      this.(frame := p % ADDR_FIELD)
    }
  }

  const ZERO_ENTRY := PageMapEntry(false, false, false, 0, 0)

  type Table = t: seq<PageMapEntry> | |t| == ENTRIES witness seq(ENTRIES, _ => ZERO_ENTRY)

  function ZeroTable(): (t: Table)
    ensures forall i :: 0 <= i < ENTRIES ==> t[i] == ZERO_ENTRY
  {
    seq(ENTRIES, _ => ZERO_ENTRY)
  }

  type Memory = map<nat, Table>

  function TableAt(mem: Memory, f: nat): Table {
    if f in mem then mem[f] else ZeroTable()
  }

  /** The bit fields of LinearAddress4Level; `high` is the sign extension. */
  datatype AddressParts = AddressParts(offset: nat, page: nat, dir: nat, pdp: nat, pml4: nat, high: nat) {
    function Part(level: nat): nat {
      if level == 0 then offset
      else if level == 1 then page
      else if level == 2 then dir
      else if level == 3 then pdp
      else if level == 4 then pml4
      else 0
    }

    function SetPart(level: nat, value: nat): AddressParts {
      if level == 0 then this.(offset := value % 4096)
      else if level == 1 then this.(page := value % ENTRIES)
      else if level == 2 then this.(dir := value % ENTRIES)
      else if level == 3 then this.(pdp := value % ENTRIES)
      else if level == 4 then this.(pml4 := value % ENTRIES)
      else this
    }

    predicate Valid() {
      offset < 4096 && page < ENTRIES && dir < ENTRIES && pdp < ENTRIES && pml4 < ENTRIES && high < 65536
    }
  }

  type Address = a: AddressParts | a.Valid() witness AddressParts(0, 0, 0, 0, 0, 0)

  /** The address whose 64-bit value is v. */
  function FromValue(v: nat): Address
    requires v < 0x1_0000_0000_0000_0000
  {
    AddressParts(v % 4096, v / 4096 % 512, v / 0x20_0000 % 512, v / 0x4000_0000 % 512,
                 v / 0x80_0000_0000 % 512, v / 0x1_0000_0000_0000)
  }

  /** Number of 4 KiB pages that one table at this level spans. */
  function Span(level: nat): (s: nat)
    requires level <= 4
    ensures s > 0
  {
    if level == 0 then 1
    else if level == 1 then 512
    else if level == 2 then 0x4_0000
    else if level == 3 then 0x800_0000
    else 0x10_0000_0000
  }

  /** The number of a's page, counted from the start of the table at this level that a walks through. */
  function Index(a: Address, level: nat): (p: nat)
    requires level <= 4
    ensures p < Span(level)
  {
    if level == 0 then 0 else a.Part(level) * Span(level - 1) + Index(a, level - 1)
  }

  lemma ZeroIndex(a: Address, level: nat)
    requires level <= 4 && forall q :: 0 < q <= level ==> a.Part(q) == 0
    ensures Index(a, level) == 0
  {
  }

  /** The four indices of a page number put it together again. */
  lemma PageDigits(v: nat, p: nat)
    requires p == v / 4096
    ensures v / 0x20_0000 == p / 512 && v / 0x4000_0000 == p / 512 / 512
    ensures v / 0x80_0000_0000 == p / 512 / 512 / 512
  {
  }

  lemma FromValueIndex(v: nat)
    requires v < 0x1_0000_0000_0000_0000
    ensures Index(FromValue(v), 4) == v / 4096 % 0x10_0000_0000
  {
    var a, p := FromValue(v), v / 4096;
    PageDigits(v, p);
    FourDigits(p, p / 512, p / 512 / 512, p / 512 / 512 / 512);
    assert Index(a, 2) == Index(a, 1) + 512 * a.dir;
    assert Index(a, 3) == Index(a, 2) + 0x4_0000 * a.pdp;
  }

  lemma FourDigits(p: nat, q: nat, r: nat, s: nat)
    requires q == p / 512 && r == q / 512 && s == r / 512
    ensures p % 0x10_0000_0000 == p % 512 + 512 * (q % 512) + 0x4_0000 * (r % 512) + 0x800_0000 * (s % 512)
  {
  }

  /** Only the upper half of a PML4 table belongs to applications. */
  function FirstSlot(level: nat): nat {
    if level == 4 then 256 else 0
  }

  predicate Present(mem: Memory, f: nat, level: nat, i: nat) {
    FirstSlot(level) <= i < ENTRIES && TableAt(mem, f)[i].present
  }

  function Child(mem: Memory, f: nat, i: nat): nat
    requires i < ENTRIES
  {
    TableAt(mem, f)[i].frame
  }

  /** Frame x holds the table f of this level, or a table or page below it. */
  ghost predicate InTree(mem: Memory, f: nat, level: nat, x: nat)
    decreases level
  {
    x == f || (level > 0 && exists i :: Present(mem, f, level, i) && InTree(mem, Child(mem, f, i), level - 1, x))
  }

  /** Frame x holds the table f of this level, or a table below it; pages do not count. */
  ghost predicate IsTable(mem: Memory, f: nat, level: nat, x: nat)
    decreases level
  {
    level > 0 && (x == f || exists i :: Present(mem, f, level, i) && IsTable(mem, Child(mem, f, i), level - 1, x))
  }

  lemma {:induction false} TableInTree(mem: Memory, f: nat, level: nat, x: nat)
    requires IsTable(mem, f, level, x)
    ensures InTree(mem, f, level, x)
    decreases level
  {
    if x != f {
      var i :| Present(mem, f, level, i) && IsTable(mem, Child(mem, f, i), level - 1, x);
      TableInTree(mem, Child(mem, f, i), level - 1, x);
    }
  }

  /** Frame x is reached through entry i of table f. */
  ghost predicate InSlot(mem: Memory, f: nat, level: nat, i: nat, x: nat) {
    level > 0 && Present(mem, f, level, i) && InTree(mem, Child(mem, f, i), level - 1, x)
  }

  /** The entry of f that leads to frame x. */
  lemma SlotOf(mem: Memory, f: nat, level: nat, x: nat) returns (i: nat)
    requires InTree(mem, f, level, x) && x != f
    ensures InSlot(mem, f, level, i, x)
  {
    i :| Present(mem, f, level, i) && InTree(mem, Child(mem, f, i), level - 1, x);
  }

  /** The frames below f form a tree: no frame is reached by two walks. */
  ghost predicate Separate(mem: Memory, f: nat, level: nat)
    decreases level
  {
    level > 0 ==>
      && (forall i :: Present(mem, f, level, i) ==> Separate(mem, Child(mem, f, i), level - 1))
      && (forall i :: !InSlot(mem, f, level, i, f))
      && (forall i, j, x :: InSlot(mem, f, level, i, x) && InSlot(mem, f, level, j, x) ==> i == j)
  }

  /** A finished page walk: the page frame and the rights that every entry of the walk grants. */
  datatype Translation = Translation(frame: nat, writable: bool, user: bool)

  function Walk(mem: Memory, f: nat, level: nat, a: Address): Option<Translation>
    requires level <= 4
    decreases level
  {
    if level == 0 then Some(Translation(f, true, true))
    else if !EntryFor(mem, f, level, a).present then None
    else Narrow(EntryFor(mem, f, level, a), Walk(mem, EntryFor(mem, f, level, a).frame, level - 1, a))
  }

  /** The entry of table f that a's walk reads. */
  function EntryFor(mem: Memory, f: nat, level: nat, a: Address): PageMapEntry
    requires 1 <= level <= 4
  {
    TableAt(mem, f)[a.Part(level)]
  }

  /** Rights are granted by every entry of a walk or not at all (Intel SDM Vol. 3A section 4.6). */
  function Narrow(e: PageMapEntry, below: Option<Translation>): Option<Translation> {
    match below
    case None => None
    case Some(t) => Some(Translation(t.frame, e.writable && t.writable, e.user && t.user))
  }

  /** The walk of an address as the processor does it: four entries, picked by nine bits of the address each. */
  lemma WalkExact(mem: Memory, cr3: nat, v: nat)
    requires v < 0x1_0000_0000_0000_0000
    ensures var e4 := TableAt(mem, cr3)[v / 0x80_0000_0000 % 512];
            var e3 := TableAt(mem, e4.frame)[v / 0x4000_0000 % 512];
            var e2 := TableAt(mem, e3.frame)[v / 0x20_0000 % 512];
            var e1 := TableAt(mem, e2.frame)[v / 0x1000 % 512];
            Walk(mem, cr3, 4, FromValue(v)) ==
            if e4.present && e3.present && e2.present && e1.present
            then Some(Translation(e1.frame, e4.writable && e3.writable && e2.writable && e1.writable,
                                  e4.user && e3.user && e2.user && e1.user))
            else None
  {
    var a := FromValue(v);
    var e4 := TableAt(mem, cr3)[v / 0x80_0000_0000 % 512];
    var e3 := TableAt(mem, e4.frame)[v / 0x4000_0000 % 512];
    var e2 := TableAt(mem, e3.frame)[v / 0x20_0000 % 512];
    var e1 := TableAt(mem, e2.frame)[v / 0x1000 % 512];
    assert e4 == EntryFor(mem, cr3, 4, a) && e3 == EntryFor(mem, e4.frame, 3, a);
    assert e2 == EntryFor(mem, e3.frame, 2, a) && e1 == EntryFor(mem, e2.frame, 1, a);
    hide FromValue, EntryFor;
    var w1 := Walk(mem, e2.frame, 1, a);
    assert w1 == if e1.present then Narrow(e1, Some(Translation(e1.frame, true, true))) else None;
    var w2 := Walk(mem, e3.frame, 2, a);
    assert w2 == if e2.present then Narrow(e2, w1) else None;
    var w3 := Walk(mem, e4.frame, 3, a);
    assert w3 == if e3.present then Narrow(e3, w2) else None;
    assert Walk(mem, cr3, 4, a) == if e4.present then Narrow(e4, w3) else None;
  }
}
