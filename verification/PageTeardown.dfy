/** What is left of a page-table tree while CleanPageMap walks over the entries of a table. */
module PageTeardown {
  import opened Common
  import opened PageTree
  import opened PageGrowth

  /** Frame x is reached through one of the first i entries of f. */
  ghost predicate Below(mem: Memory, f: nat, level: nat, i: nat, x: nat) {
    exists j: nat :: j < i && InSlot(mem, f, level, j, x)
  }

  function Cleared(e: PageMapEntry): PageMapEntry {
    if e.present then ZERO_ENTRY else e
  }

  lemma BelowNext(mem: Memory, f: nat, level: nat, i: nat)
    ensures forall x :: Below(mem, f, level, i + 1, x) <==> Below(mem, f, level, i, x) || InSlot(mem, f, level, i, x)
  {
  }

  /** All entries of a table together lead to its tree without the table itself. */
  lemma BelowAll(mem: Memory, f: nat, level: nat)
    requires 1 <= level <= 3 && Separate(mem, f, level)
    ensures forall x :: Below(mem, f, level, ENTRIES, x) <==> InTree(mem, f, level, x) && x != f
  {
    forall x | InTree(mem, f, level, x) && x != f ensures Below(mem, f, level, ENTRIES, x) {
      var i := SlotOf(mem, f, level, x);
    }
  }

  /** While the first i entries are cleared, the tree behind entry i is untouched. */
  lemma SlotIntact(m0: Memory, s0: set<nat>, m: Memory, s: set<nat>, f: nat, level: nat, i: nat)
    requires 1 <= level <= 3 && Separate(m0, f, level) && Owned(m0, f, level, s0) && i < ENTRIES &&
      TableAt(m0, f)[i].present
    requires forall x :: x != f && !Below(m0, f, level, i, x) ==> TableAt(m, x) == TableAt(m0, x)
    requires TableAt(m, f)[i] == TableAt(m0, f)[i]
    requires forall x :: x in s <==> x in s0 && !Below(m0, f, level, i, x)
    ensures Owned(m, Child(m0, f, i), level - 1, s)
    ensures forall x :: InSlot(m, f, level, i, x) <==> InSlot(m0, f, level, i, x)
    ensures !InTree(m, Child(m0, f, i), level - 1, f)
    ensures Separate(m, Child(m0, f, i), level - 1)
    ensures forall x :: InSlot(m0, f, level, i, x) ==> x != f && !Below(m0, f, level, i, x)
  {
    var below := level - 1;
    assert Present(m0, f, level, i);
    assert forall x :: InTree(m0, Child(m0, f, i), below, x) <==> InSlot(m0, f, level, i, x);
    Framed(m0, m, Child(m0, f, i), below);
    assert forall x :: InSlot(m0, f, level, i, x) ==> InTree(m0, f, level, x);
  }

  /** Clearing the PML4 entry leaves the tree behind it complete, only unreachable. */
  lemma SlotDetached(m0: Memory, s0: set<nat>, m1: Memory, f: nat, i: nat)
    requires Separate(m0, f, 4) && Owned(m0, f, 4, s0) && Present(m0, f, 4, i)
    requires forall x :: x != f ==> TableAt(m1, x) == TableAt(m0, x)
    ensures Separate(m1, Child(m0, f, i), 3) && Owned(m1, Child(m0, f, i), 3, s0)
    ensures forall x :: InTree(m1, Child(m0, f, i), 3, x) <==> InSlot(m0, f, 4, i, x)
    ensures !InTree(m1, Child(m0, f, i), 3, f)
  {
    assert forall x :: InTree(m0, Child(m0, f, i), 3, x) <==> InSlot(m0, f, 4, i, x);
    Framed(m0, m1, Child(m0, f, i), 3);
    assert forall x :: InSlot(m0, f, 4, i, x) ==> InTree(m0, f, 4, x);
  }

  /** With slot i gone and only its frames changed, all other slots are as they were. */
  lemma SlotRemoved(m0: Memory, s0: set<nat>, m1: Memory, m: Memory, s: set<nat>, f: nat, i: nat)
    requires Separate(m0, f, 4) && Owned(m0, f, 4, s0) && Present(m0, f, 4, i)
    requires TableAt(m, f) == TableAt(m0, f)[i := ZERO_ENTRY]
    requires forall x :: x != f && !InSlot(m0, f, 4, i, x) ==> TableAt(m, x) == TableAt(m0, x)
    requires forall x :: x in s <==> x in s0 && !InSlot(m0, f, 4, i, x)
    ensures Separate(m, f, 4) && Owned(m, f, 4, s)
    ensures forall a: Address :: Reaches(a, 4) ==> Walk(m, f, 4, a) == if a.pml4 == i then None else Walk(m0, f, 4, a)
  {
    forall j | Present(m0, f, 4, j) && j != i
      ensures Separate(m, Child(m0, f, j), 3)
      ensures forall x :: InSlot(m, f, 4, j, x) <==> InSlot(m0, f, 4, j, x)
      ensures forall a: Address :: Walk(m, Child(m0, f, j), 3, a) == Walk(m0, Child(m0, f, j), 3, a)
    {
      assert forall x :: InTree(m0, Child(m0, f, j), 3, x) <==> InSlot(m0, f, 4, j, x);
      Framed(m0, m, Child(m0, f, j), 3);
    }
    assert forall j :: Present(m, f, 4, j) <==> Present(m0, f, 4, j) && j != i;
    assert InTree(m0, f, 4, f);
    forall x | InTree(m, f, 4, x) ensures x in s {
      if x != f {
        var j := SlotOf(m, f, 4, x);
        assert InSlot(m0, f, 4, j, x) && InTree(m0, f, 4, x);
      }
    }
    forall a: Address | Reaches(a, 4)
      ensures Walk(m, f, 4, a) == if a.pml4 == i then Option.None else Walk(m0, f, 4, a)
    {
      assert Present(m0, f, 4, a.pml4) || !EntryFor(m0, f, 4, a).present;
    }
  }

  /** Growth inside PML4 slot i leaves every other slot alone. */
  lemma OtherSlot(m0: Memory, m: Memory, f: nat, addr: Address, n: nat, j: nat)
    requires Reaches(addr, 4) && Index(addr, 3) + n <= Span(3)
    requires SlotsKept(m0, m, f, 4, Index(addr, 4), Index(addr, 4) + n)
    requires j < ENTRIES && j != addr.pml4
    ensures TableAt(m, f)[j] == TableAt(m0, f)[j]
    ensures forall x :: InSlot(m, f, 4, j, x) <==> InSlot(m0, f, 4, j, x)
    ensures forall a: Address :: Reaches(a, 4) && a.pml4 == j ==> Walk(m, f, 4, a) == Walk(m0, f, 4, a)
  {
    assert Outside(j, 4, Index(addr, 4), Index(addr, 4) + n);
    if Present(m0, f, 4, j) {
      Framed(m0, m, Child(m0, f, j), 3);
      assert forall x :: InTree(m, Child(m0, f, j), 3, x) <==> InTree(m0, Child(m0, f, j), 3, x);
    }
    forall a: Address | Reaches(a, 4) && a.pml4 == j ensures Walk(m, f, 4, a) == Walk(m0, f, 4, a) {
      assert EntryFor(m, f, 4, a) == EntryFor(m0, f, 4, a) == TableAt(m0, f)[j];
      assert Reaches(a, 3);
    }
  }

  /** Growth inside one empty PML4 slot adds frames only behind that slot. */
  lemma OneSlotGrown(m0: Memory, s0: set<nat>, m: Memory, s: set<nat>, f: nat, addr: Address, n: nat, k: nat)
    requires Reaches(addr, 4) && !TableAt(m0, f)[addr.pml4].present && Index(addr, 3) + n <= Span(3) && k <= n
    requires Progress(m0, s0, m, s, f, 4, Index(addr, 4), Index(addr, 4) + k)
    requires Separate(m0, f, 4) && Owned(m0, f, 4, s0)
    ensures forall x :: x in s0 <==> x in s && !InSlot(m, f, 4, addr.pml4, x)
    ensures forall a: Address :: Reaches(a, 4) && a.pml4 != addr.pml4 ==> Walk(m, f, 4, a) == Walk(m0, f, 4, a)
    ensures forall a: Address :: Reaches(a, 4) && a.pml4 == addr.pml4 ==> Walk(m0, f, 4, a) == None
  {
    hide SlotsKept, MapsWithin, Separate;
    var i := addr.pml4;
    forall a: Address | Reaches(a, 4) && a.pml4 != i ensures Walk(m, f, 4, a) == Walk(m0, f, 4, a) {
      OtherSlot(m0, m, f, addr, k, a.pml4);
    }
    forall x ensures x in s0 <==> x in s && !InSlot(m, f, 4, i, x) {
      OneSlotFrame(m0, s0, m, s, f, addr, k, x);
    }
  }

  lemma OneSlotFrame(m0: Memory, s0: set<nat>, m: Memory, s: set<nat>, f: nat, addr: Address, k: nat, x: nat)
    requires Reaches(addr, 4) && !TableAt(m0, f)[addr.pml4].present && Index(addr, 3) + k <= Span(3)
    requires Progress(m0, s0, m, s, f, 4, Index(addr, 4), Index(addr, 4) + k)
    requires Owned(m0, f, 4, s0)
    ensures x in s0 <==> x in s && !InSlot(m, f, 4, addr.pml4, x)
  {
    hide SlotsKept, MapsWithin;
    var i := addr.pml4;
    assert InTree(m0, f, 4, f);
    if x in s0 && InSlot(m, f, 4, i, x) {
      assert InTree(m, f, 4, x) && x != f;
      var j := SlotOf(m0, f, 4, x);
      OtherSlot(m0, m, f, addr, k, j);
    } else if x in s && x !in s0 {
      var j := SlotOf(m, f, 4, x);
      if j != i {
        OtherSlot(m0, m, f, addr, k, j);
      }
    }
  }
}
