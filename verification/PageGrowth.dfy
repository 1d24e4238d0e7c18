/** How a page-table tree changes when entries are added: frames, separation and translations. */
module PageGrowth {
  import opened Common
  import opened PageTree

  /** Both memories hold the same tables in every frame of the tree that f has in m0. */
  ghost predicate Agree(m0: Memory, m1: Memory, f: nat, level: nat) {
    forall x :: InTree(m0, f, level, x) ==> TableAt(m1, x) == TableAt(m0, x)
  }

  /** An address whose walk from a table of this level stays among the slots the tree consists of. */
  predicate Reaches(a: Address, level: nat) {
    a.Part(level) >= FirstSlot(level)
  }

  /** The same for the frames that hold tables; its pages may differ. */
  ghost predicate SameTables(m0: Memory, m1: Memory, f: nat, level: nat) {
    forall x :: IsTable(m0, f, level, x) ==> TableAt(m1, x) == TableAt(m0, x)
  }

  ghost predicate SameTree(m0: Memory, m1: Memory, f: nat, level: nat)
    requires level <= 4
  {
    && (forall x :: InTree(m1, f, level, x) <==> InTree(m0, f, level, x))
    && (forall i, x :: InSlot(m1, f, level, i, x) <==> InSlot(m0, f, level, i, x))
    && (Separate(m1, f, level) <==> Separate(m0, f, level))
    && (forall a: Address :: Reaches(a, level) ==> Walk(m1, f, level, a) == Walk(m0, f, level, a))
  }

  lemma SameBelow(m0: Memory, m1: Memory, f: nat, level: nat, below: nat, i: nat)
    requires level == below + 1 && SameTables(m0, m1, f, level) && Present(m0, f, level, i)
    ensures SameTables(m0, m1, Child(m0, f, i), below) && TableAt(m1, f) == TableAt(m0, f)
  {
    assert IsTable(m0, f, level, f);
    forall x | IsTable(m0, Child(m0, f, i), below, x) ensures IsTable(m0, f, level, x) {
    }
  }

  /** A tree is decided by its tables alone. */
  lemma {:induction false} TablesDecide(m0: Memory, m1: Memory, f: nat, level: nat)
    requires level <= 4 && SameTables(m0, m1, f, level)
    ensures SameTree(m0, m1, f, level)
    decreases level
  {
    if level > 0 {
      var below := level - 1;
      assert IsTable(m0, f, level, f);
      forall i | Present(m0, f, level, i)
        ensures Separate(m1, Child(m0, f, i), below) <==> Separate(m0, Child(m0, f, i), below)
        ensures forall x :: InSlot(m1, f, level, i, x) <==> InSlot(m0, f, level, i, x)
        ensures forall a: Address :: Walk(m1, Child(m0, f, i), below, a) == Walk(m0, Child(m0, f, i), below, a)
      {
        SameBelow(m0, m1, f, level, below, i);
        TablesDecide(m0, m1, Child(m0, f, i), below);
      }
      assert forall i :: Present(m1, f, level, i) <==> Present(m0, f, level, i);
      forall x | InTree(m0, f, level, x) ensures InTree(m1, f, level, x) {
        if x != f {
          var i := SlotOf(m0, f, level, x);
          assert InSlot(m1, f, level, i, x);
        }
      }
      forall x | InTree(m1, f, level, x) ensures InTree(m0, f, level, x) {
        if x != f {
          var i := SlotOf(m1, f, level, x);
          assert InSlot(m0, f, level, i, x);
        }
      }
      forall a: Address | Reaches(a, level)
        ensures Walk(m1, f, level, a) == Walk(m0, f, level, a)
      {
        assert Present(m0, f, level, a.Part(level)) || !EntryFor(m0, f, level, a).present;
      }
    }
  }

  /** So a tree depends only on the frames it holds. */
  lemma Framed(m0: Memory, m1: Memory, f: nat, level: nat)
    requires level <= 4 && Agree(m0, m1, f, level)
    ensures forall x :: InTree(m1, f, level, x) <==> InTree(m0, f, level, x)
    ensures forall i, x :: InSlot(m1, f, level, i, x) <==> InSlot(m0, f, level, i, x)
    ensures Separate(m1, f, level) <==> Separate(m0, f, level)
    ensures forall a: Address :: Reaches(a, level) ==> Walk(m1, f, level, a) == Walk(m0, f, level, a)
  {
    hide Separate, Walk, InSlot;
    forall x | IsTable(m0, f, level, x) ensures TableAt(m1, x) == TableAt(m0, x) {
      TableInTree(m0, f, level, x);
    }
    TablesDecide(m0, m1, f, level);
  }

  /** Every frame of the tree is marked allocated. */
  ghost predicate Owned(mem: Memory, f: nat, level: nat, frames: set<nat>) {
    forall x :: InTree(mem, f, level, x) ==> x in frames
  }

  /** From (m0, s0) to (m1, s1) the tree of f kept its frames and took only frames that were free. */
  ghost predicate Grown(m0: Memory, s0: set<nat>, m1: Memory, s1: set<nat>, f: nat, level: nat) {
    && Separate(m1, f, level)
    && (forall x :: InTree(m0, f, level, x) ==> InTree(m1, f, level, x))
    && (forall x :: InTree(m1, f, level, x) ==> InTree(m0, f, level, x) || x !in s0)
    && (forall x :: x in s1 <==> x in s0 || InTree(m1, f, level, x))
    && (forall x :: !InTree(m1, f, level, x) ==> TableAt(m1, x) == TableAt(m0, x))
    && (forall i :: 0 <= i < FirstSlot(level) ==> TableAt(m1, f)[i] == TableAt(m0, f)[i])
  }

  lemma GrownTransitive(m0: Memory, s0: set<nat>, m1: Memory, s1: set<nat>, m2: Memory, s2: set<nat>, f: nat,
      level: nat)
    requires Grown(m0, s0, m1, s1, f, level) && Grown(m1, s1, m2, s2, f, level)
    ensures Grown(m0, s0, m2, s2, f, level)
  {
  }

  /** A page that was mapped stays mapped to its frame with no fewer rights. */
  ghost predicate Kept(before: Option<Translation>, after: Option<Translation>) {
    before.Some? ==>
      && after.Some? && after.value.frame == before.value.frame
      && (before.value.writable ==> after.value.writable) && (before.value.user ==> after.value.user)
  }

  /** Old pages are kept and every new page has a number in [lo, hi). */
  ghost predicate MapsWithin(m0: Memory, m1: Memory, f: nat, level: nat, lo: nat, hi: nat)
    requires level <= 4
  {
    forall a: Address :: Reaches(a, level) ==>
      && Kept(Walk(m0, f, level, a), Walk(m1, f, level, a))
      && (Walk(m1, f, level, a).Some? && Walk(m0, f, level, a).None? ==> lo <= Index(a, level) < hi)
  }

  /** Every page number in [lo, hi) is mapped, writable and open to applications. */
  ghost predicate Accessible(m: Memory, f: nat, level: nat, lo: nat, hi: nat)
    requires level <= 4
  {
    forall a: Address :: Reaches(a, level) && lo <= Index(a, level) < hi ==>
      Walk(m, f, level, a).Some? && Walk(m, f, level, a).value.writable && Walk(m, f, level, a).value.user
  }

  lemma MapsTransitive(m0: Memory, m1: Memory, m2: Memory, f: nat, level: nat, lo: nat, mid: nat, hi: nat)
    requires level <= 4 && lo <= mid <= hi
    requires MapsWithin(m0, m1, f, level, lo, mid) && MapsWithin(m1, m2, f, level, mid, hi)
    ensures MapsWithin(m0, m2, f, level, lo, hi)
    ensures Accessible(m1, f, level, lo, mid) && Accessible(m2, f, level, mid, hi) ==> Accessible(m2, f, level, lo, hi)
  {
  }

  /** Slots that hold no page of [lo, hi) keep their entry and everything below it. */
  ghost predicate SlotsKept(m0: Memory, m1: Memory, f: nat, level: nat, lo: nat, hi: nat)
    requires 1 <= level <= 4
  {
    forall j {:trigger Outside(j, level, lo, hi)} :: 0 <= j < ENTRIES && Outside(j, level, lo, hi) ==>
      && TableAt(m1, f)[j] == TableAt(m0, f)[j]
      && (Present(m0, f, level, j) ==> Agree(m0, m1, Child(m0, f, j), level - 1))
  }

  predicate Outside(j: nat, level: nat, lo: nat, hi: nat)
    requires 1 <= level <= 4
  {
    hi <= j * Span(level - 1) || (j + 1) * Span(level - 1) <= lo
  }

  lemma SlotsTransitive(m0: Memory, m1: Memory, m2: Memory, f: nat, level: nat, lo: nat, mid: nat, hi: nat)
    requires 1 <= level <= 4 && lo <= mid <= hi
    requires SlotsKept(m0, m1, f, level, lo, mid) && SlotsKept(m1, m2, f, level, mid, hi)
    ensures SlotsKept(m0, m2, f, level, lo, hi)
  {
    forall j | 0 <= j < ENTRIES && Outside(j, level, lo, hi)
      ensures TableAt(m2, f)[j] == TableAt(m0, f)[j]
      ensures Present(m0, f, level, j) ==> Agree(m0, m2, Child(m0, f, j), level - 1)
    {
      assert Outside(j, level, lo, mid) && Outside(j, level, mid, hi);
      if Present(m0, f, level, j) {
        Framed(m0, m1, Child(m0, f, j), level - 1);
      }
    }
  }

  /** m1 is m with entry i of table f made present, pointing to g and carrying at least its old rights. */
  ghost predicate Linked(m: Memory, s: set<nat>, m1: Memory, s1: set<nat>, f: nat, level: nat, i: nat, g: nat) {
    && FirstSlot(level) <= i < ENTRIES
    && (forall j :: 0 <= j < ENTRIES && j != i ==> TableAt(m1, f)[j] == TableAt(m, f)[j])
    && (var e, e1 := TableAt(m, f)[i], TableAt(m1, f)[i];
        && e1.present && e1.writable && e1.user && e1.frame == g
        && if e.present then
             g == e.frame && s1 == s && forall x :: x != f ==> TableAt(m1, x) == TableAt(m, x)
           else
             && g !in s && s1 == s + {g} && TableAt(m1, g) == ZeroTable()
             && forall x :: x != f && x != g ==> TableAt(m1, x) == TableAt(m, x))
  }

  lemma ZeroTree(m: Memory, g: nat, level: nat)
    requires level <= 4 && TableAt(m, g) == ZeroTable()
    ensures Separate(m, g, level)
    ensures forall x :: InTree(m, g, level, x) <==> x == g
    ensures level > 0 ==> forall a: Address :: Walk(m, g, level, a) == None
  {
  }

  /** Right after linking, the child's tree is what it was, or the single fresh frame. */
  lemma LinkedChild(m: Memory, s: set<nat>, m1: Memory, s1: set<nat>, f: nat, level: nat, below: nat, i: nat, g: nat)
    requires 1 <= level <= 4 && below == level - 1 && Separate(m, f, level) && Owned(m, f, level, s)
    requires Linked(m, s, m1, s1, f, level, i, g)
    ensures Separate(m1, g, below) && Owned(m1, g, below, s1) && !InTree(m1, g, below, f)
    ensures if TableAt(m, f)[i].present
            then (forall x :: InTree(m1, g, below, x) <==> InSlot(m, f, level, i, x))
                 && forall a: Address :: Walk(m1, g, below, a) == Walk(m, g, below, a)
            else (forall x :: InTree(m1, g, below, x) <==> x == g)
                 && forall a: Address :: Walk(m1, g, below, a).Some? ==> level == 1
  {
    assert InTree(m, f, level, f);
    if TableAt(m, f)[i].present {
      assert forall x :: InTree(m, g, below, x) <==> InSlot(m, f, level, i, x);
      Framed(m, m1, g, below);
    } else {
      ZeroTree(m1, g, below);
    }
  }

  /** After the child has grown, every other slot of f still holds the tree it held. */
  lemma SiblingsKept(m: Memory, s: set<nat>, m1: Memory, s1: set<nat>, m2: Memory, s2: set<nat>, f: nat, level: nat,
      below: nat, i: nat, g: nat)
    requires 1 <= level <= 4 && below == level - 1 && Separate(m, f, level) && Owned(m, f, level, s)
    requires Linked(m, s, m1, s1, f, level, i, g) && Grown(m1, s1, m2, s2, g, below)
    ensures TableAt(m2, f) == TableAt(m1, f)
    ensures forall j :: Present(m, f, level, j) && j != i ==> Agree(m, m2, Child(m, f, j), below)
    ensures forall x :: InTree(m2, g, below, x) ==> InSlot(m, f, level, i, x) || x !in s
  {
    LinkedChild(m, s, m1, s1, f, level, below, i, g);
    assert InTree(m, f, level, f);
    forall j, x | Present(m, f, level, j) && j != i && InTree(m, Child(m, f, j), below, x)
      ensures TableAt(m2, x) == TableAt(m, x)
    {
      assert InSlot(m, f, level, j, x) && InTree(m, f, level, x);
      assert !InSlot(m, f, level, j, f);
      assert x != f && x in s;
      assert !InSlot(m, f, level, i, x);
      assert !InTree(m1, g, below, x);
      assert !InTree(m2, g, below, x);
    }
  }

  lemma SlotStep(m: Memory, s: set<nat>, m1: Memory, s1: set<nat>, m2: Memory, s2: set<nat>, f: nat, level: nat,
      below: nat, i: nat, g: nat)
    requires 1 <= level <= 4 && below == level - 1 && Separate(m, f, level) && Owned(m, f, level, s)
    requires Linked(m, s, m1, s1, f, level, i, g) && Grown(m1, s1, m2, s2, g, below)
    ensures forall j, x :: j != i ==> (InSlot(m2, f, level, j, x) <==> InSlot(m, f, level, j, x))
    ensures forall x :: InSlot(m2, f, level, i, x) <==> InTree(m2, g, below, x)
    ensures forall j :: j != i && Present(m2, f, level, j) ==> Separate(m2, Child(m2, f, j), below)
  {
    SiblingsKept(m, s, m1, s1, m2, s2, f, level, below, i, g);
    forall j | j != i && Present(m, f, level, j)
      ensures Separate(m2, Child(m, f, j), below)
      ensures forall x :: InTree(m2, Child(m, f, j), below, x) <==> InTree(m, Child(m, f, j), below, x)
    {
      Framed(m, m2, Child(m, f, j), below);
    }
    assert forall j :: j != i ==> (Present(m2, f, level, j) <==> Present(m, f, level, j));
  }

  /** Growing one child grows the table. */
  lemma GrownThroughChild(m: Memory, s: set<nat>, m1: Memory, s1: set<nat>, m2: Memory, s2: set<nat>, f: nat,
      level: nat, below: nat, i: nat, g: nat)
    requires 1 <= level <= 4 && below == level - 1 && Separate(m, f, level) && Owned(m, f, level, s)
    requires Linked(m, s, m1, s1, f, level, i, g) && Grown(m1, s1, m2, s2, g, below)
    ensures Grown(m, s, m2, s2, f, level)
  {
    LinkedChild(m, s, m1, s1, f, level, below, i, g);
    SiblingsKept(m, s, m1, s1, m2, s2, f, level, below, i, g);
    SlotStep(m, s, m1, s1, m2, s2, f, level, below, i, g);
    assert InTree(m, f, level, f);
    forall x | InTree(m, f, level, x) ensures InTree(m2, f, level, x) {
      if x != f {
        var j := SlotOf(m, f, level, x);
        assert j == i ==> InTree(m1, g, below, x);
        assert InSlot(m2, f, level, j, x);
      }
    }
    forall x | InTree(m2, f, level, x) ensures InTree(m, f, level, x) || x !in s {
      if x != f {
        var j := SlotOf(m2, f, level, x);
        assert j == i ==> InTree(m2, g, below, x);
        assert j != i ==> InSlot(m, f, level, j, x);
      }
    }
    assert InTree(m1, g, below, g) && InSlot(m2, f, level, i, g);
    forall x ensures x in s2 <==> x in s || InTree(m2, f, level, x) {
      assert InTree(m2, g, below, x) ==> InSlot(m2, f, level, i, x);
      if InTree(m2, f, level, x) && x != f {
        var j := SlotOf(m2, f, level, x);
        assert j == i || (InSlot(m, f, level, j, x) && InTree(m, f, level, x));
      }
    }
    forall x | !InTree(m2, f, level, x) ensures TableAt(m2, x) == TableAt(m, x) {
      assert InTree(m2, f, level, f);
      assert !InSlot(m2, f, level, i, x);
    }
    forall j, k, x | InSlot(m2, f, level, j, x) && InSlot(m2, f, level, k, x) ensures j == k {
      if j == i && k != i {
        assert InSlot(m, f, level, k, x) && InTree(m, f, level, x);
      } else if j != i && k == i {
        assert InSlot(m, f, level, j, x) && InTree(m, f, level, x);
      }
    }
  }

  /** The pages of slot i are exactly those numbered from i * Span on. */
  lemma IndexInSlot(a: Address, level: nat, below: nat, i: nat, lo: nat, hi: nat)
    requires 1 <= level <= 4 && below == level - 1 && lo <= hi <= Span(below)
    ensures i * Span(below) + lo <= Index(a, level) < i * Span(below) + hi
            <==> a.Part(level) == i && lo <= Index(a, below) < hi
  {
    InBlock(a.Part(level), i, Span(below), Index(a, below), lo, hi);
    hide Span;
  }

  /** A number, given by its block and its place there, lies in a part of block i exactly if its block is i. */
  lemma InBlock(b: nat, i: nat, size: nat, x: nat, lo: nat, hi: nat)
    requires x < size && lo <= hi <= size
    ensures i * size + lo <= b * size + x < i * size + hi <==> b == i && lo <= x < hi
  {
    var before, start := b * size, i * size;
    if b < i {
      NextBlock(b, i, size);
    } else if b > i {
      NextBlock(i, b, size);
    }
  }

  lemma {:induction false} NextBlock(b: nat, i: nat, size: nat)
    requires b < i
    ensures b * size + size <= i * size
  {
    if b + 1 < i {
      NextBlock(b, i - 1, size);
    }
    assert i * size == (i - 1) * size + size;
  }

  /** Walks through other slots are what they were; a walk through slot i goes on in the child. */
  lemma WalkThroughChild(m: Memory, s: set<nat>, m1: Memory, s1: set<nat>, m2: Memory, s2: set<nat>, f: nat,
      level: nat, below: nat, i: nat, g: nat, a: Address)
    requires 1 <= level <= 4 && below == level - 1 && Reaches(a, level)
    requires Separate(m, f, level) && Owned(m, f, level, s)
    requires Linked(m, s, m1, s1, f, level, i, g) && Grown(m1, s1, m2, s2, g, below)
    ensures a.Part(level) != i ==> Walk(m2, f, level, a) == Walk(m, f, level, a)
    ensures a.Part(level) == i ==> Walk(m2, f, level, a) == Walk(m2, g, below, a)
    ensures a.Part(level) == i && Kept(Walk(m1, g, below, a), Walk(m2, g, below, a)) ==>
              Kept(Walk(m, f, level, a), Walk(m2, f, level, a))
    ensures a.Part(level) == i && Walk(m, f, level, a).None? && below > 0 ==> Walk(m1, g, below, a).None?
  {
    LinkedChild(m, s, m1, s1, f, level, below, i, g);
    SiblingsKept(m, s, m1, s1, m2, s2, f, level, below, i, g);
    var j := a.Part(level);
    if j != i {
      assert EntryFor(m2, f, level, a) == EntryFor(m, f, level, a);
      if EntryFor(m, f, level, a).present {
        assert Present(m, f, level, j);
        Framed(m, m2, Child(m, f, j), below);
      }
    } else {
      assert EntryFor(m2, f, level, a) == TableAt(m1, f)[i] && EntryFor(m, f, level, a) == TableAt(m, f)[i];
    }
  }

  /** What growing the child does to the translations of the table. */
  lemma MapsThroughChild(m: Memory, s: set<nat>, m1: Memory, s1: set<nat>, m2: Memory, s2: set<nat>, f: nat,
      level: nat, below: nat, i: nat, g: nat, lo: nat, hi: nat)
    requires 1 <= level <= 4 && below == level - 1 && lo <= hi <= Span(below) && (below == 0 ==> lo == 0 && hi == 1)
    requires Separate(m, f, level) && Owned(m, f, level, s)
    requires Linked(m, s, m1, s1, f, level, i, g) && Grown(m1, s1, m2, s2, g, below)
    requires MapsWithin(m1, m2, g, below, lo, hi)
    ensures MapsWithin(m, m2, f, level, i * Span(below) + lo, i * Span(below) + hi)
    ensures Accessible(m2, g, below, lo, hi) ==> Accessible(m2, f, level, i * Span(below) + lo, i * Span(below) + hi)
  {
    forall a: Address | Reaches(a, level)
      ensures Kept(Walk(m, f, level, a), Walk(m2, f, level, a))
      ensures Walk(m2, f, level, a).Some? && Walk(m, f, level, a).None? ==>
                i * Span(below) + lo <= Index(a, level) < i * Span(below) + hi
    {
      IndexInSlot(a, level, below, i, lo, hi);
      WalkThroughChild(m, s, m1, s1, m2, s2, f, level, below, i, g, a);
      assert Reaches(a, below);
      assert Kept(Walk(m1, g, below, a), Walk(m2, g, below, a));
    }
    if Accessible(m2, g, below, lo, hi) {
      forall a: Address | Reaches(a, level) && i * Span(below) + lo <= Index(a, level) < i * Span(below) + hi
        ensures Walk(m2, f, level, a).Some? && Walk(m2, f, level, a).value.writable && Walk(m2, f, level, a).value.user
      {
        IndexInSlot(a, level, below, i, lo, hi);
        WalkThroughChild(m, s, m1, s1, m2, s2, f, level, below, i, g, a);
        assert Reaches(a, below);
      }
    }
  }

  lemma SlotsThroughChild(m: Memory, s: set<nat>, m1: Memory, s1: set<nat>, m2: Memory, s2: set<nat>, f: nat,
      level: nat, below: nat, i: nat, g: nat, lo: nat, hi: nat)
    requires 1 <= level <= 4 && below == level - 1 && lo < hi <= Span(below)
    requires Separate(m, f, level) && Owned(m, f, level, s)
    requires Linked(m, s, m1, s1, f, level, i, g) && Grown(m1, s1, m2, s2, g, below)
    ensures SlotsKept(m, m2, f, level, i * Span(below) + lo, i * Span(below) + hi)
  {
    SiblingsKept(m, s, m1, s1, m2, s2, f, level, below, i, g);
    assert !Outside(i, level, i * Span(below) + lo, i * Span(below) + hi) by {
      assert (i + 1) * Span(below) == i * Span(below) + Span(below);
    }
  }

  /** All that a run of SetupPageMap promises so far: pages [lo, hi) of table f have been visited. */
  ghost predicate Progress(m0: Memory, s0: set<nat>, m: Memory, s: set<nat>, f: nat, level: nat, lo: nat, hi: nat)
    requires 1 <= level <= 4
  {
    && Grown(m0, s0, m, s, f, level)
    && MapsWithin(m0, m, f, level, lo, hi)
    && SlotsKept(m0, m, f, level, lo, hi)
  }

  lemma NoProgress(m: Memory, s: set<nat>, f: nat, level: nat, lo: nat)
    requires 1 <= level <= 4 && Separate(m, f, level) && Owned(m, f, level, s)
    ensures Progress(m, s, m, s, f, level, lo, lo) && Accessible(m, f, level, lo, lo)
  {
  }

  lemma ProgressInv(m0: Memory, s0: set<nat>, m: Memory, s: set<nat>, f: nat, level: nat, lo: nat, hi: nat)
    requires 1 <= level <= 4 && Progress(m0, s0, m, s, f, level, lo, hi)
    ensures Separate(m, f, level) && Owned(m, f, level, s) && s0 <= s
  {
  }

  lemma ProgressGrown(m0: Memory, s0: set<nat>, m: Memory, s: set<nat>, f: nat, level: nat, lo: nat, hi: nat)
    requires 1 <= level <= 4 && Progress(m0, s0, m, s, f, level, lo, hi)
    ensures Grown(m0, s0, m, s, f, level) && MapsWithin(m0, m, f, level, lo, hi)
  {
  }

  /** A page frame has no entries: there is nothing below it to map. */
  lemma LeafGrown(m: Memory, s: set<nat>, g: nat)
    requires Separate(m, g, 0) && Owned(m, g, 0, s)
    ensures Grown(m, s, m, s, g, 0) && MapsWithin(m, m, g, 0, 0, 1) && Accessible(m, g, 0, 0, 1)
  {
  }

  lemma Widen(m0: Memory, s0: set<nat>, m: Memory, s: set<nat>, f: nat, level: nat, lo: nat, hi: nat, hi': nat)
    requires 1 <= level <= 4 && hi <= hi'
    requires Progress(m0, s0, m, s, f, level, lo, hi)
    ensures Progress(m0, s0, m, s, f, level, lo, hi')
  {
    forall j | 0 <= j < ENTRIES && Outside(j, level, lo, hi')
      ensures TableAt(m, f)[j] == TableAt(m0, f)[j]
      ensures Present(m0, f, level, j) ==> Agree(m0, m, Child(m0, f, j), level - 1)
    {
      assert Outside(j, level, lo, hi);
    }
  }

  lemma ProgressTransitive(m0: Memory, s0: set<nat>, m: Memory, s: set<nat>, m2: Memory, s2: set<nat>, f: nat,
      level: nat, lo: nat, mid: nat, hi: nat)
    requires 1 <= level <= 4 && lo <= mid <= hi
    requires Progress(m0, s0, m, s, f, level, lo, mid) && Progress(m, s, m2, s2, f, level, mid, hi)
    ensures Progress(m0, s0, m2, s2, f, level, lo, hi)
    ensures Accessible(m, f, level, lo, mid) && Accessible(m2, f, level, mid, hi) ==> Accessible(m2, f, level, lo, hi)
  {
    hide Grown, MapsWithin, SlotsKept, Accessible, Linked, Separate, Owned;
    GrownTransitive(m0, s0, m, s, m2, s2, f, level);
    MapsTransitive(m0, m, m2, f, level, lo, mid, hi);
    SlotsTransitive(m0, m, m2, f, level, lo, mid, hi);
  }

  /** Growing child g of entry i by pages [from, from + k) is progress of the table itself. */
  lemma ProgressThroughChild(m: Memory, s: set<nat>, m1: Memory, s1: set<nat>, m2: Memory, s2: set<nat>, f: nat,
      level: nat, below: nat, i: nat, g: nat, from: nat, k: nat)
    requires 1 <= level <= 4 && below == level - 1 && k > 0 && from + k <= Span(below) && (below == 0 ==> k == 1)
    requires Separate(m, f, level) && Owned(m, f, level, s)
    requires Linked(m, s, m1, s1, f, level, i, g) && Grown(m1, s1, m2, s2, g, below)
    requires MapsWithin(m1, m2, g, below, from, from + k)
    ensures Progress(m, s, m2, s2, f, level, i * Span(below) + from, i * Span(below) + from + k)
    ensures Accessible(m2, g, below, from, from + k) ==>
              Accessible(m2, f, level, i * Span(below) + from, i * Span(below) + from + k)
  {
    hide Grown, MapsWithin, SlotsKept, Accessible, Linked, Separate, Owned;
    GrownThroughChild(m, s, m1, s1, m2, s2, f, level, below, i, g);
    MapsThroughChild(m, s, m1, s1, m2, s2, f, level, below, i, g, from, from + k);
    SlotsThroughChild(m, s, m1, s1, m2, s2, f, level, below, i, g, from, from + k);
  }

  /** Pages beyond the end of a table do not exist. */
  lemma ClipMaps(m0: Memory, m1: Memory, f: nat, level: nat, lo: nat, hi: nat, hi': nat)
    requires level <= 4 && MapsWithin(m0, m1, f, level, lo, hi) && (hi <= hi' || Span(level) <= hi')
    ensures MapsWithin(m0, m1, f, level, lo, hi')
  {
  }
}
