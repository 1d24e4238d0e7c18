/** Cluster chains, directories and short names of a FAT volume held in memory (Kernel/fat.cpp, Kernel/fat.hpp). */
module Fat {

  type Byte = b: nat | b < 256

  const END_OF_CLUSTER_CHAIN := 0x0FFF_FFFF
  const FIRST_END_MARK := 0x0FFF_FFF8
  const ENTRY_SIZE := 32
  const SPACE := 0x20
  const DOT := 0x2E

  function Le16(s: seq<Byte>, at: int): nat
    requires 0 <= at && at + 2 <= |s|
  {
    (s[at] as int) + 0x100 * (s[at + 1] as int)
  }

  function Le32(s: seq<Byte>, at: int): nat
    requires 0 <= at && at + 4 <= |s|
  {
    Le16(s, at) + 0x1_0000 * Le16(s, at + 2)
  }

  /** The fields of the boot sector that locate clusters, and the bytes of the volume. */
  datatype Volume = Volume(bytesPerSector: nat, sectorsPerCluster: nat, reservedSectorCount: nat, numFats: nat,
    fatSize32: nat,
                           rootCluster: nat, image: seq<Byte>) {
    function BytesPerCluster(): nat {
      bytesPerSector * sectorsPerCluster
    }

    /** Where a cluster's data start. */
    function ClusterOffset(cluster: nat): int {
      (reservedSectorCount + numFats * fatSize32 + (cluster - 2) * sectorsPerCluster) * bytesPerSector
    }

    function FatOffset(cluster: nat): int {
      reservedSectorCount * bytesPerSector + 4 * cluster
    }

    /** A cluster whose data and FAT entry lie in the image. */
    predicate Holds(cluster: nat) {
      0 <= ClusterOffset(cluster) && ClusterOffset(cluster) + BytesPerCluster() <= |image| &&
        FatOffset(cluster) + 4 <= |image|
    }

    function Data(cluster: nat): (r: seq<Byte>)
      requires Holds(cluster)
    {
      image[ClusterOffset(cluster)..ClusterOffset(cluster) + BytesPerCluster()]
    }

    function NextCluster(cluster: nat): nat
      requires Holds(cluster)
    {
      var next := Le32(image, FatOffset(cluster));
      if next >= FIRST_END_MARK then END_OF_CLUSTER_CHAIN else next
    }
  }

  /** A FAT32 entry as the specification reads it: the four highest bits are reserved. */
  function SpecifiedNext(entry: nat): nat {
    var link := entry % 0x1000_0000;
    if link >= FIRST_END_MARK then END_OF_CLUSTER_CHAIN else link
  }

  /** Where the n-th copy of the table starts: after the reserved sectors and the copies before it. */
  function FatStart(v: Volume, n: nat): nat
    decreases n
  {
    if n == 0 then v.reservedSectorCount * v.bytesPerSector else FatStart(v, n - 1) + v.fatSize32 * v.bytesPerSector
  }

  lemma {:induction false} FatsInOrder(v: Volume, n: nat)
    ensures FatStart(v, n) == (v.reservedSectorCount + n * v.fatSize32) * v.bytesPerSector
  {
    if n > 0 {
      FatsInOrder(v, n - 1);
      assert n * v.fatSize32 == (n - 1) * v.fatSize32 + v.fatSize32;
      assert (v.reservedSectorCount + (n - 1) * v.fatSize32 + v.fatSize32) * v.bytesPerSector ==
        (v.reservedSectorCount + (n - 1) * v.fatSize32) * v.bytesPerSector + v.fatSize32 * v.bytesPerSector;
    }
  }

  /** The data of the first cluster, number 2, start where the last copy of the table ends. */
  lemma DataAfterFats(v: Volume)
    ensures v.ClusterOffset(2) == FatStart(v, v.numFats)
  {
    FatsInOrder(v, v.numFats);
  }

  /** The driver reads an entry as specified exactly if its reserved bits are clear or it ends the chain anyway. */
  lemma NextAsSpecified(v: Volume, cluster: nat)
    requires v.Holds(cluster)
    ensures 0 <= v.FatOffset(cluster) == FatStart(v, 0) + 4 * cluster && v.FatOffset(cluster) + 4 <= |v.image|
    ensures var at := v.FatOffset(cluster);
            var entry := (v.image[at] as int) + 0x100 * (v.image[at + 1] as int) + 0x1_0000 * (v.image[at + 2] as int)
                         + 0x100_0000 * (v.image[at + 3] as int);
            v.NextCluster(cluster) == SpecifiedNext(entry) <==>
              entry < 0x1000_0000 || entry % 0x1000_0000 >= FIRST_END_MARK
  {
  }

  /** Clusters follow each other without gaps, so different clusters have different bytes. */
  lemma {:induction false} ClustersDisjoint(v: Volume, c: nat, d: nat)
    requires c < d
    ensures v.ClusterOffset(c) + v.BytesPerCluster() <= v.ClusterOffset(d)
    ensures d == c + 1 ==> v.ClusterOffset(c) + v.BytesPerCluster() == v.ClusterOffset(d)
    decreases d - c
  {
    var base, s := v.reservedSectorCount + v.numFats * v.fatSize32, v.sectorsPerCluster;
    assert (base + (d - 3) * s + s) * v.bytesPerSector ==
      (base + (d - 3) * s) * v.bytesPerSector + s * v.bytesPerSector;
    assert (d - 2) * s == (d - 3) * s + s;
    if c + 1 < d {
      ClustersDisjoint(v, c, d - 1);
    }
  }

  predicate ValidCluster(c: nat) {
    c != 0 && c != END_OF_CLUSTER_CHAIN
  }

  /** The first k clusters of a chain, or all if it is shorter. */
  ghost function Chain(v: Volume, c: nat, k: nat): seq<nat>
    decreases k
  {
    if k == 0 || !ValidCluster(c) || !v.Holds(c) then [] else [c] + Chain(v, v.NextCluster(c), k - 1)
  }

  ghost predicate AllHeld(v: Volume, chain: seq<nat>) {
    forall i :: 0 <= i < |chain| ==> v.Holds(chain[i])
  }

  ghost function Contents(v: Volume, chain: seq<nat>): seq<Byte>
    requires AllHeld(v, chain)
  {
    if chain == [] then [] else v.Data(chain[0]) + Contents(v, chain[1..])
  }

  /** The clusters that a file of this length needs are all in the image. */
  ghost predicate Sound(v: Volume, c: nat, len: nat)
    decreases len
  {
    ValidCluster(c) && len > 0 ==>
      v.Holds(c) && v.BytesPerCluster() > 0 &&
        (v.BytesPerCluster() < len ==> Sound(v, v.NextCluster(c), len - v.BytesPerCluster()))
  }

  /** The bytes of a chain, up to a length. */
  ghost function Loaded(v: Volume, c: nat, len: nat): (r: seq<Byte>)
    requires Sound(v, c, len)
    ensures |r| <= len
    decreases len
  {
    if !ValidCluster(c) || len == 0 then []
    else if v.BytesPerCluster() >= len then v.Data(c)[..len]
    else v.Data(c) + Loaded(v, v.NextCluster(c), len - v.BytesPerCluster())
  }

  lemma {:induction false} ChainHolds(v: Volume, c: nat, k: nat)
    ensures AllHeld(v, Chain(v, c, k))
    ensures |Chain(v, c, k)| <= k
    decreases k
  {
    if k > 0 && ValidCluster(c) && v.Holds(c) {
      ChainHolds(v, v.NextCluster(c), k - 1);
    }
  }

  lemma DataLength(v: Volume, c: nat)
    requires v.Holds(c)
    ensures |v.Data(c)| == v.BytesPerCluster()
  {
  }

  lemma {:induction false} ContentsLength(v: Volume, chain: seq<nat>, n: nat)
    requires AllHeld(v, chain) && n == v.BytesPerCluster()
    ensures |Contents(v, chain)| == |chain| * n
  {
    hide Volume.Holds, Volume.Data, Volume.BytesPerCluster;
    if chain != [] {
      DataLength(v, chain[0]);
      ContentsLength(v, chain[1..], n);
      assert |chain| * n == (|chain| - 1) * n + n;
    }
  }

  /** What one cluster contributes to a file. */
  lemma LoadStep(v: Volume, c: nat, len: nat)
    requires Sound(v, c, len) && ValidCluster(c)
    ensures var at, n := v.ClusterOffset(c), v.BytesPerCluster();
            && (n >= len && len > 0 ==> 0 <= at && at + len <= |v.image| && Loaded(v, c, len) == v.image[at..at + len])
            && (n < len ==> n > 0 && 0 <= at && at + n <= |v.image| && v.Holds(c) && Sound(v, v.NextCluster(c), len - n)
                            && Loaded(v, c, len) == v.image[at..at + n] + Loaded(v, v.NextCluster(c), len - n))
  {
    if len > 0 && v.BytesPerCluster() >= len {
      assert v.Data(c)[..len] == v.image[v.ClusterOffset(c)..v.ClusterOffset(c) + len];
    }
  }

  lemma LoadEnd(v: Volume, c: nat, len: nat)
    requires Sound(v, c, len)
    ensures !ValidCluster(c) || len == 0 ==> Loaded(v, c, len) == []
  {
  }

  /**
   * What is loaded is the concatenation of the chain's clusters, cut at the length: the chain may
   * end before, or go on for ever, as long as enough of its clusters are taken.
   */
  lemma {:induction false} LoadedIsPrefix(v: Volume, c: nat, len: nat, k: nat)
    requires Sound(v, c, len) && v.BytesPerCluster() > 0 && (k * v.BytesPerCluster() >= len || |Chain(v, c, k)| < k)
    ensures AllHeld(v, Chain(v, c, k))
    ensures var all := Contents(v, Chain(v, c, k));
            && |all| == |Chain(v, c, k)| * v.BytesPerCluster()
            && Loaded(v, c, len) == if |all| < len then all else all[..len]
    decreases len
  {
    hide Volume.Holds, Volume.Data, Volume.BytesPerCluster, Volume.NextCluster, Volume.ClusterOffset, Sound, Loaded,
         Chain, Contents;
    var n := v.BytesPerCluster();
    ChainHolds(v, c, k);
    ContentsLength(v, Chain(v, c, k), n);
    LoadEnd(v, c, len);
    if !ValidCluster(c) || len == 0 {
      EmptyChain(v, c, k);
      assert !ValidCluster(c) ==> Contents(v, Chain(v, c, k)) == [];
    } else {
      ChainStep(v, c, len, k);
      LoadStep(v, c, len);
      var next := v.NextCluster(c);
      var rest := Contents(v, Chain(v, next, k - 1));
      if n < len {
        assert (k - 1) * n == k * n - n;
        LoadedIsPrefix(v, next, len - n, k - 1);
        CutLater(v.Data(c), rest, len);
      } else {
        CutFirst(v.image, v.ClusterOffset(c), n, rest, len);
      }
    }
  }

  lemma EmptyChain(v: Volume, c: nat, k: nat)
    ensures !ValidCluster(c) ==> Chain(v, c, k) == []
  {
  }

  /** A sequence cut behind its first part, or within it. */
  lemma CutLater(a: seq<Byte>, b: seq<Byte>, len: nat)
    requires |a| < len
    ensures a + (if |b| < len - |a| then b else b[..len - |a|]) == if |a + b| < len then a + b else (a + b)[..len]
  {
  }

  lemma CutFirst(image: seq<Byte>, at: nat, n: nat, rest: seq<Byte>, len: nat)
    requires len <= n && at + n <= |image|
    ensures image[at..at + len] == (image[at..at + n] + rest)[..len]
  {
  }

  lemma ChainStep(v: Volume, c: nat, len: nat, k: nat)
    requires Sound(v, c, len) && ValidCluster(c) && len > 0 && (k * v.BytesPerCluster() >= len || |Chain(v, c, k)| < k)
    ensures k > 0 && v.Holds(c) && |Chain(v, c, k)| == |Chain(v, v.NextCluster(c), k - 1)| + 1
    ensures AllHeld(v, Chain(v, c, k))
    ensures AllHeld(v, Chain(v, v.NextCluster(c), k - 1))
    ensures |v.Data(c)| == v.BytesPerCluster()
    ensures v.Data(c) == v.image[v.ClusterOffset(c)..v.ClusterOffset(c) + v.BytesPerCluster()]
    ensures Contents(v, Chain(v, c, k)) == v.Data(c) + Contents(v, Chain(v, v.NextCluster(c), k - 1))
  {
    ChainHolds(v, c, k);
    ChainHolds(v, v.NextCluster(c), k - 1);
    assert Chain(v, c, k)[1..] == Chain(v, v.NextCluster(c), k - 1);
  }

  /** A buffer that begins with `done` and is otherwise what it was before. */
  ghost predicate Filled(now: seq<Byte>, before: seq<Byte>, done: seq<Byte>) {
    |done| <= |before| && now == done + before[|done|..]
  }

  lemma FilledParts(now: seq<Byte>, before: seq<Byte>, done: seq<Byte>)
    requires Filled(now, before, done)
    ensures |now| == |before| && |done| <= |now| && now[..|done|] == done && now[|done|..] == before[|done|..]
  {
  }

  lemma NothingFilled(before: seq<Byte>)
    ensures Filled(before, before, [])
  {
  }

  /** The bytes of `piece` up to i are stored behind `done`. */
  lemma FilledNext(now: seq<Byte>, before: seq<Byte>, done: seq<Byte>, piece: seq<Byte>, i: nat)
    requires i < |piece| && |done| + |piece| <= |before| && Filled(now, before, done + piece[..i])
    ensures |done| + i < |now| && Filled(now[|done| + i := piece[i]], before, done + piece[..i + 1])
  {
  }

  /** memcpy of n bytes of the image. */
  method CopyBytes(image: seq<Byte>, from: int, buf: array<Byte>, at: nat, n: nat, ghost before: seq<Byte>,
      ghost done: seq<Byte>)
    requires at + n <= buf.Length == |before| && (n > 0 ==> 0 <= from && from + n <= |image|)
    requires |done| == at && Filled(buf[..], before, done)
    modifies buf
    ensures Filled(buf[..], before, done + if n == 0 then [] else image[from..from + n])
  {
    ghost var piece := if n == 0 then [] else image[from..from + n];
    assert done + piece[..0] == done && piece[..n] == piece;
    hide Filled;
    for i := 0 to n
      invariant Filled(buf[..], before, done + piece[..i])
    {
      FilledNext(buf[..], before, done, piece, i);
      buf[at + i] := image[from + i];
    }
  }

  /** Loads at most len bytes of the chain into the buffer and returns how many. */
  method LoadFile(v: Volume, buf: array<Byte>, len: nat, firstCluster: nat) returns (n: nat)
    requires len <= buf.Length && Sound(v, firstCluster, len)
    modifies buf
    ensures n == |Loaded(v, firstCluster, len)| && buf[..n] == Loaded(v, firstCluster, len) && buf[n..] == old(buf[n..])
  {
    hide Volume.Data, Volume.NextCluster, Volume.Holds, Volume.ClusterOffset, Volume.BytesPerCluster, Sound, Loaded,
         ValidCluster, Filled;
    var cluster, p := firstCluster, 0;
    ghost var before, done: seq<Byte> := buf[..], [];
    NothingFilled(before);
    while ValidCluster(cluster)
      invariant |done| == p <= len && Sound(v, cluster, len - p) && Filled(buf[..], before, done)
      invariant Loaded(v, firstCluster, len) == done + Loaded(v, cluster, len - p)
      decreases len - p
    {
      LoadStep(v, cluster, len - p);
      LoadEnd(v, cluster, len - p);
      var from, n := v.ClusterOffset(cluster), v.BytesPerCluster();
      if n >= len - p {
        CopyBytes(v.image, from, buf, p, len - p, before, done);
        FilledParts(buf[..], before, Loaded(v, firstCluster, len));
        return len;
      }
      CopyBytes(v.image, from, buf, p, n, before, done);
      Regrouped(done, v.image[from..from + n], Loaded(v, v.NextCluster(cluster), len - p - n));
      done := done + v.image[from..from + n];
      p := p + n;
      cluster := v.NextCluster(cluster);
    }
    LoadEnd(v, cluster, len - p);
    FilledParts(buf[..], before, done);
    return p;
  }

  lemma Regrouped(a: seq<Byte>, b: seq<Byte>, c: seq<Byte>)
    ensures a + (b + c) == (a + b) + c
  {
  }
}
