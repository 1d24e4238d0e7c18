/** Directory search (Kernel/fat.cpp). */
module FatDirectory {
  import opened Common
  import opened Fat
  import opened ShortNames

  /** The offsets in the image of the entries of one cluster. */
  function EntriesIn(v: Volume, c: nat): seq<int> {
    seq(v.BytesPerCluster() / ENTRY_SIZE, (i: nat) => v.ClusterOffset(c) + ENTRY_SIZE * i)
  }

  function NameAt(v: Volume, at: int): (r: seq<Byte>)
    ensures |r| == NAME_SIZE
  {
    if 0 <= at && at + NAME_SIZE <= |v.image| then v.image[at..at + NAME_SIZE] else seq(NAME_SIZE, _ => 0)
  }

  /** Entries are 32 bytes each, as many as fit, from the start of the cluster on, and begin with their names. */
  lemma EntryOffsets(v: Volume, c: nat, i: nat)
    requires i < v.BytesPerCluster() / 32 && v.Holds(c)
    ensures |EntriesIn(v, c)| == v.BytesPerCluster() / 32 && EntriesIn(v, c)[i] == v.ClusterOffset(c) + 32 * i
    ensures forall k | 0 <= k < 11 ::
              var at := EntriesIn(v, c)[i] + k;
              0 <= at < |v.image| && NameAt(v, EntriesIn(v, c)[i])[k] == v.image[at]
  {
    assert 32 * i + 32 <= v.BytesPerCluster();
  }

  /** The entries of the first k clusters of a directory, in chain order. */
  ghost function Entries(v: Volume, c: nat, k: nat): seq<int>
    decreases k
  {
    if k == 0 || c == END_OF_CLUSTER_CHAIN || !v.Holds(c) then []
      else EntriesIn(v, c) + Entries(v, v.NextCluster(c), k - 1)
  }

  /** The name that is looked for, and what lies on the stack when the entry at each offset is compared with it. */
  datatype Query = Query(name: seq<Byte>, stack: int -> Tails)

  predicate Matches(v: Volume, at: int, q: Query) {
    Built(NameAt(v, at), q.stack(at)) == q.name
  }

  ghost predicate AnyMatches(v: Volume, entries: seq<int>, q: Query) {
    exists i :: 0 <= i < |entries| && Matches(v, entries[i], q)
  }

  /**
   * The search stops within k clusters: the name is on one of them or the chain ends. A cyclic
   * chain without the name never does.
   */
  ghost predicate Stops(v: Volume, c: nat, k: nat, q: Query)
    decreases k
  {
    c == END_OF_CLUSTER_CHAIN ||
    (k > 0 && v.Holds(c) && (AnyMatches(v, EntriesIn(v, c), q) || Stops(v, v.NextCluster(c), k - 1, q)))
  }

  /** A chain that reaches its end mark within k clusters. */
  ghost predicate Ends(v: Volume, c: nat, k: nat)
    decreases k
  {
    c == END_OF_CLUSTER_CHAIN || (k > 0 && v.Holds(c) && Ends(v, v.NextCluster(c), k - 1))
  }

  lemma AnyMatchesConcat(v: Volume, a: seq<int>, b: seq<int>, q: Query)
    ensures AnyMatches(v, a + b, q) <==> AnyMatches(v, a, q) || AnyMatches(v, b, q)
  {
    hide Matches;
    var all := a + b;
    if i :| 0 <= i < |a| && Matches(v, a[i], q) {
      assert all[i] == a[i];
    }
    if i :| 0 <= i < |b| && Matches(v, b[i], q) {
      assert all[|a| + i] == b[i];
    }
  }

  /** The search stops exactly if the chain ends or the name is on it, within that many clusters. */
  lemma {:induction false} StopsIfEndsOrMatches(v: Volume, c: nat, k: nat, q: Query)
    ensures Stops(v, c, k, q) <==> Ends(v, c, k) || AnyMatches(v, Entries(v, c, k), q)
    decreases k
  {
    hide Matches, EntriesIn, AnyMatches, Volume.Holds, Volume.NextCluster;
    if c != END_OF_CLUSTER_CHAIN && k > 0 && v.Holds(c) {
      StopsIfEndsOrMatches(v, v.NextCluster(c), k - 1, q);
      AnyMatchesConcat(v, EntriesIn(v, c), Entries(v, v.NextCluster(c), k - 1), q);
    } else {
      NoneMatches(v, q);
    }
  }

  lemma NoneMatches(v: Volume, q: Query)
    ensures !AnyMatches(v, [], q)
  {
  }

  lemma {:induction false} StopsLater(v: Volume, c: nat, k: nat, k': nat, q: Query)
    requires Stops(v, c, k, q) && k <= k'
    ensures Stops(v, c, k', q)
    decreases k
  {
    hide AnyMatches, EntriesIn, Volume.Holds, Volume.NextCluster;
    if c != END_OF_CLUSTER_CHAIN && !AnyMatches(v, EntriesIn(v, c), q) {
      StopsLater(v, v.NextCluster(c), k - 1, k' - 1, q);
    }
  }

  /** The least number of clusters after which the search stops. */
  lemma {:induction false} LeastStop(v: Volume, c: nat, k: nat, q: Query) returns (least: nat)
    requires Stops(v, c, k, q)
    ensures Stops(v, c, least, q) && (least > 0 ==> !Stops(v, c, least - 1, q))
  {
    if k > 0 && Stops(v, c, k - 1, q) {
      least := LeastStop(v, c, k - 1, q);
    } else {
      least := k;
    }
  }

  ghost function Below(n: nat): (r: set<nat>)
    ensures |r| == n && forall i :: i in r <==> 0 <= i < n
  {
    if n == 0 then {} else Below(n - 1) + {n - 1}
  }

  lemma {:induction false} SubsetCount(a: set<nat>, b: set<nat>)
    requires a <= b
    ensures |a| <= |b|
  {
    if x :| x in a {
      SubsetCount(a - {x}, b - {x});
    }
  }

  /** There are no more clusters than bytes. */
  lemma HeldCount(v: Volume, clusters: set<nat>)
    requires forall c :: c in clusters ==> v.Holds(c)
    ensures |clusters| <= |v.image|
  {
    forall c | c in clusters ensures c in Below(|v.image|) {
      assert v.FatOffset(c) >= 4 * c;
    }
    SubsetCount(clusters, Below(|v.image|));
  }

  /** Along a shortest search no cluster comes twice: each is nearer to the stop than those seen before. */
  lemma {:induction false} NoClusterTwice(v: Volume, c: nat, k: nat, q: Query, seen: set<nat>)
    requires Stops(v, c, k, q) && (k > 0 ==> !Stops(v, c, k - 1, q))
    requires forall s :: s in seen ==> v.Holds(s) && !Stops(v, s, k, q)
    ensures k + |seen| <= |v.image|
    decreases k
  {
    hide AnyMatches, EntriesIn, Volume.Holds, Volume.NextCluster;
    if k == 0 {
      HeldCount(v, seen);
    } else {
      assert c !in seen && v.Holds(c);
      HeldCount(v, seen + {c});
      if !AnyMatches(v, EntriesIn(v, c), q) {
        forall s | s in seen ensures !Stops(v, s, k - 1, q) {
          if Stops(v, s, k - 1, q) {
            StopsLater(v, s, k - 1, k, q);
          }
        }
        NoClusterTwice(v, v.NextCluster(c), k - 1, q, seen + {c});
      }
    }
  }

  /** A search that stops at all stops within as many clusters as the image has bytes. */
  lemma StopsExact(v: Volume, c: nat, q: Query)
    ensures (exists k: nat :: Stops(v, c, k, q)) <==> Stops(v, c, |v.image|, q)
  {
    hide Stops;
    if k: nat :| Stops(v, c, k, q) {
      var least := LeastStop(v, c, k, q);
      NoClusterTwice(v, c, least, q, {});
      StopsLater(v, c, least, |v.image|, q);
    }
  }

  /** On a chain that leads into a cycle, or lies on one, the search never stops unless the name is there. */
  lemma {:induction false} CycleNeverStops(v: Volume, chain: seq<nat>, back: nat, i: nat, k: nat, q: Query)
    requires i < |chain| && LeadsBack(v, chain, back, q)
    ensures !Stops(v, chain[i], k, q)
    decreases k
  {
    if k > 0 {
      CycleNeverStops(v, chain, back, if i + 1 < |chain| then i + 1 else back, k - 1, q);
    }
  }

  /** The clusters follow each other, the last leads back to one of them, and the name is on none. */
  ghost predicate LeadsBack(v: Volume, chain: seq<nat>, back: nat, q: Query) {
    back < |chain| && forall i :: 0 <= i < |chain| ==>
      && chain[i] != END_OF_CLUSTER_CHAIN && v.Holds(chain[i]) && !AnyMatches(v, EntriesIn(v, chain[i]), q)
      && v.NextCluster(chain[i]) == chain[if i + 1 < |chain| then i + 1 else back]
  }

  /** The position of the first match in a list of entries, or its length. */
  ghost predicate FirstMatch(v: Volume, entries: seq<int>, q: Query, j: nat) {
    && j <= |entries| && (j < |entries| ==> Matches(v, entries[j], q))
    && forall i :: 0 <= i < j ==> !Matches(v, entries[i], q)
  }

  /** The first entry of one cluster with the name. */
  method FindInCluster(v: Volume, q: Query, c: nat) returns (j: nat)
    requires v.Holds(c)
    ensures FirstMatch(v, EntriesIn(v, c), q, j)
  {
    hide Built, ShortName, NameAt, Closed;
    j := 0;
    while j < v.BytesPerCluster() / ENTRY_SIZE
      invariant j <= v.BytesPerCluster() / ENTRY_SIZE
      invariant forall i :: 0 <= i < j ==> !Matches(v, EntriesIn(v, c)[i], q)
    {
      var at := v.ClusterOffset(c) + ENTRY_SIZE * j;
      assert EntriesIn(v, c)[j] == at;
      var equal := NameIsEqual(NameAt(v, at), q.name, q.stack(at));
      if equal {
        return;
      }
      j := j + 1;
    }
  }

  /** The first entry of a list with the name, or None if there is none. */
  ghost predicate Found(v: Volume, entries: seq<int>, q: Query, r: Option<int>) {
    exists j: nat :: FirstMatch(v, entries, q, j) && r == if j < |entries| then Some(entries[j]) else None
  }

  lemma FoundFirst(v: Volume, here: seq<int>, rest: seq<int>, q: Query, j: nat)
    requires FirstMatch(v, here, q, j) && j < |here|
    ensures Found(v, here + rest, q, Some(here[j]))
  {
    hide Matches;
    assert FirstMatch(v, here + rest, q, j);
  }

  lemma FoundLater(v: Volume, here: seq<int>, rest: seq<int>, q: Query, r: Option<int>)
    requires FirstMatch(v, here, q, |here|) && Found(v, rest, q, r)
    ensures Found(v, here + rest, q, r)
  {
    hide Matches;
    var j: nat :| FirstMatch(v, rest, q, j) && r == if j < |rest| then Some(rest[j]) else None;
    assert FirstMatch(v, here + rest, q, |here| + j);
  }

  /** The entries of the directory that starts at a cluster, or at the root for cluster 0. */
  ghost function DirectoryEntries(v: Volume, directoryCluster: nat): seq<int> {
    Entries(v, FirstCluster(v, directoryCluster), |v.image|)
  }

  function FirstCluster(v: Volume, directoryCluster: nat): nat {
    if directoryCluster == 0 then v.rootCluster else directoryCluster
  }

  /** The offset of the first entry in the chain that is taken for the name, wherever the search stops at all. */
  method FindFile(v: Volume, name: seq<Byte>, directoryCluster: nat, stack: int -> Tails) returns (r: Option<int>)
    requires Stops(v, FirstCluster(v, directoryCluster), |v.image|, Query(name, stack))
    ensures Found(v, DirectoryEntries(v, directoryCluster), Query(name, stack), r)
  {
    hide EntriesIn, Matches, NameAt, Volume.NextCluster, Volume.Holds, Found, FirstMatch, AnyMatches,
         Volume.BytesPerCluster, Volume.ClusterOffset;
    var c, q := FirstCluster(v, directoryCluster), Query(name, stack);
    ghost var all, left: nat := DirectoryEntries(v, directoryCluster), |v.image|;
    while c != END_OF_CLUSTER_CHAIN
      invariant Stops(v, c, left, q)
      invariant forall x :: Found(v, Entries(v, c, left), q, x) ==> Found(v, all, q, x)
      decreases left
    {
      ghost var here, rest := EntriesIn(v, c), Entries(v, v.NextCluster(c), left - 1);
      var j := FindInCluster(v, q, c);
      EntryCount(v, c, q, j);
      if j < v.BytesPerCluster() / ENTRY_SIZE {
        FoundFirst(v, here, rest, q, j);
        return Some(EntryAt(v, c, j));
      }
      NoneHere(v, here, q);
      forall x | Found(v, rest, q, x) ensures Found(v, here + rest, q, x) {
        FoundLater(v, here, rest, q, x);
      }
      c := v.NextCluster(c);
      left := left - 1;
    }
    NoEntries(v, q);
    return None;
  }

  lemma EntryCount(v: Volume, c: nat, q: Query, j: nat)
    requires FirstMatch(v, EntriesIn(v, c), q, j)
    ensures |EntriesIn(v, c)| == v.BytesPerCluster() / ENTRY_SIZE && j <= |EntriesIn(v, c)|
  {
  }

  lemma NoneHere(v: Volume, here: seq<int>, q: Query)
    requires FirstMatch(v, here, q, |here|)
    ensures !AnyMatches(v, here, q)
  {
  }

  lemma NoEntries(v: Volume, q: Query)
    ensures Found(v, [], q, None)
  {
    assert FirstMatch(v, [], q, 0);
  }

  function EntryAt(v: Volume, c: nat, j: nat): (r: int)
    requires j < v.BytesPerCluster() / ENTRY_SIZE
    ensures j < |EntriesIn(v, c)| == v.BytesPerCluster() / ENTRY_SIZE && r == EntriesIn(v, c)[j]
  {
    v.ClusterOffset(c) + ENTRY_SIZE * j
  }

  /** The j-th entry of a list is the first with the short name, or none has it and j is the length. */
  ghost predicate FirstNamed(v: Volume, entries: seq<int>, name: seq<Byte>, j: nat) {
    && j <= |entries| && (j < |entries| ==> ShortName(NameAt(v, entries[j])) == name)
    && forall i :: 0 <= i < j ==> ShortName(NameAt(v, entries[i])) != name
  }

  /** The entry reads as the name if the stack holds the right bytes. */
  ghost predicate CanRead(v: Volume, at: int, name: seq<Byte>) {
    exists k: nat :: Reads(NameAt(v, at), name, k)
  }

  /**
   * The search meets the first entry with the short name, whatever the stack holds, exactly if
   * that entry's name is closed and no entry before it can read as the name.
   */
  lemma SearchExact(v: Volume, entries: seq<int>, name: seq<Byte>, j: nat)
    requires FirstNamed(v, entries, name, j)
    ensures (forall stack: int -> Tails :: FirstMatch(v, entries, Query(name, stack), j)) <==>
              (j < |entries| ==> Closed(NameAt(v, entries[j]))) &&
              (forall i :: 0 <= i < j ==> !CanRead(v, entries[i], name))
  {
    hide Built, ShortName, Closed, NameAt, Reads;
    forall i: nat | i < j {
      ReadExact(NameAt(v, entries[i]), name);
    }
    if j < |entries| {
      BuiltExact(NameAt(v, entries[j]));
    }
    if i: nat :| i < j && CanRead(v, entries[i], name) {
      var tails: Tails :| Built(NameAt(v, entries[i]), tails) == name;
      assert Matches(v, entries[i], Query(name, _ => tails));
    }
    if j < |entries| && !Closed(NameAt(v, entries[j])) {
      var tails: Tails :| Built(NameAt(v, entries[j]), tails) != ShortName(NameAt(v, entries[j]));
      assert !Matches(v, entries[j], Query(name, _ => tails));
    }
  }

  /** Closed names are never taken for another: when all entries up to the match are closed, the search is right. */
  lemma ClosedSearch(v: Volume, entries: seq<int>, name: seq<Byte>, j: nat, stack: int -> Tails)
    requires forall i :: 0 <= i <= j && i < |entries| ==> Closed(NameAt(v, entries[i]))
    ensures FirstMatch(v, entries, Query(name, stack), j) <==> FirstNamed(v, entries, name, j)
  {
    hide Built, ShortName, Closed, NameAt;
    forall i: nat | i <= j && i < |entries|
      ensures Matches(v, entries[i], Query(name, stack)) <==> ShortName(NameAt(v, entries[i])) == name
    {
      BuiltExact(NameAt(v, entries[i]));
    }
  }
}
