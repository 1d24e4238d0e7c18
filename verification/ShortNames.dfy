/** Short names of directory entries, and how they are compared (Kernel/fat.cpp). */
module ShortNames {
  import opened Fat

  const BASE_SIZE := 8
  const NAME_SIZE := 11

  /** Trailing spaces become zeros. */
  function TrimSpaces(s: seq<Byte>): (r: seq<Byte>)
    ensures |r| == |s|
  {
    if s != [] && s[|s| - 1] == SPACE then TrimSpaces(s[..|s| - 1]) + [0] else s
  }

  /** The characters before the first zero. */
  function CString(s: seq<Byte>): seq<Byte> {
    if s == [] || s[0] == 0 then [] else [s[0]] + CString(s[1..])
  }

  /** The name of a directory entry as a user types it. */
  function ShortName(name: seq<Byte>): seq<Byte>
    requires |name| == NAME_SIZE
  {
    var base, ext := CString(TrimSpaces(name[..BASE_SIZE])), CString(TrimSpaces(name[BASE_SIZE..]));
    if ext == [] then base else base + [DOT] + ext
  }

  /** What lies on the stack from the end of a part of a name on, up to some zero. */
  type Tail = t: seq<Byte> | 0 in t witness [0]

  datatype Tails = Tails(base: Tail, ext: Tail)

  /** The string that NameIsEqual builds from the two parts, whose arrays it does not end. */
  function Built(name: seq<Byte>, tails: Tails): seq<Byte>
    requires |name| == NAME_SIZE
  {
    var base, ext := CString(TrimSpaces(name[..BASE_SIZE]) + tails.base),
      CString(TrimSpaces(name[BASE_SIZE..]) + tails.ext);
    if ext == [] then base else base + [DOT] + ext
  }

  /** Both parts of a name end inside their fields. */
  predicate Closed(name: seq<Byte>)
    requires |name| == NAME_SIZE
  {
    0 in TrimSpaces(name[..BASE_SIZE]) && 0 in TrimSpaces(name[BASE_SIZE..])
  }

  lemma TrimmedZero(s: seq<Byte>)
    ensures 0 in TrimSpaces(s) <==> 0 in s || (s != [] && s[|s| - 1] == SPACE)
  {
  }

  lemma {:induction false} CStringConcat(s: seq<Byte>, t: seq<Byte>)
    ensures CString(s + t) == if 0 in s then CString(s) else s + CString(t)
    ensures 0 !in CString(s) && (0 !in s ==> CString(s) == s)
  {
    if s == [] {
      assert s + t == t;
    } else {
      assert (s + t)[1..] == s[1..] + t;
      CStringConcat(s[1..], t);
      assert s == [s[0]] + s[1..];
    }
  }

  /** A part of a name as the volume stores it: filled up with spaces (section 6.1 of the FAT specification). */
  function Padded(part: seq<Byte>, n: nat): (r: seq<Byte>)
    requires |part| <= n
    ensures |r| == n
  {
    part + seq(n - |part|, _ => SPACE)
  }

  /** What can be stored as a part of a name: no zero, and no space at its end. */
  predicate Storable(part: seq<Byte>, n: nat) {
    |part| <= n && 0 !in part && (part != [] ==> part[|part| - 1] != SPACE)
  }

  lemma {:induction false} TrimPadded(part: seq<Byte>, n: nat)
    requires Storable(part, n)
    ensures TrimSpaces(Padded(part, n)) == part + seq(n - |part|, _ => 0)
    decreases n
  {
    if n > |part| {
      TrimPadded(part, n - 1);
      hide Storable;
      assert Padded(part, n)[..n - 1] == Padded(part, n - 1) && Padded(part, n)[n - 1] == SPACE;
      assert part + seq(n - 1 - |part|, _ => 0) + [0] == part + seq(n - |part|, _ => 0);
    } else {
      assert Padded(part, n) == part;
      assert part + seq(n - |part|, _ => 0) == part;
    }
  }

  lemma PartStored(part: seq<Byte>, n: nat)
    requires Storable(part, n)
    ensures CString(TrimSpaces(Padded(part, n))) == part
  {
    TrimPadded(part, n);
    CStringConcat(part, seq(n - |part|, _ => 0));
    assert part + [] == part;
  }

  /** The name that is stored is the name that is read: its base and, if there is one, a dot and the extension. */
  lemma NameRoundTrip(base: seq<Byte>, ext: seq<Byte>)
    requires Storable(base, 8) && Storable(ext, 3)
    ensures ShortName(Padded(base, 8) + Padded(ext, 3)) == if ext == [] then base else base + [0x2E] + ext
  {
    PartStored(base, 8);
    PartStored(ext, 3);
    hide TrimSpaces, CString;
    var name := Padded(base, 8) + Padded(ext, 3);
    assert name[..BASE_SIZE] == Padded(base, 8) && name[BASE_SIZE..] == Padded(ext, 3);
  }

  /**
   * A part of a name reads as the bytes before its first zero, or as more than its field, up to a
   * zero on the stack.
   */
  predicate PartReads(part: seq<Byte>, s: seq<Byte>) {
    if 0 in part then s == CString(part) else part <= s && 0 !in s
  }

  lemma PartReadsTail(part: seq<Byte>, tail: Tail)
    ensures PartReads(part, CString(part + tail))
  {
    CStringConcat(part, tail);
    CStringConcat(tail, []);
  }

  lemma TailOf(part: seq<Byte>, s: seq<Byte>) returns (tail: Tail)
    requires PartReads(part, s)
    ensures CString(part + tail) == s
  {
    tail := (if 0 in part then [] else s[|part|..]) + [0];
    CStringConcat(part, tail);
    CStringConcat(tail[..|tail| - 1], [0]);
    assert tail == tail[..|tail| - 1] + [0];
  }

  /** The name can be read as a string if the stack holds the right bytes: a part of it up to some k, and the rest. */
  predicate Reads(name: seq<Byte>, s: seq<Byte>, k: nat)
    requires |name| == NAME_SIZE
  {
    && k <= |s| && PartReads(TrimSpaces(name[..BASE_SIZE]), s[..k])
    && (if TrimSpaces(name[BASE_SIZE..])[0] == 0 then k == |s|
        else k < |s| && s[k] == DOT && PartReads(TrimSpaces(name[BASE_SIZE..]), s[k + 1..]))
  }

  /** What NameIsEqual can take a name for: exactly the strings that read so at some k. */
  lemma ReadExact(name: seq<Byte>, s: seq<Byte>)
    requires |name| == NAME_SIZE
    ensures (exists tails: Tails :: Built(name, tails) == s) <==> exists k: nat :: Reads(name, s, k)
  {
    hide Built, Reads;
    if tails: Tails :| Built(name, tails) == s {
      BuiltReads(name, tails);
      var k: nat :| Reads(name, Built(name, tails), k);
    }
    if k: nat :| Reads(name, s, k) {
      var tails := ReadsBuilt(name, s, k);
    }
  }

  lemma BuiltReads(name: seq<Byte>, tails: Tails)
    requires |name| == NAME_SIZE
    ensures exists k: nat :: Reads(name, Built(name, tails), k)
  {
    var base, ext, s := TrimSpaces(name[..BASE_SIZE]), TrimSpaces(name[BASE_SIZE..]), Built(name, tails);
    PartReadsTail(base, tails.base);
    PartReadsTail(ext, tails.ext);
    FirstByte(ext, tails.ext);
    hide TrimSpaces, CString, PartReads;
    var k: nat := |CString(base + tails.base)|;
    assert s[..k] == CString(base + tails.base);
    assert ext[0] != 0 ==> s[k] == DOT && s[k + 1..] == CString(ext + tails.ext);
    assert Reads(name, s, k);
  }

  lemma ReadsBuilt(name: seq<Byte>, s: seq<Byte>, k: nat) returns (tails: Tails)
    requires |name| == NAME_SIZE && Reads(name, s, k)
    ensures Built(name, tails) == s
  {
    hide TrimSpaces, CString, PartReads;
    var base, ext := TrimSpaces(name[..BASE_SIZE]), TrimSpaces(name[BASE_SIZE..]);
    var tb := TailOf(base, s[..k]);
    var te: Tail := [0];
    if ext[0] != 0 {
      te := TailOf(ext, s[k + 1..]);
      assert s == s[..k] + [DOT] + s[k + 1..];
    } else {
      assert s[..k] == s;
    }
    FirstByte(ext, te);
    tails := Tails(tb, te);
  }

  lemma FirstByte(part: seq<Byte>, tail: seq<Byte>)
    requires part != []
    ensures CString(part + tail) == [] <==> part[0] == 0
  {
    assert (part + tail)[0] == part[0];
  }

  /** The built string is the name, whatever lies on the stack, exactly if both parts end inside their fields. */
  lemma BuiltExact(name: seq<Byte>)
    requires |name| == NAME_SIZE
    ensures (forall tails: Tails :: Built(name, tails) == ShortName(name)) <==> Closed(name)
  {
    var base, ext := TrimSpaces(name[..BASE_SIZE]), TrimSpaces(name[BASE_SIZE..]);
    if Closed(name) {
      forall tails: Tails ensures Built(name, tails) == ShortName(name) {
        CStringConcat(base, tails.base);
        CStringConcat(ext, tails.ext);
      }
    } else {
      var none, one := Tails([0], [0]), Tails(if 0 in base then [0] else [1, 0], if 0 in base then [1, 0] else [0]);
      CStringConcat(base, none.base);
      CStringConcat(ext, none.ext);
      CStringConcat(base, one.base);
      CStringConcat(ext, one.ext);
      assert CString([1, 0]) == [1] + CString([0]) by {
        assert [1, 0][1..] == [0];
      }
      assert |Built(name, none)| + 1 == |Built(name, one)|;
    }
  }

  /** And that is so exactly if neither part fills its field. */
  lemma ClosedExact(name: seq<Byte>)
    requires |name| == NAME_SIZE
    ensures Closed(name) <==>
              (name[BASE_SIZE - 1] == SPACE || 0 in name[..BASE_SIZE]) &&
              (name[NAME_SIZE - 1] == SPACE || 0 in name[BASE_SIZE..])
  {
    TrimmedZero(name[..BASE_SIZE]);
    TrimmedZero(name[BASE_SIZE..]);
  }

  lemma AllSpaces(ext: seq<Byte>, tail: seq<Byte>)
    requires |ext| == 3 && forall i :: 0 <= i < 3 ==> ext[i] == SPACE
    ensures CString(TrimSpaces(ext)) == [] && CString(TrimSpaces(ext) + tail) == []
  {
    assert TrimSpaces(ext) == TrimSpaces(ext[..2]) + [0];
    assert TrimSpaces(ext[..2]) == TrimSpaces(ext[..2][..1]) + [0];
    assert TrimSpaces(ext)[0] == 0 && (TrimSpaces(ext) + tail)[0] == 0;
  }

  /** A name of eight characters without an extension reads as itself and what follows it on the stack. */
  lemma FullName(base: seq<Byte>, entry: seq<Byte>, tails: Tails)
    requires |base| == BASE_SIZE && 0 !in base && base[BASE_SIZE - 1] != SPACE && entry == base + [SPACE, SPACE, SPACE]
    ensures ShortName(entry) == base && Built(entry, tails) == base + CString(tails.base)
  {
    assert entry[..BASE_SIZE] == base && TrimSpaces(base) == base;
    AllSpaces(entry[BASE_SIZE..], tails.ext);
    CStringConcat(base, []);
    CStringConcat(base, tails.base);
    hide TrimSpaces, CString;
  }

  /** "WINHELLO" without an extension, as a directory entry. */
  const WINHELLO: seq<Byte> := [0x57, 0x49, 0x4E, 0x48, 0x45, 0x4C, 0x4C, 0x4F]

  /** With an "A" on the stack behind it, the entry is not found under its name, but as "WINHELLOA". */
  lemma FullNameExample()
    ensures var entry := WINHELLO + [SPACE, SPACE, SPACE];
            ShortName(entry) == WINHELLO && Built(entry, Tails([0x41, 0], [0])) == WINHELLO + [0x41]
  {
    hide ShortName, Built, TrimSpaces;
    FullName(WINHELLO, WINHELLO + [SPACE, SPACE, SPACE], Tails([0x41, 0], [0]));
    assert [0x41, 0][1..] == [0];
    assert CString([0x41, 0]) == [0x41];
  }

  /** Zeroes the spaces at the end of the first n bytes. */
  method BlankTrailing(a: array<Byte>, n: nat)
    requires n <= a.Length
    modifies a
    ensures a[..] == TrimSpaces(old(a[..n])) + old(a[n..])
  {
    var i := n;
    assert a[..n] == a[..i] + a[i..n];
    while i > 0 && a[i - 1] == SPACE
      invariant 0 <= i <= n && a[..i] == old(a[..i]) && a[n..] == old(a[n..])
      invariant TrimSpaces(old(a[..n])) == TrimSpaces(old(a[..i])) + a[i..n]
    {
      assert old(a[..i])[..i - 1] == old(a[..i - 1]);
      a[i - 1] := 0;
      i := i - 1;
      assert a[i..n] == [0] + a[i + 1..n];
    }
    assert TrimSpaces(old(a[..i])) == old(a[..i]);
    assert a[..] == a[..i] + a[i..n] + a[n..];
  }

  /** An array with some bytes of a name at its start; what follows was there before. */
  method Fill(bytes: seq<Byte>, tail: seq<Byte>) returns (a: array<Byte>)
    ensures fresh(a) && a.Length == |bytes| + |tail| && a[..] == TrimSpaces(bytes) + tail
  {
    var all := bytes + tail;
    a := new Byte[|all|](i requires 0 <= i < |all| => all[i]);
    assert a[..] == all;
    assert a[..|bytes|] == bytes && a[|bytes|..] == tail;
    BlankTrailing(a, |bytes|);
  }

  /** The two parts of an entry's name, each ended by a zero. */
  method ReadName(name: seq<Byte>) returns (base: array<Byte>, ext: array<Byte>)
    requires |name| == NAME_SIZE
    ensures CString(base[..]) == CString(TrimSpaces(name[..BASE_SIZE])) &&
      CString(ext[..]) == CString(TrimSpaces(name[BASE_SIZE..]))
    ensures 0 in base[..] && 0 in ext[..]
  {
    base := Fill(name[..BASE_SIZE], [0]);
    ext := Fill(name[BASE_SIZE..], [0]);
    CStringConcat(TrimSpaces(name[..BASE_SIZE]), [0]);
    CStringConcat(TrimSpaces(name[BASE_SIZE..]), [0]);
    assert base[..][BASE_SIZE] == 0 && ext[..][NAME_SIZE - BASE_SIZE] == 0;
  }

  /**
   * Compares an entry's name with a C string. The arrays end where the stack happens to hold a
   * zero; the string built from them is taken whole, however long.
   */
  method NameIsEqual(entry: seq<Byte>, name: seq<Byte>, tails: Tails) returns (r: bool)
    requires |entry| == NAME_SIZE
    ensures r <==> Built(entry, tails) == name
    ensures Closed(entry) ==> (r <==> ShortName(entry) == name)
  {
    BuiltExact(entry);
    var base := Fill(entry[..BASE_SIZE], tails.base);
    var ext := Fill(entry[BASE_SIZE..], tails.ext);
    var filename := if ext[0] != 0 then CString(base[..]) + [DOT] + CString(ext[..]) else CString(base[..]);
    return filename == name;
  }
}
