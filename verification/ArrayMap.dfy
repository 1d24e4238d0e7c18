/** The fixed-size map of Kernel/usb/arraymap.hpp: keys and values in a table that is searched linearly. */
module ArrayMap {
  import opened Common

  datatype Entry = Entry(key: Option<nat>, value: nat)

  const FREE := Entry(None, 0)

  /** The value of the first entry with the key. */
  function Lookup(t: seq<Entry>, key: nat): Option<nat> {
    if t == [] then None else if t[0].key == Some(key) then Some(t[0].value) else Lookup(t[1..], key)
  }

  /** Fills the first free entry; a full table stays as it is. */
  function AfterPut(t: seq<Entry>, key: nat, value: nat): seq<Entry> {
    if t == [] then [] else if t[0].key == None then [Entry(Some(key), value)] + t[1..]
      else [t[0]] + AfterPut(t[1..], key, value)
  }

  /** Frees the first entry with the key; its value stays in the table. */
  function AfterDelete(t: seq<Entry>, key: nat): seq<Entry> {
    if t == [] then [] else if t[0].key == Some(key) then [t[0].(key := None)] + t[1..]
      else [t[0]] + AfterDelete(t[1..], key)
  }

  function Used(t: seq<Entry>): nat {
    if t == [] then 0 else (if t[0].key == None then 0 else 1) + Used(t[1..])
  }

  /** No key occurs in two entries. */
  predicate Distinct(t: seq<Entry>) {
    t != [] ==> Distinct(t[1..]) && (t[0].key.Some? ==> Lookup(t[1..], t[0].key.value) == None)
  }

  /** Putting a new key into a table with a free entry adds exactly that key. */
  lemma {:induction false} PutNew(t: seq<Entry>, key: nat, value: nat)
    requires Distinct(t) && Lookup(t, key) == None && Used(t) < |t|
    ensures |AfterPut(t, key, value)| == |t| && Distinct(AfterPut(t, key, value)) &&
      Used(AfterPut(t, key, value)) == Used(t) + 1
    ensures forall k :: Lookup(AfterPut(t, key, value), k) == if k == key then Some(value) else Lookup(t, k)
  {
    var t' := AfterPut(t, key, value);
    if t[0].key == None {
      assert t'[1..] == t[1..];
    } else {
      PutNew(t[1..], key, value);
      assert t'[1..] == AfterPut(t[1..], key, value) && t'[0] == t[0];
      assert t[0].key.value != key;
    }
  }

  /** A full table drops what is put into it. */
  lemma {:induction false} PutFull(t: seq<Entry>, key: nat, value: nat)
    requires Used(t) >= |t|
    ensures AfterPut(t, key, value) == t
  {
    if t != [] {
      UsedBound(t[1..]);
      PutFull(t[1..], key, value);
    }
  }

  lemma {:induction false} UsedBound(t: seq<Entry>)
    ensures Used(t) <= |t|
  {
    if t != [] {
      UsedBound(t[1..]);
    }
  }

  /**
   * In any table, keys repeated or not: a key can be looked up after Put exactly if it could before
   * or a free entry was left, and a new one then gives its own value.
   */
  lemma {:induction false} PutExact(t: seq<Entry>, key: nat, value: nat)
    ensures Lookup(AfterPut(t, key, value), key).Some? <==> Lookup(t, key).Some? || Used(t) < |t|
    ensures Lookup(t, key) == None ==> (Lookup(AfterPut(t, key, value), key) == Some(value) <==> Used(t) < |t|)
  {
    var t' := AfterPut(t, key, value);
    UsedBound(t);
    if t != [] && t[0].key == None {
      UsedBound(t[1..]);
    } else if t != [] {
      PutExact(t[1..], key, value);
      assert t'[0] == t[0] && t'[1..] == AfterPut(t[1..], key, value);
    }
  }

  lemma {:induction false} PutOthers(t: seq<Entry>, key: nat, value: nat, k: nat)
    requires k != key
    ensures Lookup(AfterPut(t, key, value), k) == Lookup(t, k) && |AfterPut(t, key, value)| == |t|
  {
    if t != [] && t[0].key != None {
      PutOthers(t[1..], key, value, k);
      assert AfterPut(t, key, value)[1..] == AfterPut(t[1..], key, value);
    } else if t != [] {
      assert AfterPut(t, key, value)[1..] == t[1..];
    }
  }

  lemma {:induction false} DeleteOthers(t: seq<Entry>, key: nat, k: nat)
    ensures k != key ==> Lookup(AfterDelete(t, key), k) == Lookup(t, k)
    ensures Lookup(t, key) == None ==> AfterDelete(t, key) == t
    ensures |AfterDelete(t, key)| == |t|
  {
    if t != [] && t[0].key != Some(key) {
      DeleteOthers(t[1..], key, k);
      assert AfterDelete(t, key)[1..] == AfterDelete(t[1..], key);
    } else if t != [] {
      assert AfterDelete(t, key)[1..] == t[1..];
    }
  }

  /** Deleting a key that is in the table removes exactly that key. */
  lemma {:induction false} DeleteOne(t: seq<Entry>, key: nat)
    requires Distinct(t) && Lookup(t, key).Some?
    ensures |AfterDelete(t, key)| == |t| && Distinct(AfterDelete(t, key)) && Used(AfterDelete(t, key)) + 1 == Used(t)
    ensures forall k :: Lookup(AfterDelete(t, key), k) == if k == key then None else Lookup(t, k)
  {
    var t' := AfterDelete(t, key);
    if t[0].key == Some(key) {
      assert t'[1..] == t[1..];
    } else {
      DeleteOne(t[1..], key);
      assert t'[1..] == AfterDelete(t[1..], key) && t'[0] == t[0];
    }
  }

  class ArrayMap {
    const table: array<Entry>

    constructor (size: nat)
      ensures fresh(table) && table.Length == size && forall i :: 0 <= i < size ==> table[i] == FREE
    {
      table := new Entry[size](_ => FREE);
    }

    method Get(key: nat) returns (value: Option<nat>)
      ensures value == Lookup(table[..], key)
    {
      var i := 0;
      while i < table.Length
        invariant 0 <= i <= table.Length && Lookup(table[..], key) == Lookup(table[i..], key)
      {
        if table[i].key == Some(key) {
          return Some(table[i].value);
        }
        i := i + 1;
      }
      return None;
    }

    method Put(key: nat, value: nat)
      modifies table
      ensures table[..] == AfterPut(old(table[..]), key, value)
    {
      var i := 0;
      ghost var t := table[..];
      while i < table.Length
        invariant 0 <= i <= table.Length && table[..] == t
        invariant AfterPut(t, key, value) == t[..i] + AfterPut(t[i..], key, value)
      {
        if table[i].key == None {
          table[i] := Entry(Some(key), value);
          assert t[..i] + ([Entry(Some(key), value)] + t[i..][1..]) == t[i := Entry(Some(key), value)];
          return;
        }
        assert t[..i] + ([t[i]] + AfterPut(t[i + 1..], key, value)) == t[..i + 1] + AfterPut(t[i + 1..], key, value);
        i := i + 1;
      }
    }

    method Delete(key: nat)
      modifies table
      ensures table[..] == AfterDelete(old(table[..]), key)
    {
      var i := 0;
      ghost var t := table[..];
      while i < table.Length
        invariant 0 <= i <= table.Length && table[..] == t
        invariant AfterDelete(t, key) == t[..i] + AfterDelete(t[i..], key)
      {
        if table[i].key == Some(key) {
          table[i] := table[i].(key := None);
          assert t[..i] + ([t[i].(key := None)] + t[i..][1..]) == t[i := t[i].(key := None)];
          return;
        }
        assert t[..i] + ([t[i]] + AfterDelete(t[i + 1..], key)) == t[..i + 1] + AfterDelete(t[i + 1..], key);
        i := i + 1;
      }
    }
  }
}
