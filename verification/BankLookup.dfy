/** The lookup of a memory bank by address, with the bank found last kept between calls. */
module BankLookup {
  /** The address range of one `mem_bank_t`. */
  datatype Region = Region(addr: nat, len: nat)

  /** Banks up to an entry of length 0. */
  ghost predicate Terminated(banks: seq<Region>) {
    exists i :: 0 <= i < |banks| && banks[i].len == 0
  }

  predicate Hit(b: Region, a: nat) {
    b.addr <= a && a - b.addr < b.len
  }

  datatype Found = Null | At(index: nat)

  /** The loop of bank_ptr from entry `i`: where its pointer stops, and what it returns. */
  function Search(banks: seq<Region>, i: nat, a: nat): (r: (nat, Found))
    requires exists j :: i <= j < |banks| && banks[j].len == 0
    ensures i <= r.0 < |banks|
    ensures r.1 == if Hit(banks[r.0], a) then At(r.0) else Null
    decreases |banks| - i
  {
    if banks[i].len == 0 then (i, Null)
    else if Hit(banks[i], a) then (i, At(i))
    else Search(banks, i + 1, a)
  }

  /** A search that forgets nothing: the first bank that holds `a`. */
  function Fresh(banks: seq<Region>, a: nat): Found
    requires Terminated(banks)
  {
    Search(banks, 0, a).1
  }

  /** One call of bank_ptr: the static pointer first, then the loop, which moves it. */
  function Lookup(banks: seq<Region>, kept: Found, a: nat): (r: (Found, Found))
    requires Terminated(banks) && (kept.At? ==> kept.index < |banks|)
    ensures r.0.At? ==> r.0.index < |banks|
  {
    if kept.At? && Hit(banks[kept.index], a) then (kept, kept)
    else
      var (i, found) := Search(banks, 0, a);
      (At(i), found)
  }

  /** The results of a run of calls. */
  function Lookups(banks: seq<Region>, kept: Found, addrs: seq<nat>): (r: seq<Found>)
    requires Terminated(banks) && (kept.At? ==> kept.index < |banks|)
    ensures |r| == |addrs|
    decreases |addrs|
  {
    if addrs == [] then []
    else
      var (next, found) := Lookup(banks, kept, addrs[0]);
      [found] + Lookups(banks, next, addrs[1..])
  }

  /** No address of a bank the search can return is answered by another bank. */
  ghost predicate Unshadowed(banks: seq<Region>)
    requires Terminated(banks)
  {
    forall a: nat, b: nat :: Fresh(banks, a).At? && Hit(banks[Fresh(banks, a).index], b) ==> Fresh(banks, b) == Fresh(banks, a)
  }

  /** The pointer kept between calls is one a search has left. */
  ghost predicate Left(banks: seq<Region>, kept: Found)
    requires Terminated(banks)
  {
    kept.At? ==> kept.index < |banks| && exists a: nat :: Search(banks, 0, a).0 == kept.index
  }

  /** Without shadowed banks, every call answers as a fresh search, from any pointer a search has left. */
  lemma {:induction false} FreshEveryTime(banks: seq<Region>, kept: Found, addrs: seq<nat>)
    requires Terminated(banks) && Unshadowed(banks) && Left(banks, kept)
    ensures forall k :: 0 <= k < |addrs| ==> Lookups(banks, kept, addrs)[k] == Fresh(banks, addrs[k])
    decreases |addrs|
  {
    if addrs != [] {
      var a := addrs[0];
      if kept.At? && Hit(banks[kept.index], a) {
        var c: nat :| Search(banks, 0, c).0 == kept.index;
        EndMisses(banks, 0, c);
        assert Fresh(banks, c) == kept;
      }
      var next := Lookup(banks, kept, a).0;
      assert Left(banks, next);
      FreshEveryTime(banks, next, addrs[1..]);
    }
  }

  /** A search stops at a bank of length 0 only if no bank held the address. */
  lemma EndMisses(banks: seq<Region>, i: nat, a: nat)
    requires exists j :: i <= j < |banks| && banks[j].len == 0
    ensures Search(banks, i, a).1 == Null ==> banks[Search(banks, i, a).0].len == 0
    decreases |banks| - i
  {
    if banks[i].len != 0 && !Hit(banks[i], a) {
      EndMisses(banks, i + 1, a);
    }
  }

  /** Bank `j` stands before the terminator. */
  predicate InTable(banks: seq<Region>, j: int) {
    0 <= j < |banks| && forall k :: 0 <= k <= j ==> banks[k].len != 0
  }

  /** Bank `j` is the first of the table to hold address `a`. */
  predicate Owns(banks: seq<Region>, j: nat, a: nat)
    requires j < |banks|
  {
    Hit(banks[j], a) && forall i :: 0 <= i < j ==> !Hit(banks[i], a)
  }

  /** A bank of the table that has an address of its own shares none with an earlier bank. */
  ghost predicate Separate(banks: seq<Region>) {
    forall i, j, a: nat, b: nat :: 0 <= i < j && InTable(banks, j) && Owns(banks, j, a) ==>
      !(Hit(banks[i], b) && Hit(banks[j], b))
  }

  /** The cached lookup answers every run of calls as a fresh search would, exactly when the banks are separate. */
  lemma CacheTransparent(banks: seq<Region>)
    requires Terminated(banks)
    ensures Separate(banks) <==>
      forall addrs: seq<nat>, k :: 0 <= k < |addrs| ==> Lookups(banks, Null, addrs)[k] == Fresh(banks, addrs[k])
  {
    SeparateUnshadowed(banks);
    hide Separate;
    if Unshadowed(banks) {
      forall addrs: seq<nat>, k | 0 <= k < |addrs|
        ensures Lookups(banks, Null, addrs)[k] == Fresh(banks, addrs[k])
      {
        FreshEveryTime(banks, Null, addrs);
      }
    } else {
      var a: nat, b: nat :| Fresh(banks, a).At? && Hit(banks[Fresh(banks, a).index], b) && Fresh(banks, b) != Fresh(banks, a);
      var addrs := [a, b];
      assert addrs[1..] == [b] && addrs[1..][1..] == [];
      assert Lookups(banks, Null, addrs)[1] == Fresh(banks, a);
      assert addrs[1] == b;
    }
  }

  /** What a search returns, by the table alone. */
  lemma {:induction false} SearchOwner(banks: seq<Region>, i: nat, a: nat, j: nat)
    requires exists k :: i <= k < |banks| && banks[k].len == 0
    requires forall k :: 0 <= k < i ==> banks[k].len != 0 && !Hit(banks[k], a)
    ensures Search(banks, i, a).1 == At(j) <==> InTable(banks, j) && Owns(banks, j, a)
    decreases |banks| - i
  {
    if banks[i].len != 0 && !Hit(banks[i], a) {
      SearchOwner(banks, i + 1, a, j);
    }
  }

  /** In plain numbers: a search answers with the first bank before the terminator whose range the address is in. */
  lemma SearchFinds(banks: seq<Region>, a: nat, j: nat)
    requires Terminated(banks)
    ensures Fresh(banks, a) == At(j) <==>
      && j < |banks| && banks[j].addr <= a < banks[j].addr + banks[j].len
      && forall k :: 0 <= k < j ==> banks[k].len != 0 && !(banks[k].addr <= a < banks[k].addr + banks[k].len)
  {
    SearchOwner(banks, 0, a, j);
    hide Search;
  }

  /** Separate tables are those in which no bank that a search returns is answered by another. */
  lemma SeparateUnshadowed(banks: seq<Region>)
    requires Terminated(banks)
    ensures Separate(banks) <==> Unshadowed(banks)
  {
    hide Search, Hit;
    forall a: nat, j: nat
      ensures Fresh(banks, a) == At(j) <==> InTable(banks, j) && Owns(banks, j, a)
    {
      SearchOwner(banks, 0, a, j);
    }
    if Separate(banks) {
      forall a: nat, b: nat | Fresh(banks, a).At? && Hit(banks[Fresh(banks, a).index], b)
        ensures Fresh(banks, b) == Fresh(banks, a)
      {
        var j := Fresh(banks, a).index;
        assert Owns(banks, j, a) && InTable(banks, j);
        assert Owns(banks, j, b);
      }
    }
    if Unshadowed(banks) {
      forall i, j, a: nat, b: nat | 0 <= i < j && InTable(banks, j) && Owns(banks, j, a)
        ensures !(Hit(banks[i], b) && Hit(banks[j], b))
      {
        assert Fresh(banks, a) == At(j);
        if Hit(banks[j], b) {
          assert Fresh(banks, b) == At(j);
        }
      }
    }
  }

  /** Disjoint banks are separate. */
  lemma DisjointSeparate(banks: seq<Region>)
    requires forall i, j, a: nat :: 0 <= i < j < |banks| ==> !(Hit(banks[i], a) && Hit(banks[j], a))
    ensures Separate(banks)
  {
  }

  /** A second bank over part of the first: the same address is answered by either, as the calls before it went. */
  lemma OverlapMisleads()
    ensures var banks := [Region(0, 8), Region(4, 8), Region(0, 0)];
      && Terminated(banks) && !Separate(banks)
      && Lookups(banks, Null, [9, 5]) == [At(1), At(1)] && Fresh(banks, 5) == At(0)
  {
    var banks := [Region(0, 8), Region(4, 8), Region(0, 0)];
    assert banks[2].len == 0;
    assert Search(banks, 0, 9) == Search(banks, 1, 9) == (1, At(1));
    assert [9, 5][1..] == [5] && [9, 5][1..][1..] == [];
    var rest := Lookups(banks, At(1), [5]);
    assert rest[0] == At(1);
    assert Owns(banks, 1, 9) && InTable(banks, 1) && Hit(banks[0], 5) && Hit(banks[1], 5);
  }

  class BankTable {
    const banks: seq<Region>
    var kept: Found

    ghost predicate Valid()
      reads this
    {
      Terminated(banks) && (kept.At? ==> kept.index < |banks|)
    }

    constructor (banks: seq<Region>)
      requires Terminated(banks)
      ensures Valid() && this.banks == banks && kept == Null
    {
      this.banks, kept := banks, Null;
    }

    /** bank_ptr */
    method BankPtr(addr: nat) returns (found: Found)
      requires Valid()
      modifies this
      ensures Valid() && (kept, found) == Lookup(banks, old(kept), addr)
    {
      if kept.At? {
        if Hit(banks[kept.index], addr) {
          return kept;
        }
      }
      var i := 0;
      while banks[i].len != 0 && !Hit(banks[i], addr)
        invariant 0 <= i < |banks| && exists j :: i <= j < |banks| && banks[j].len == 0
        invariant Search(banks, i, addr) == Search(banks, 0, addr)
        decreases |banks| - i
      {
        i := i + 1;
      }
      kept := At(i);
      found := if banks[i].len != 0 then At(i) else Null;
    }
  }
}
