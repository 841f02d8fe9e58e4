/** The router's longest-prefix match (section 5.2.4.3 of RFC 1812). */
module Routing {
  import opened MachineIntegers
  import opened Options

  // ------------------------------------------------------------------ addresses as bit strings

  /** A 32-bit word as its bits, the highest first. */
  type Bits = b: seq<bool> | |b| == 32 witness seq(32, _ => false)

  function BitsOf(x: nat, n: nat): (b: seq<bool>)
    ensures |b| == n
  {
    if n == 0 then [] else BitsOf(x / 2, n - 1) + [x % 2 == 1]
  }

  function Word(x: u32): Bits { BitsOf(x, 32) }

  function Number(b: seq<bool>): nat {
    if b == [] then 0 else 2 * Number(b[..|b| - 1]) + (if b[|b| - 1] then 1 else 0)
  }

  /** The bit string determines the number. */
  lemma {:induction false} BitsAreExact(x: nat, n: nat)
    requires x < Pow2(n)
    ensures Number(BitsOf(x, n)) == x
  {
    if n > 0 {
      BitsAreExact(x / 2, n - 1);
      assert BitsOf(x, n)[..n - 1] == BitsOf(x / 2, n - 1);
    }
  }

  function And(a: Bits, b: Bits): Bits { seq(32, i requires 0 <= i < 32 => a[i] && b[i]) }

  function ShiftLeft(a: Bits, n: nat): Bits
    requires n <= 32
  {
    a[n..] + seq(n, _ => false)
  }

  const ONES: Bits := seq(32, _ => true)

  /** The mask of a prefix length: that many ones from the top. */
  ghost function Mask(len: nat): Bits { seq(32, i => i < len) }

  lemma MaskByShift(len: nat)
    requires len <= 32
    ensures ShiftLeft(ONES, 32 - len) == Mask(len)
    ensures 0 < len ==> ShiftLeft(Mask(len), 1) == Mask(len - 1)
  {
  }

  // ------------------------------------------------------------------ routes

  type PrefixLength = n: int | 0 <= n <= 32

  datatype Route = Route(prefix: u32, len: PrefixLength, nextHop: Option<u32>, interfaceNum: nat) {

    /** The route applies to the destinations that share its first `len` bits. */
    predicate Matches(dst: u32) {
      Word(prefix)[..len] == Word(dst)[..len]
    }
  }

  datatype Entry = Entry(interfaceNum: nat, nextHop: Option<u32>)

  type Key = (Bits, nat)
  type Table = map<Key, Entry>

  function KeyOf(prefix: u32, len: PrefixLength): Key {
    (if len == 0 then seq(32, _ => false) else And(ShiftLeft(ONES, 32 - len), Word(prefix)), len)
  }

  /** The first entry for a key stays. */
  function Emplace(table: Table, key: Key, entry: Entry): Table {
    if key in table then table else table[key := entry]
  }

  function TableOf(routes: seq<Route>): Table {
    if routes == [] then map[]
    else
      var r := routes[|routes| - 1];
      Emplace(TableOf(routes[..|routes| - 1]), KeyOf(r.prefix, r.len), Entry(r.interfaceNum, r.nextHop))
  }

  /** The key under which a destination is looked up at a prefix length. */
  ghost function Probe(dst: u32, len: nat): Key { (And(Mask(len), Word(dst)), len) }

  /** The search: the longest length at most `len` with an entry, and that entry. */
  ghost function Lookup(table: Table, dst: u32, len: nat): Option<(nat, Entry)> {
    if Probe(dst, len) in table then Some((len, table[Probe(dst, len)]))
    else if len == 0 then None
    else Lookup(table, dst, len - 1)
  }

  /** The naive choice: scan the routes in the order added, keeping the position of the
      matching one with the longest prefix, and of two as long the earlier. */
  function Best(routes: seq<Route>, dst: u32): (best: Option<nat>)
    ensures best.Some? ==> best.value < |routes|
  {
    if routes == [] then None
    else
      var n := |routes| - 1;
      var best := Best(routes[..n], dst);
      if routes[n].Matches(dst) && (best.None? || routes[best.value].len < routes[n].len) then Some(n) else best
  }

  // ------------------------------------------------------------------ the search is the naive choice

  lemma KeyIsProbe(prefix: u32, len: PrefixLength, dst: u32)
    ensures KeyOf(prefix, len) == Probe(dst, len) <==> Word(prefix)[..len] == Word(dst)[..len]
  {
    MaskByShift(len);
    hide BitsOf;
    var a, b := Word(prefix), Word(dst);
    if a[..len] == b[..len] {
      forall i | 0 <= i < 32
        ensures KeyOf(prefix, len).0[i] == Probe(dst, len).0[i]
      {
        assert i < len ==> a[..len][i] == b[..len][i];
      }
      assert KeyOf(prefix, len).0 == Probe(dst, len).0;
    }
    if KeyOf(prefix, len) == Probe(dst, len) {
      forall i | 0 <= i < len
        ensures a[i] == b[i]
      {
        assert KeyOf(prefix, len).0[i] == Probe(dst, len).0[i];
      }
    }
  }

  lemma {:induction false} LookupBelow(table: Table, dst: u32, len: nat)
    ensures var found := Lookup(table, dst, len);
            found.Some? ==> found.value.0 <= len && Probe(dst, found.value.0) in table
    ensures forall k :: 0 <= k <= len && Probe(dst, k) in table ==>
              Lookup(table, dst, len).Some? && k <= Lookup(table, dst, len).value.0
  {
    hide Probe;
    if Probe(dst, len) !in table && len > 0 {
      LookupBelow(table, dst, len - 1);
    }
  }

  /** A new entry is found exactly when it applies and is longer than what was found before. */
  lemma {:induction false} LookupInserted(table: Table, key: Key, entry: Entry, dst: u32, len: nat)
    requires key !in table
    ensures var before := Lookup(table, dst, len);
            Lookup(table[key := entry], dst, len) ==
            if key == Probe(dst, key.1) && key.1 <= len && (before.None? || before.value.0 < key.1)
            then Some((key.1, entry)) else before
  {
    hide And, Mask, Word;
    LookupBelow(table, dst, len);
    if Probe(dst, len) !in table && Probe(dst, len) != key && len > 0 {
      LookupInserted(table, key, entry, dst, len - 1);
    }
  }

  lemma {:induction false} LookupIsBest(routes: seq<Route>, dst: u32)
    ensures var best := Best(routes, dst);
            Lookup(TableOf(routes), dst, 32) ==
            if best.None? then None
            else var r := routes[best.value]; Some((r.len, Entry(r.interfaceNum, r.nextHop)))
  {
    hide KeyOf, Probe;
    if routes == [] {
      EmptyLookup(dst, 32);
    } else {
      var front, r := routes[..|routes| - 1], routes[|routes| - 1];
      LookupIsBest(front, dst);
      var table, key := TableOf(front), KeyOf(r.prefix, r.len);
      KeyIsProbe(r.prefix, r.len, dst);
      KeyLength(r.prefix, r.len);
      if key in table {
        LookupBelow(table, dst, 32);
      } else {
        LookupInserted(table, key, Entry(r.interfaceNum, r.nextHop), dst, 32);
        ProbeLength(dst, r.len, key);
      }
    }
  }

  lemma KeyLength(prefix: u32, len: PrefixLength)
    ensures KeyOf(prefix, len).1 == len
  {
  }

  lemma ProbeLength(dst: u32, len: nat, key: Key)
    ensures key == Probe(dst, len) ==> key.1 == len
  {
  }

  lemma {:induction false} EmptyLookup(dst: u32, len: nat)
    ensures Lookup(map[], dst, len) == None
  {
    if len > 0 {
      EmptyLookup(dst, len - 1);
    }
  }

  /** What the naive choice means: among the routes that match, none is longer, and none
      added before is as long. */
  lemma {:induction false} BestIsLongest(routes: seq<Route>, dst: u32, k: nat)
    requires k < |routes| && routes[k].Matches(dst)
    ensures var best := Best(routes, dst);
            && best.Some? && routes[best.value].Matches(dst)
            && routes[k].len <= routes[best.value].len
            && (k < best.value ==> routes[k].len < routes[best.value].len)
  {
    hide Word;
    var n := |routes| - 1;
    if k < n {
      BestIsLongest(routes[..n], dst, k);
    } else {
      BestMatches(routes[..n], dst);
    }
  }

  lemma {:induction false} BestMatches(routes: seq<Route>, dst: u32)
    ensures var best := Best(routes, dst);
            best.Some? ==> routes[best.value].Matches(dst)
  {
    hide Word;
    if routes != [] {
      BestMatches(routes[..|routes| - 1], dst);
    }
  }
}
