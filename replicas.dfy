/** The list `find_nodes` builds in the two earlier revisions: one entry per
    probe, each the `max()` of the probed zone's ring, duplicates kept. */
module ReplicaLists {
  import opened Wrappers
  import opened Scoring
  import opened Zones
  import opened Membership
  import Arith

  /** The list built from the first `n` probes, or `None` when `max()` meets
      an empty ring (a `ValueError`) on the way. `rings` gives each zone's
      ring contents; a zone without an entry has an empty ring. */
  function ReplicaList(hash: string -> nat, zones: seq<string>, rings: map<string, seq<string>>,
                       key: string, offset: int, n: nat): Option<seq<string>>
    requires |zones| > 0
  {
    if n == 0 then Some([])
    else
      match ReplicaList(hash, zones, rings, key, offset, n - 1)
      case None => None
      case Some(front) =>
        match FirstMax(hash, key, MembersOf(rings, Probe(zones, offset, n - 1)))
        case None => None
        case Some(w) => Some(front + [w])
  }

  /** The list exists exactly when every probed ring has a node; it then has
      exactly `n` entries, entry `i` being the `max()` of the ring of the
      `i`-th probed zone. */
  lemma ReplicaListShape(hash: string -> nat, zones: seq<string>, rings: map<string, seq<string>>,
                         key: string, offset: int, n: nat)
    requires |zones| > 0
    ensures ReplicaList(hash, zones, rings, key, offset, n).Some? <==>
            forall i | 0 <= i < n :: MembersOf(rings, Probe(zones, offset, i)) != []
    ensures ReplicaList(hash, zones, rings, key, offset, n).Some? ==>
            |ReplicaList(hash, zones, rings, key, offset, n).value| == n
    ensures ReplicaList(hash, zones, rings, key, offset, n).Some? ==>
            forall i | 0 <= i < n :: FirstMax(hash, key, MembersOf(rings, Probe(zones, offset, i)))
                                     == Some(ReplicaList(hash, zones, rings, key, offset, n).value[i])
  {
    ReplicaListEntries(hash, zones, rings, key, offset, n);
    if forall i | 0 <= i < n :: MembersOf(rings, Probe(zones, offset, i)) != [] {
      ReplicaListExists(hash, zones, rings, key, offset, n);
    }
    if ReplicaList(hash, zones, rings, key, offset, n).Some? {
      forall i | 0 <= i < n ensures MembersOf(rings, Probe(zones, offset, i)) != [] {
        assert FirstMax(hash, key, MembersOf(rings, Probe(zones, offset, i))).Some?;
      }
    }
  }

  /** The list exists when no probed ring is empty. */
  lemma {:induction false} ReplicaListExists(hash: string -> nat, zones: seq<string>, rings: map<string, seq<string>>,
                                             key: string, offset: int, n: nat)
    requires |zones| > 0
    requires forall i | 0 <= i < n :: MembersOf(rings, Probe(zones, offset, i)) != []
    ensures ReplicaList(hash, zones, rings, key, offset, n).Some?
  {
    if n > 0 {
      ReplicaListExists(hash, zones, rings, key, offset, n - 1);
      assert MembersOf(rings, Probe(zones, offset, n - 1)) != [];
    }
  }

  /** Entry `i` of the list is the `max()` of the `i`-th probed ring. */
  lemma {:induction false} ReplicaListEntries(hash: string -> nat, zones: seq<string>, rings: map<string, seq<string>>,
                                              key: string, offset: int, n: nat)
    requires |zones| > 0
    ensures ReplicaList(hash, zones, rings, key, offset, n).Some? ==>
            |ReplicaList(hash, zones, rings, key, offset, n).value| == n
    ensures ReplicaList(hash, zones, rings, key, offset, n).Some? ==>
            forall i | 0 <= i < n :: FirstMax(hash, key, MembersOf(rings, Probe(zones, offset, i)))
                                     == Some(ReplicaList(hash, zones, rings, key, offset, n).value[i])
  {
    if n > 0 {
      ReplicaListEntries(hash, zones, rings, key, offset, n - 1);
      var front := ReplicaList(hash, zones, rings, key, offset, n - 1);
      var m := FirstMax(hash, key, MembersOf(rings, Probe(zones, offset, n - 1)));
      if front.Some? && m.Some? {
        var list := front.value + [m.value];
        assert ReplicaList(hash, zones, rings, key, offset, n) == Some(list);
        forall i | 0 <= i < n
          ensures FirstMax(hash, key, MembersOf(rings, Probe(zones, offset, i))) == Some(list[i])
        {
          if i < n - 1 {
            assert list[i] == front.value[i];
          }
        }
      }
    }
  }

  /** With more replicas than zones the walk comes round again and the list
      repeats the same node: duplicates are kept. */
  lemma ReplicaListRepeats(hash: string -> nat, zones: seq<string>, rings: map<string, seq<string>>,
                           key: string, offset: int, n: nat, list: seq<string>, i: nat)
    requires |zones| > 0 && i + |zones| < n
    requires ReplicaList(hash, zones, rings, key, offset, n) == Some(list)
    ensures |list| == n && list[i] == list[i + |zones|]
  {
    ReplicaListShape(hash, zones, rings, key, offset, n);
    ProbeWraps(zones, offset, i);
  }

  /** The offset `IndexStart(p, i)` builds the same list as starting at
      zone `(p + i) % len(zones)`. */
  lemma {:induction false} ReplicaListByIndexOffset(hash: string -> nat, zones: seq<string>, rings: map<string, seq<string>>,
                                                    key: string, p: nat, i: nat, n: nat)
    requires |zones| > 0
    ensures ReplicaList(hash, zones, rings, key, IndexStart(p, i, |zones|), n)
         == ReplicaList(hash, zones, rings, key, (p + i) % |zones|, n)
  {
    Arith.IndexCongruent(p, i, |zones|);
    ReplicaListCongruent(hash, zones, rings, key, IndexStart(p, i, |zones|), (p + i) % |zones|, n);
  }

  /** Offsets congruent modulo the number of zones build the same list. */
  lemma {:induction false} ReplicaListCongruent(hash: string -> nat, zones: seq<string>, rings: map<string, seq<string>>,
                                                key: string, a: int, b: int, n: nat)
    requires |zones| > 0 && a % |zones| == b % |zones|
    ensures ReplicaList(hash, zones, rings, key, a, n) == ReplicaList(hash, zones, rings, key, b, n)
  {
    if n > 0 {
      ProbeCongruent(zones, a, b, n - 1);
      ReplicaListCongruent(hash, zones, rings, key, a, b, n - 1);
    }
  }

  /** Once a probed ring is empty the list is lost for every longer walk:
      `find_nodes` raises as soon as it meets such a ring. */
  lemma ReplicaListStops(hash: string -> nat, zones: seq<string>, rings: map<string, seq<string>>,
                         key: string, offset: int, i: nat, n: nat)
    requires |zones| > 0 && i < n
    requires FirstMax(hash, key, MembersOf(rings, Probe(zones, offset, i))) == None
    ensures ReplicaList(hash, zones, rings, key, offset, n) == None
  {
    FirstMaxIsFirstBest(hash, key, MembersOf(rings, Probe(zones, offset, i)));
    ReplicaListShape(hash, zones, rings, key, offset, n);
  }
}
