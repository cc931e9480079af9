/** The converged revision, `clandestined/clandestined.py`: a rendezvous
    (highest random weight) ring whose ties go to the lexicographically
    greatest node id, and a zone-aware cluster of such rings. */
module Clandestined {
  import opened Wrappers
  import opened Lists
  import Lex
  import Text
  import opened Scoring
  import opened Zones
  import opened Membership

  datatype Error =
    | NoSuchNode(node: string)
    | NoSuchZone(zone: string)
    | DuplicateNode(node: string)
    /** `ZeroDivisionError`: a zone index taken modulo an empty zone list. */
    | NoZones

  /** `node` beats `other` for `key`: a higher score, or the same score and a
      greater id. */
  predicate Beats(hash: string -> nat, key: string, node: string, other: string) {
    Score(hash, node, key) > Score(hash, other, key)
    || (Score(hash, node, key) == Score(hash, other, key) && Lex.Less(other, node))
  }

  /** `w` is at least as good as every node of `nodes`. */
  predicate Dominates(hash: string -> nat, key: string, w: string, nodes: seq<string>) {
    forall n | n in nodes :: n == w || Beats(hash, key, w, n)
  }

  /** One iteration of `find_node`'s loop: the current winner meets `node`. */
  function Challenge(hash: string -> nat, key: string, winner: Option<string>, node: string): Option<string> {
    if winner.None? || Score(hash, node, key) > Score(hash, winner.value, key) then Some(node)
    else if Score(hash, node, key) == Score(hash, winner.value, key) then Some(Lex.Max(node, winner.value))
    else winner
  }

  /** The winner `find_node` reports after scanning `nodes` in order. */
  function Winner(hash: string -> nat, key: string, nodes: seq<string>): Option<string> {
    if nodes == [] then None
    else Challenge(hash, key, Winner(hash, key, nodes[..|nodes| - 1]), nodes[|nodes| - 1])
  }

  /** `find_node` returns `None` exactly on an empty ring; otherwise a node
      of the ring that has the maximal score, and among the nodes sharing
      that score, the greatest id. */
  lemma {:induction false} WinnerIsBest(hash: string -> nat, key: string, nodes: seq<string>)
    ensures Winner(hash, key, nodes).None? <==> nodes == []
    ensures Winner(hash, key, nodes).Some? ==>
              Winner(hash, key, nodes).value in nodes
              && Dominates(hash, key, Winner(hash, key, nodes).value, nodes)
  {
    if nodes != [] {
      var rest, last := nodes[..|nodes| - 1], nodes[|nodes| - 1];
      assert nodes == rest + [last];
      WinnerIsBest(hash, key, rest);
      var m := Winner(hash, key, rest);
      assert Winner(hash, key, nodes) == Challenge(hash, key, m, last);
      if m.Some? {
        ChallengeDominates(hash, key, rest, m.value, last);
      } else {
        assert nodes == [last];
      }
    }
  }

  /** `find_node` returns `None` exactly on an empty ring, and otherwise one
      of the ring's nodes. */
  lemma {:induction false} WinnerIn(hash: string -> nat, key: string, nodes: seq<string>)
    ensures Winner(hash, key, nodes).None? <==> nodes == []
    ensures Winner(hash, key, nodes).Some? ==> Winner(hash, key, nodes).value in nodes
  {
    if nodes != [] {
      var rest, last := nodes[..|nodes| - 1], nodes[|nodes| - 1];
      assert nodes == rest + [last];
      WinnerIn(hash, key, rest);
    }
  }

  /** A challenger met by the best node of `rest` leaves a node that is
      best in `rest + [last]`. */
  lemma ChallengeDominates(hash: string -> nat, key: string, rest: seq<string>, m: string, last: string)
    requires Dominates(hash, key, m, rest)
    ensures Dominates(hash, key, Challenge(hash, key, Some(m), last).value, rest + [last])
  {
    var w := Challenge(hash, key, Some(m), last).value;
    ChallengeBeats(hash, key, m, last);
    forall n | n in rest + [last]
      ensures n == w || Beats(hash, key, w, n)
    {
      if n != last {
        assert n in rest;
        if n != m && w != m {
          BeatsTransitive(hash, key, w, m, n);
        }
      }
    }
  }

  /** The node a challenge leaves standing is one of the two and is at
      least as good as both. */
  lemma ChallengeBeats(hash: string -> nat, key: string, m: string, last: string)
    ensures var w := Challenge(hash, key, Some(m), last).value;
            && (w == m || w == last)
            && (w == m || Beats(hash, key, w, m))
            && (w == last || Beats(hash, key, w, last))
  {
    if Score(hash, last, key) == Score(hash, m, key) {
      Lex.LessTotal(last, m);
    }
  }

  /** Beating is transitive. */
  lemma BeatsTransitive(hash: string -> nat, key: string, a: string, b: string, c: string)
    requires Beats(hash, key, a, b) && Beats(hash, key, b, c)
    ensures Beats(hash, key, a, c)
  {
    if Score(hash, a, key) == Score(hash, c, key) {
      Lex.LessTransitive(c, b, a);
    }
  }

  /** At most one node of a list dominates it. */
  lemma DominatorUnique(hash: string -> nat, key: string, a: string, b: string, nodes: seq<string>)
    requires a in nodes && b in nodes
    requires Dominates(hash, key, a, nodes) && Dominates(hash, key, b, nodes)
    ensures a == b
  {
    if a != b {
      assert Beats(hash, key, a, b) && Beats(hash, key, b, a);
      Lex.LessAsymmetric(a, b);
    }
  }

  /** The winner depends only on which nodes the ring holds, never on the
      order in which they were added. */
  lemma WinnerOrderFree(hash: string -> nat, key: string, nodes1: seq<string>, nodes2: seq<string>)
    requires forall n :: n in nodes1 <==> n in nodes2
    ensures Winner(hash, key, nodes1) == Winner(hash, key, nodes2)
  {
    if nodes1 != [] { assert nodes1[0] in nodes2; }
    if nodes2 != [] { assert nodes2[0] in nodes1; }
    WinnerIsBest(hash, key, nodes1);
    WinnerIsBest(hash, key, nodes2);
    if nodes1 != [] {
      var w1, w2 := Winner(hash, key, nodes1).value, Winner(hash, key, nodes2).value;
      DominatorUnique(hash, key, w1, w2, nodes1);
    }
  }

  /** Growing the ring by one node moves a key only onto the new node. */
  lemma WinnerAfterAdd(hash: string -> nat, key: string, nodes: seq<string>, node: string)
    ensures Winner(hash, key, nodes + [node]) == Winner(hash, key, nodes)
            || Winner(hash, key, nodes + [node]) == Some(node)
  {
    assert (nodes + [node])[..|nodes|] == nodes;
  }

  /** Shrinking the ring by one node moves only the keys that node owned. */
  lemma WinnerAfterRemove(hash: string -> nat, key: string, nodes: seq<string>, node: string)
    requires node in nodes
    requires Winner(hash, key, nodes) != Some(node)
    ensures Winner(hash, key, RemoveFirst(nodes, node)) == Winner(hash, key, nodes)
  {
    var rest := RemoveFirst(nodes, node);
    WinnerIsBest(hash, key, nodes);
    WinnerIsBest(hash, key, rest);
    var w := Winner(hash, key, nodes).value;
    assert w in multiset(nodes);
    assert w in multiset(rest);
    forall n | n in rest ensures n in nodes {
      assert n in multiset(rest);
    }
    var w' := Winner(hash, key, rest).value;
    DominatorUnique(hash, key, w, w', rest);
  }

  /** A hash under which every string collides, as the collision test
      arranges by replacing `murmur3_32`. */
  function Colliding(s: string): nat {
    4294967295
  }

  /** With every score equal, ring ['c', 'b', 'a'] sends every key to 'c'. */
  lemma ConstantHashTieBreak(key: string)
    ensures Winner(Colliding, key, ["c", "b", "a"]) == Some("c")
  {
    assert ["c", "b", "a"][..2] == ["c", "b"];
    assert ["c", "b"][..1] == ["c"];
    assert ["c"][..0] == [];
    assert Lex.Less("b", "c") && Lex.Less("a", "c");
    assert Winner(Colliding, key, ["c"]) == Some("c");
    assert Lex.Max("b", "c") == "c";
    assert Winner(Colliding, key, ["c", "b"]) == Some("c");
    assert Lex.Max("a", "c") == "c";
  }

  /** `RendezvousHash`: an insertion-ordered list of node ids scored with a
      fixed hash (`murmur3_32` under the ring's seed, `Murmur(seed)`). */
  class RendezvousHash {
    var nodes: seq<string>
    const hash: string -> nat

    /** `RendezvousHash(nodes, seed)` with `hash == Murmur(seed)`; the list
        given is taken as it is. */
    constructor (nodes: seq<string>, hash: string -> nat)
      ensures this.nodes == nodes && this.hash == hash
    {
      this.nodes := nodes;
      this.hash := hash;
    }

    /** `add_node`: appends an id not yet present; re-adding is a no-op. */
    method AddNode(node: string)
      modifies this`nodes
      ensures nodes == if node in old(nodes) then old(nodes) else old(nodes) + [node]
      ensures node in nodes
      ensures NoDup(old(nodes)) ==> NoDup(nodes)
    {
      if node !in nodes {
        nodes := nodes + [node];
      }
    }

    /** `remove_node`: drops a present id, keeping the others in order, and
        reports an absent one without changing anything. */
    method RemoveNode(node: string) returns (r: Outcome<Error>)
      modifies this`nodes
      ensures node in old(nodes) ==> r == Pass && nodes == RemoveFirst(old(nodes), node)
      ensures node !in old(nodes) ==> r == Fail(NoSuchNode(node)) && nodes == old(nodes)
    {
      if node in nodes {
        nodes := RemoveFirst(nodes, node);
        r := Pass;
      } else {
        r := Fail(NoSuchNode(node));
      }
    }

    /** `find_node`: one pass over the list keeping the best score so far;
        a tie goes to the greater id. */
    method FindNode(key: string) returns (winner: Option<string>)
      ensures winner == Winner(hash, key, nodes)
    {
      var highScore: int := -1;
      winner := None;
      for i := 0 to |nodes|
        invariant winner == Winner(hash, key, nodes[..i])
        invariant highScore == if winner.None? then -1 else Score(hash, winner.value, key)
      {
        var node := nodes[i];
        assert nodes[..i + 1][..i] == nodes[..i];
        var score := Score(hash, node, key);
        if score > highScore {
          highScore, winner := score, Some(node);
        } else if score == highScore {
          highScore, winner := score, Some(Lex.Max(node, winner.value));
        }
      }
      assert nodes[..|nodes|] == nodes;
    }
  }

  /** What the zone's ring answers for `key`. */
  function ZoneWinner(hash: string -> nat, zoneMembers: map<string, seq<string>>, zone: string, key: string): Option<string> {
    Winner(hash, key, MembersOf(zoneMembers, zone))
  }

  /** The set `find_nodes` builds from its first `n` probes. */
  function Placement(hash: string -> nat, zones: seq<string>, zoneMembers: map<string, seq<string>>,
                     key: string, offset: int, n: nat): set<Option<string>>
    requires |zones| > 0
  {
    if n == 0 then {}
    else Placement(hash, zones, zoneMembers, key, offset, n - 1)
         + {ZoneWinner(hash, zoneMembers, Probe(zones, offset, n - 1), key)}
  }

  /** `find_nodes` returns at most `replicas` distinct entries. */
  lemma {:induction false} PlacementBound(hash: string -> nat, zones: seq<string>, zoneMembers: map<string, seq<string>>,
                                          key: string, offset: int, n: nat)
    requires |zones| > 0
    ensures |Placement(hash, zones, zoneMembers, key, offset, n)| <= n
  {
    if n > 0 {
      PlacementBound(hash, zones, zoneMembers, key, offset, n - 1);
    }
  }

  /** An entry of the result is what the ring of one probed zone answers. */
  lemma {:induction false} PlacementEntries(hash: string -> nat, zones: seq<string>, zoneMembers: map<string, seq<string>>,
                                            key: string, offset: int, n: nat, x: Option<string>)
    requires |zones| > 0
    ensures x in Placement(hash, zones, zoneMembers, key, offset, n) <==>
            exists i :: 0 <= i < n && x == ZoneWinner(hash, zoneMembers, Probe(zones, offset, i), key)
  {
    if n > 0 {
      PlacementEntries(hash, zones, zoneMembers, key, offset, n - 1, x);
    }
  }

  /** `find_nodes_by_index` passes the offset `p + (i % len(zones))`; it
      probes the same zones as starting at `(p + i) % len(zones)`. */
  lemma {:induction false} PlacementByIndexOffset(hash: string -> nat, zones: seq<string>, zoneMembers: map<string, seq<string>>,
                                                  key: string, p: nat, i: nat, n: nat)
    requires |zones| > 0
    ensures Placement(hash, zones, zoneMembers, key, IndexStart(p, i, |zones|), n)
         == Placement(hash, zones, zoneMembers, key, (p + i) % |zones|, n)
  {
    if n > 0 {
      IndexOffset(zones, p, i, n - 1);
      PlacementByIndexOffset(hash, zones, zoneMembers, key, p, i, n - 1);
    }
  }

  /** Every id belongs to at most one zone's member list. */
  predicate DisjointMembers(zoneMembers: map<string, seq<string>>) {
    forall z1, z2, id | z1 in zoneMembers && z2 in zoneMembers && id in zoneMembers[z1] && id in zoneMembers[z2] :: z1 == z2
  }

  /** The answers of the first `n` probes, in probe order. */
  function Answers(hash: string -> nat, zones: seq<string>, zoneMembers: map<string, seq<string>>,
                   key: string, offset: int, n: nat): (r: seq<Option<string>>)
    requires |zones| > 0
    ensures |r| == n
  {
    if n == 0 then []
    else Answers(hash, zones, zoneMembers, key, offset, n - 1)
         + [ZoneWinner(hash, zoneMembers, Probe(zones, offset, n - 1), key)]
  }

  /** The set is the set of the answers. */
  lemma {:induction false} PlacementOfAnswers(hash: string -> nat, zones: seq<string>, zoneMembers: map<string, seq<string>>,
                                              key: string, offset: int, n: nat)
    requires |zones| > 0
    ensures Placement(hash, zones, zoneMembers, key, offset, n)
         == set x | x in Answers(hash, zones, zoneMembers, key, offset, n)
  {
    if n > 0 {
      PlacementOfAnswers(hash, zones, zoneMembers, key, offset, n - 1);
      ElemsAppend(Answers(hash, zones, zoneMembers, key, offset, n - 1),
                  ZoneWinner(hash, zoneMembers, Probe(zones, offset, n - 1), key));
    }
  }

  /** Answer `i` is the answer of the ring of the `i`-th probed zone. */
  lemma {:induction false} AnswersEntries(hash: string -> nat, zones: seq<string>, zoneMembers: map<string, seq<string>>,
                                          key: string, offset: int, n: nat, i: nat)
    requires |zones| > 0 && i < n
    ensures Answers(hash, zones, zoneMembers, key, offset, n)[i]
         == ZoneWinner(hash, zoneMembers, Probe(zones, offset, i), key)
  {
    if i < n - 1 {
      AnswersEntries(hash, zones, zoneMembers, key, offset, n - 1, i);
    }
  }

  /** With no more replicas than zones, each probe visits its own zone;
      when those zones all have members, the result holds `n` distinct ids,
      one from each probed zone. */
  lemma PlacementSpread(hash: string -> nat, zones: seq<string>, zoneMembers: map<string, seq<string>>,
                        key: string, offset: int, n: nat)
    requires |zones| > 0 && NoDup(zones) && n <= |zones| && DisjointMembers(zoneMembers)
    requires forall i | 0 <= i < n :: MembersOf(zoneMembers, Probe(zones, offset, i)) != []
    ensures |Placement(hash, zones, zoneMembers, key, offset, n)| == n
    ensures forall x | x in Placement(hash, zones, zoneMembers, key, offset, n) :: x.Some?
  {
    var answers := Answers(hash, zones, zoneMembers, key, offset, n);
    forall i | 0 <= i < n ensures answers[i] == ZoneWinner(hash, zoneMembers, Probe(zones, offset, i), key) {
      AnswersEntries(hash, zones, zoneMembers, key, offset, n, i);
    }
    forall i, j | 0 <= i < j < n ensures answers[i] != answers[j] {
      ProbedWinnersDiffer(hash, zones, zoneMembers, key, offset, i, j);
    }
    forall i | 0 <= i < n ensures answers[i].Some? {
      WinnerIn(hash, key, MembersOf(zoneMembers, Probe(zones, offset, i)));
    }
    DistinctCard(answers);
    PlacementOfAnswers(hash, zones, zoneMembers, key, offset, n);
  }

  /** Two probes of one walk round the zones, in zones that both have
      members, are answered by different nodes. */
  lemma ProbedWinnersDiffer(hash: string -> nat, zones: seq<string>, zoneMembers: map<string, seq<string>>,
                            key: string, offset: int, i: nat, j: nat)
    requires NoDup(zones) && i < j < |zones| && DisjointMembers(zoneMembers)
    requires MembersOf(zoneMembers, Probe(zones, offset, i)) != []
    requires MembersOf(zoneMembers, Probe(zones, offset, j)) != []
    ensures ZoneWinner(hash, zoneMembers, Probe(zones, offset, i), key)
         != ZoneWinner(hash, zoneMembers, Probe(zones, offset, j), key)
  {
    var zi, zj := Probe(zones, offset, i), Probe(zones, offset, j);
    WinnerIn(hash, key, MembersOf(zoneMembers, zi));
    WinnerIn(hash, key, MembersOf(zoneMembers, zj));
    ProbesDistinct(zones, offset, i, j);
  }

  /** Adding a node moves a key, in any zone, only onto the new node. */
  lemma JoinMovesKeysOnlyToNewNode(hash: string -> nat, s: ClusterState, id: string, zone: string,
                                   name: Option<string>, z: string, key: string)
    ensures var after := ZoneWinner(hash, JoinState(s, id, zone, name).zoneMembers, z, key);
            after == ZoneWinner(hash, s.zoneMembers, z, key) || after == Some(id)
  {
    if z == zone {
      WinnerAfterAdd(hash, key, MembersOf(s.zoneMembers, zone), id);
    }
  }

  /** Removing a node moves, in any zone, only the keys that node owned. */
  lemma LeaveMovesOnlyOwnedKeys(hash: string -> nat, s: ClusterState, id: string, zone: string,
                                z: string, key: string)
    requires zone in s.zoneMembers && id in s.zoneMembers[zone]
    requires ZoneWinner(hash, s.zoneMembers, z, key) != Some(id)
    ensures ZoneWinner(hash, LeaveState(s, id, zone).zoneMembers, z, key) == ZoneWinner(hash, s.zoneMembers, z, key)
  {
    if z == zone {
      var m := s.zoneMembers[zone];
      WinnerAfterRemove(hash, key, m, id);
      if RemoveFirst(m, id) == [] {
        WinnerIn(hash, key, m);
        assert false;
      }
    }
  }

  /** In a coherent cluster no id is in two zones' member lists. */
  lemma CoherentDisjoint(s: ClusterState)
    requires MembersAreNamed(s)
    ensures DisjointMembers(s.zoneMembers)
  {
    forall z1, z2, id | z1 in s.zoneMembers && z2 in s.zoneMembers && id in s.zoneMembers[z1] && id in s.zoneMembers[z2]
      ensures z1 == z2
    {
      var i :| 0 <= i < |s.zoneMembers[z1]| && s.zoneMembers[z1][i] == id;
      var j :| 0 <= j < |s.zoneMembers[z2]| && s.zoneMembers[z2][j] == id;
    }
  }

  /** Every id `find_nodes` reports is a node of the cluster. */
  lemma PlacementNamesNodes(hash: string -> nat, s: ClusterState, key: string, offset: int, n: nat, x: Option<string>)
    requires ValidState(s) && |s.zones| > 0
    requires x in Placement(hash, s.zones, s.zoneMembers, key, offset, n) && x.Some?
    ensures x.value in s.nodes
  {
    PlacementEntries(hash, s.zones, s.zoneMembers, key, offset, n, x);
    var i :| 0 <= i < n && x == ZoneWinner(hash, s.zoneMembers, Probe(s.zones, offset, i), key);
    var m := MembersOf(s.zoneMembers, Probe(s.zones, offset, i));
    WinnerIn(hash, key, m);
    var k :| 0 <= k < |m| && m[k] == x.value;
  }

  /** In a valid cluster whose listed zones all hold nodes, asking for no
      more replicas than there are zones yields that many distinct nodes,
      one from each probed zone. */
  lemma ValidPlacementSpread(hash: string -> nat, s: ClusterState, key: string, offset: int, n: nat)
    requires ValidState(s) && |s.zones| > 0 && n <= |s.zones|
    requires forall z | z in s.zones :: z in s.zoneMembers
    ensures |Placement(hash, s.zones, s.zoneMembers, key, offset, n)| == n
    ensures forall x | x in Placement(hash, s.zones, s.zoneMembers, key, offset, n) :: x.Some?
  {
    CoherentDisjoint(s);
    Lex.StrictIsSortedNoDup(s.zones);
    forall i | 0 <= i < n ensures MembersOf(s.zoneMembers, Probe(s.zones, offset, i)) != [] {
      assert Probe(s.zones, offset, i) in s.zones;
    }
    PlacementSpread(hash, s.zones, s.zoneMembers, key, offset, n);
  }

  /** How `remove_zone` as written goes wrong. */
  datatype Defect =
    /** `self.nodes.remove(member)`: a dict has no `remove`. */
    | DictHasNoRemove
    /** `del self.rings[zone]` on a zone whose ring was never created. */
    | NoRingToDelete(zone: string)

  /** The outcome of `remove_zone` as written. */
  datatype ZoneRemoval =
    | Removed(after: ClusterState)
    | NoSuchZoneRaised
    | Crashed(defect: Defect, after: ClusterState)

  /** `remove_zone` as written: the zone leaves the list, then the first
      member (if any) is "removed" from the names dictionary, which raises;
      a zone without members reaches `del self.rings[zone]`, which raises
      for a zone that `add_zone` alone created. Reading `zone_members[zone]`
      creates an empty list for such a zone. */
  function RemoveZoneAsWritten(s: ClusterState, zone: string): ZoneRemoval {
    if zone !in s.zones then NoSuchZoneRaised
    else
      var zones := RemoveFirst(s.zones, zone);
      var members := MembersOf(s.zoneMembers, zone);
      var listed := s.zoneMembers[zone := members];
      if members != [] then Crashed(DictHasNoRemove, s.(zones := zones, zoneMembers := listed))
      else if zone !in s.zoneMembers then
        Crashed(NoRingToDelete(zone), s.(zones := Lex.Sort(zones), zoneMembers := listed))
      else Removed(s.(zones := Lex.Sort(zones), zoneMembers := listed - {zone}))
  }

  /** Removing a zone that has members fails as written, and leaves those
      members named in a zone that is no longer listed. */
  lemma RemovePopulatedZoneAsWritten(s: ClusterState, zone: string)
    requires ValidState(s) && zone in s.zoneMembers
    ensures RemoveZoneAsWritten(s, zone).Crashed?
    ensures RemoveZoneAsWritten(s, zone).defect == DictHasNoRemove
    ensures !ListsListed(RemoveZoneAsWritten(s, zone).after)
  {
    Lex.StrictIsSortedNoDup(s.zones);
    RemoveFirstNoDup(s.zones, zone);
    assert zone in RemoveZoneAsWritten(s, zone).after.zoneMembers;
  }

  /** Removing a zone created by `add_zone` alone fails as written, and
      leaves a member list for a zone that is no longer listed. */
  lemma RemoveBareZoneAsWritten(s: ClusterState, zone: string)
    requires ValidState(s) && zone in s.zones && zone !in s.zoneMembers
    ensures RemoveZoneAsWritten(s, zone) == Crashed(NoRingToDelete(zone), RemoveZoneAsWritten(s, zone).after)
    ensures !ListsListed(RemoveZoneAsWritten(s, zone).after)
  {
    Lex.StrictIsSortedNoDup(s.zones);
    RemoveFirstNoDup(s.zones, zone);
    Lex.SortDistinct(RemoveFirst(s.zones, zone));
    assert zone in RemoveZoneAsWritten(s, zone).after.zoneMembers;
  }

  /** The one call `remove_node` makes, on a zone whose member list it has
      just emptied, works as written and agrees with the intended removal:
      the member loop has nothing to remove and the ring exists. */
  lemma {:induction false} CascadeAsWrittenAgrees(s: ClusterState, zone: string)
    requires CoherentState(s) && zone in s.zoneMembers && s.zoneMembers[zone] == []
    ensures zone in s.zones
    ensures RemoveZoneAsWritten(s, zone) == Removed(DropZoneState(s, zone))
  {
    var gone := set id | id in MembersOf(s.zoneMembers, zone);
    assert gone == {};
    assert s.nodes - gone == s.nodes;
    assert s.zoneOf - gone == s.zoneOf;
    assert s.zoneMembers[zone := []] - {zone} == s.zoneMembers - {zone};
  }

  /** `Cluster`: node names, the sorted zone list, each zone's members in
      joining order and one ring per populated zone. */
  class Cluster {
    const hash: string -> nat
    const replicas: nat
    var nodes: map<string, Option<string>>
    var zones: seq<string>
    var zoneMembers: map<string, seq<string>>
    var rings: map<string, RendezvousHash>
    /** The zone each node joined. */
    ghost var zoneOf: map<string, string>
    ghost var Repr: set<RendezvousHash>

    /** The dictionaries as a value. */
    ghost function Abstract(): ClusterState
      reads this
    {
      ClusterState(nodes, zones, zoneMembers, zoneOf)
    }

    /** One distinct ring per zone of `members`, scoring with the cluster's
        hash and holding exactly that zone's members. */
    ghost predicate RingsHold(members: map<string, seq<string>>)
      reads this`rings, this`Repr, Repr
    {
      && (forall z | z in rings :: rings[z] in Repr)
      && (forall z1, z2 | z1 in rings && z2 in rings && z1 != z2 :: rings[z1] != rings[z2])
      && rings.Keys == members.Keys
      && (forall z | z in rings :: rings[z].hash == hash && rings[z].nodes == members[z])
    }

    ghost predicate Coherent()
      reads this, Repr
    {
      RingsHold(zoneMembers) && CoherentState(Abstract())
    }

    ghost predicate Valid()
      reads this, Repr
    {
      RingsHold(zoneMembers) && ValidState(Abstract())
    }

    /** `Cluster(cluster_config, replicas, seed)` with `hash == Murmur(seed)`:
        every configured node is added in turn. */
    constructor (config: seq<NodeConfig>, replicas: nat, hash: string -> nat)
      requires DistinctIds(config)
      ensures Valid() && fresh(Repr)
      ensures this.hash == hash && this.replicas == replicas
      ensures Abstract() == Configured(config)
    {
      this.hash := hash;
      this.replicas := replicas;
      nodes := map[];
      zones := [];
      zoneMembers := map[];
      rings := map[];
      zoneOf := map[];
      Repr := {};
      new;
      Populate(config);
    }

    /** The loop of `__init__`: `add_node` for each configured node in
        turn, none of which is refused since the ids are distinct. */
    method Populate(config: seq<NodeConfig>)
      requires DistinctIds(config) && Valid() && Abstract() == Configured([])
      modifies this, Repr
      ensures Valid() && fresh(Repr - old(Repr))
      ensures Abstract() == Configured(config)
    {
      for i := 0 to |config|
        invariant Valid()
        invariant fresh(Repr - old(Repr))
        invariant Abstract() == Configured(config[..i])
      {
        var c := config[i];
        ConfiguredStep(config, i);
        var r := AddNode(c.id, c.zone, c.name);
      }
      assert config[..|config|] == config;
    }

    /** `add_zone`: a new zone is appended and the list re-sorted; a known
        zone changes nothing. Nodes, members and rings are untouched. */
    method AddZone(zone: string)
      requires Valid()
      modifies this
      ensures Valid()
      ensures Abstract() == AddZoneState(old(Abstract()), zone)
      ensures rings == old(rings) && Repr == old(Repr)
    {
      AddZoneKeepsValid(Abstract(), zone);
      if zone !in zones {
        zones := zones + [zone];
        zones := Lex.Sort(zones);
      }
    }

    /** `add_node`: an id already in the cluster, in whatever zone, is
        refused and nothing changes; otherwise the zone is added if new, the
        id joins the zone's ring, and is recorded with its name and appended
        to the zone's members. */
    method AddNode(id: string, zone: string, name: Option<string>) returns (r: Outcome<Error>)
      requires Valid()
      modifies this, Repr
      ensures Valid() && fresh(Repr - old(Repr))
      ensures r == if id in old(nodes) then Fail(DuplicateNode(id)) else Pass
      ensures Abstract() == if id in old(nodes) then old(Abstract()) else JoinState(old(Abstract()), id, zone, name)
    {
      if id in nodes {
        return Fail(DuplicateNode(id));
      }
      ghost var s0 := Abstract();
      JoinKeepsValid(s0, id, zone, name);
      UnnamedInNoList(s0, id);
      AddZone(zone);
      Register(id, zone, name);
      r := Pass;
    }

    /** The part of `add_node` after `add_zone`: the id joins the zone's ring,
        is recorded with its name and is appended to the zone's members. */
    method Register(id: string, zone: string, name: Option<string>)
      requires RingsHold(zoneMembers) && id !in MembersOf(zoneMembers, zone)
      modifies this, Repr
      ensures RingsHold(zoneMembers) && fresh(Repr - old(Repr))
      ensures nodes == old(nodes)[id := name] && zoneOf == old(zoneOf)[id := zone]
      ensures zoneMembers == old(zoneMembers)[zone := MembersOf(old(zoneMembers), zone) + [id]]
      ensures zones == old(zones)
    {
      ghost var before := zoneMembers;
      var members := MembersOf(zoneMembers, zone);
      nodes, zoneOf, zoneMembers := nodes[id := name], zoneOf[id := zone], zoneMembers[zone := members + [id]];
      AddToRing(zone, id, before);
    }

    /** `self.rings[zone].add_node(id)`: the zone's ring, created empty by
        the dictionary's default on first use, gains a new id. */
    method AddToRing(zone: string, id: string, ghost members: map<string, seq<string>>)
      requires RingsHold(members) && id !in MembersOf(members, zone)
      modifies this`rings, this`Repr, Repr
      ensures RingsHold(members[zone := MembersOf(members, zone) + [id]])
      ensures fresh(Repr - old(Repr))
      ensures Abstract() == old(Abstract())
    {
      var ring := RingOf(zone, members);
      ring.AddNode(id);
      ghost var after := members[zone := MembersOf(members, zone) + [id]];
      forall z | z in rings && z != zone ensures rings[z].hash == hash && rings[z].nodes == after[z] {
        assert rings[z] != ring;
      }
    }

    /** `self.rings[zone]`: the zone's ring, created empty by the
        dictionary's default on first use. */
    method RingOf(zone: string, ghost members: map<string, seq<string>>) returns (ring: RendezvousHash)
      requires RingsHold(members)
      modifies this`rings, this`Repr
      ensures RingsHold(members[zone := MembersOf(members, zone)]) && fresh(Repr - old(Repr))
      ensures zone in rings && ring == rings[zone]
    {
      if zone in rings {
        ring := rings[zone];
      } else {
        ring := new RendezvousHash([], hash);
        rings := rings[zone := ring];
        Repr := Repr + {ring};
      }
    }

    /** `remove_zone` as evidently intended (each member's name deleted, the
        ring and member list deleted when present): an unlisted zone is
        refused and nothing changes; otherwise the zone, its members' names,
        its member list and its ring are gone and the rest re-sorted. The
        cascade from `remove_node` calls it on a zone whose member list has
        just become empty, so only the other zones' lists need members. */
    method RemoveZone(zone: string) returns (r: Outcome<Error>)
      requires Coherent()
      requires forall z | z in zoneMembers && z != zone :: zoneMembers[z] != []
      modifies this
      ensures Valid() && Repr == old(Repr)
      ensures zone !in old(zones) ==> r == Fail(NoSuchZone(zone)) && unchanged(this)
      ensures zone in old(zones) ==>
                r == Pass && Abstract() == DropZoneState(old(Abstract()), zone) && rings == old(rings) - {zone}
    {
      if zone !in zones {
        return Fail(NoSuchZone(zone));
      }
      DropZoneKeepsValid(Abstract(), zone);
      DropZone(zone);
      r := Pass;
    }

    /** The body of `remove_zone` for a listed zone: the zone leaves the
        list, each member's name is deleted, the list is re-sorted, and the
        zone's ring and member list are deleted. */
    method DropZone(zone: string)
      requires RingsHold(zoneMembers) && zone in zones
      modifies this`nodes, this`zones, this`zoneMembers, this`zoneOf, this`rings
      ensures RingsHold(zoneMembers)
      ensures Abstract() == DropZoneState(old(Abstract()), zone) && rings == old(rings) - {zone}
    {
      ghost var s0 := Abstract();
      zones := RemoveFirst(zones, zone);
      var members := MembersOf(zoneMembers, zone);
      nodes := DeleteNames(nodes, members);
      zoneOf := zoneOf - (set id | id in members);
      zones := Lex.Sort(zones);
      DeleteRing(zone);
    }

    /** The loop of `remove_zone` over the zone's members, deleting each
        member's name. */
    static method DeleteNames(names: map<string, Option<string>>, members: seq<string>)
      returns (rest: map<string, Option<string>>)
      ensures rest == names - (set id | id in members)
    {
      rest := names;
      for i := 0 to |members|
        invariant rest == names - (set id | id in members[..i])
      {
        assert members[..i + 1] == members[..i] + [members[i]];
        rest := rest - {members[i]};
      }
      assert members[..|members|] == members;
    }

    /** `del self.rings[zone]` and `del self.zone_members[zone]`. */
    method DeleteRing(zone: string)
      requires RingsHold(zoneMembers)
      modifies this`rings, this`zoneMembers
      ensures RingsHold(zoneMembers)
      ensures rings == old(rings) - {zone} && zoneMembers == old(zoneMembers) - {zone}
    {
      rings := rings - {zone};
      zoneMembers := zoneMembers - {zone};
    }

    /** `remove_node`: the id leaves its zone's ring, its name and its
        zone's member list; a zone left without members is removed. An id
        its zone's ring does not hold is refused and nothing changes. */
    method RemoveNode(id: string, zone: string) returns (r: Outcome<Error>)
      requires Valid()
      modifies this, Repr
      ensures Valid() && Repr == old(Repr)
      ensures id !in MembersOf(old(zoneMembers), zone) ==>
                r == Fail(NoSuchNode(id)) && Abstract() == old(Abstract())
      ensures id in MembersOf(old(zoneMembers), zone) ==>
                r == Pass && Abstract() == LeaveState(old(Abstract()), id, zone)
    {
      if zone !in rings {
        return Fail(NoSuchNode(id));
      }
      ghost var s0 := Abstract();
      r := Depart(id, zone);
      if r.Fail? {
        return;
      }
      DepartKeepsCoherent(s0, id, zone);
      LeaveKeepsValid(s0, id, zone);
      if |zoneMembers[zone]| == 0 {
        var _ := RemoveZone(zone);
      }
    }

    /** The first three steps of `remove_node`: the zone's ring drops the id
        (or refuses an id it does not hold), then the id's name and its entry
        in the zone's member list are deleted. */
    method Depart(id: string, zone: string) returns (r: Outcome<Error>)
      requires RingsHold(zoneMembers) && zone in rings
      modifies this`nodes, this`zoneMembers, this`zoneOf, Repr
      ensures RingsHold(zoneMembers)
      ensures id !in old(zoneMembers[zone]) ==> r == Fail(NoSuchNode(id)) && Abstract() == old(Abstract())
      ensures id in old(zoneMembers[zone]) ==>
                r == Pass && Abstract() == DepartState(old(Abstract()), id, zone)
    {
      var ring := rings[zone];
      r := ring.RemoveNode(id);
      if r.Fail? {
        return;
      }
      nodes := nodes - {id};
      zoneOf := zoneOf - {id};
      zoneMembers := zoneMembers[zone := ring.nodes];
      forall z | z in rings && z != zone
        ensures rings[z].hash == hash && rings[z].nodes == zoneMembers[z]
      {
        assert rings[z] != ring;
      }
    }

    /** `node_name`: the name recorded for an id, `None` for an unknown id. */
    function NodeName(id: string): (name: Option<string>)
      reads this
      ensures name == NameOf(Abstract(), id)
    {
      if id in nodes then nodes[id] else None
    }

    /** `find_nodes`: the set of answers of the rings of `replicas`
        consecutive zones, starting at the given offset or at the key's
        code-point sum; a zone without a ring answers `None`. */
    method FindNodes(key: string, offset: Option<int>) returns (r: Result<set<Option<string>>, Error>)
      requires RingsHold(zoneMembers)
      ensures |zones| == 0 && (offset.None? || replicas > 0) ==> r == Err(NoZones)
      ensures |zones| == 0 && offset.Some? && replicas == 0 ==> r == Ok({})
      ensures |zones| > 0 ==>
                r == Ok(Placement(hash, zones, zoneMembers, key, StartOffset(key, offset, |zones|), replicas))
    {
      if |zones| == 0 {
        if offset.None? || replicas > 0 {
          return Err(NoZones);
        }
        return Ok({});
      }
      var start := if offset.Some? then offset.value else Text.OrdSum(key) % |zones|;
      var found: set<Option<string>> := {};
      for i := 0 to replicas
        invariant found == Placement(hash, zones, zoneMembers, key, start, i)
      {
        var zone := zones[(i + start) % |zones|];
        var winner: Option<string> := None;
        if zone in rings {
          winner := rings[zone].FindNode(key);
        }
        found := found + {winner};
      }
      r := Ok(found);
    }

    /** `find_nodes_by_index`: the key `"p-i"` placed from offset
        `IndexStart(p, i)`, which probes as starting at zone
        `(p + i) % len(zones)`. */
    method FindNodesByIndex(p: nat, i: nat) returns (r: Result<set<Option<string>>, Error>)
      requires RingsHold(zoneMembers)
      ensures |zones| == 0 ==> r == Err(NoZones)
      ensures |zones| > 0 ==>
                r == Ok(Placement(hash, zones, zoneMembers, Text.IndexKey(p, i), (p + i) % |zones|, replicas))
    {
      if |zones| == 0 {
        return Err(NoZones);
      }
      var key := Text.IndexKey(p, i);
      r := FindNodes(key, Some(IndexStart(p, i, |zones|)));
      PlacementByIndexOffset(hash, zones, zoneMembers, key, p, i, replicas);
    }
  }
}
