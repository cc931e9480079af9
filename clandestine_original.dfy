/** The first revision, `clandestine.py`: zones must be registered before
    nodes join them, a node may be added twice, nothing ever removes a zone
    on its own, and placement takes a product id and a block index. The
    rings are the intermediate revision's `RendezvousHash` (the same code,
    with the hash passed in). */
module ClandestineOriginal {
  import opened Wrappers
  import opened Lists
  import Lex
  import Text
  import opened Zones
  import opened Membership
  import opened Scoring
  import opened ReplicaLists
  import Clandestine

  datatype Error =
    /** `ValueError`: the zone was never registered. */
    | UnknownZone(zone: string)
    /** `KeyError`: no name is recorded for the id. */
    | NoSuchNode(node: string)
    /** `ValueError` of `list.remove`: the zone's member list lacks the id. */
    | NotAMember(node: string)
    /** `TypeError` of `sorted(None)`. */
    | NotAList
    /** `ZeroDivisionError`: a zone index taken modulo an empty zone list. */
    | NoZones
    /** `ValueError` of `max()` on a probed ring without nodes. */
    | EmptyRing

  /** The cluster's dictionaries as values, rings included: the ids each
      zone's ring holds. A dictionary entry exists once it has been read. */
  datatype OrigState = OrigState(
    nodes: map<string, Option<string>>,
    zones: seq<string>,
    zoneMembers: map<string, seq<string>>,
    rings: map<string, seq<string>>)

  /** What `find_nodes` returns for a replica list: the list, or the error
      of a probed ring without nodes. */
  function Answer(list: Option<seq<string>>): Result<seq<string>, Error> {
    if list.Some? then Ok(list.value) else Err(EmptyRing)
  }

  /** The state an operation leaves behind and how it ended; after an
      exception, whatever was changed before it was raised stays changed. */
  datatype Step = Step(after: OrigState, outcome: Outcome<Error>)

  /** `add_zone`. */
  function AddZoneStep(s: OrigState, zone: string): OrigState {
    s.(zones := WithZone(s.zones, zone))
  }

  /** `add_node(node_id, node_name, node_zone)`: refused for an unregistered
      zone; otherwise the zone's ring gains the id unless it holds it, the
      name is recorded, and the id is appended to the zone's member list
      even when it is already there. */
  function AddStep(s: OrigState, id: string, name: Option<string>, zone: string): Step {
    if zone !in s.zones then Step(s, Fail(UnknownZone(zone)))
    else
      var ring := MembersOf(s.rings, zone);
      Step(OrigState(s.nodes[id := name], s.zones,
                     s.zoneMembers[zone := MembersOf(s.zoneMembers, zone) + [id]],
                     s.rings[zone := if id in ring then ring else ring + [id]]),
           Pass)
  }

  /** `remove_node(node_id, node_name, node_zone)`: refused for an
      unregistered zone; otherwise the zone's ring drops the id if it holds
      it, then the name is deleted (`KeyError` when there is none), then the
      id leaves the zone's member list (`ValueError` when it is not there). */
  function RemoveStep(s: OrigState, id: string, zone: string): Step {
    if zone !in s.zones then Step(s, Fail(UnknownZone(zone)))
    else
      var ring := MembersOf(s.rings, zone);
      var s1 := s.(rings := s.rings[zone := if id in ring then RemoveFirst(ring, id) else ring]);
      if id !in s.nodes then Step(s1, Fail(NoSuchNode(id)))
      else
        var members := MembersOf(s.zoneMembers, zone);
        if id !in members then Step(s1.(nodes := s.nodes - {id}, zoneMembers := s.zoneMembers[zone := members]), Fail(NotAMember(id)))
        else Step(s1.(nodes := s.nodes - {id}, zoneMembers := s.zoneMembers[zone := RemoveFirst(members, id)]), Pass)
  }

  /** The state after `Cluster(cluster)`: for each configured node, its zone
      is registered and the node added. */
  function OrigConfigured(config: seq<NodeConfig>): OrigState {
    if config == [] then OrigState(map[], [], map[], map[])
    else
      var c := config[|config| - 1];
      AddStep(AddZoneStep(OrigConfigured(config[..|config| - 1]), c.zone), c.id, c.name, c.zone).after
  }

  /** `s` holds what the later revisions' state `m` holds, each ring
      holding exactly its zone's members. */
  predicate Mirrors(s: OrigState, m: ClusterState) {
    s.nodes == m.nodes && s.zones == m.zones && s.zoneMembers == m.zoneMembers && s.rings == m.zoneMembers
  }

  /** Adding a new id to a registered zone does what the later revisions'
      `add_node` does. */
  lemma AddAgreesWithJoin(s: OrigState, m: ClusterState, id: string, name: Option<string>, zone: string)
    requires Mirrors(s, m) && ValidState(m) && zone in m.zones && id !in m.nodes
    ensures AddStep(s, id, name, zone).outcome == Pass
    ensures Mirrors(AddStep(s, id, name, zone).after, JoinState(m, id, zone, name))
  {
    UnnamedInNoList(m, id);
    Lex.StrictIsSortedNoDup(m.zones);
    assert WithZone(m.zones, zone) == m.zones;
  }

  /** Taking out a member of a registered zone does what the later
      revisions do before they look at the zone: only the zone removal that
      follows there is missing here. */
  lemma RemoveAgreesWithDepart(s: OrigState, m: ClusterState, id: string, zone: string)
    requires Mirrors(s, m) && ValidState(m) && zone in m.zoneMembers && id in m.zoneMembers[zone]
    ensures RemoveStep(s, id, zone).outcome == Pass
    ensures Mirrors(RemoveStep(s, id, zone).after, DepartState(m, id, zone))
  {
    assert zone in m.zones;
    assert id in m.zoneOf by {
      var i :| 0 <= i < |m.zoneMembers[zone]| && m.zoneMembers[zone][i] == id;
    }
  }

  /** With distinct ids, building the first revision's cluster gives the
      state the later revisions build, rings included. */
  lemma {:induction false} OrigConfiguredAgrees(config: seq<NodeConfig>)
    requires DistinctIds(config)
    ensures Mirrors(OrigConfigured(config), Configured(config))
  {
    if config != [] {
      var n := |config| - 1;
      var front, c := config[..n], config[n];
      assert DistinctIds(front);
      OrigConfiguredAgrees(front);
      ConfiguredStep(config, n);
      assert config[..n + 1] == config;
      var s, m := AddZoneStep(OrigConfigured(front), c.zone), AddZoneState(Configured(front), c.zone);
      AddZoneKeepsValid(Configured(front), c.zone);
      AddAgreesWithJoin(s, m, c.id, c.name, c.zone);
      assert JoinState(m, c.id, c.zone, c.name) == JoinState(Configured(front), c.id, c.zone, c.name) by {
        WithZoneSorted(Configured(front).zones, c.zone);
      }
    }
  }

  /** What `add_node` does for a registered zone whose ring lacks the id. */
  lemma AddStepFresh(s: OrigState, id: string, name: Option<string>, zone: string)
    requires zone in s.zones && id !in MembersOf(s.rings, zone)
    ensures AddStep(s, id, name, zone)
            == Step(OrigState(s.nodes[id := name], s.zones,
                              s.zoneMembers[zone := MembersOf(s.zoneMembers, zone) + [id]],
                              s.rings[zone := MembersOf(s.rings, zone) + [id]]), Pass)
  {
  }

  /** What `remove_node` does for a named id listed in a registered zone
      whose ring holds it. */
  lemma RemoveStepPresent(s: OrigState, id: string, zone: string)
    requires zone in s.zones && id in s.nodes
    requires id in MembersOf(s.rings, zone) && id in MembersOf(s.zoneMembers, zone)
    ensures RemoveStep(s, id, zone)
            == Step(OrigState(s.nodes - {id}, s.zones,
                              s.zoneMembers[zone := RemoveFirst(MembersOf(s.zoneMembers, zone), id)],
                              s.rings[zone := RemoveFirst(MembersOf(s.rings, zone), id)]), Pass)
  {
  }

  /** Adding a new id and removing it again gives the state back, except
      that the zone's ring and member list now exist (empty if they did not
      before). */
  lemma AddRemoveRoundTrip(s: OrigState, id: string, name: Option<string>, zone: string)
    requires zone in s.zones && id !in s.nodes
    requires id !in MembersOf(s.rings, zone) && id !in MembersOf(s.zoneMembers, zone)
    ensures AddStep(s, id, name, zone).outcome == Pass
    ensures RemoveStep(AddStep(s, id, name, zone).after, id, zone)
            == Step(s.(zoneMembers := s.zoneMembers[zone := MembersOf(s.zoneMembers, zone)],
                       rings := s.rings[zone := MembersOf(s.rings, zone)]), Pass)
  {
    var ring, members := MembersOf(s.rings, zone), MembersOf(s.zoneMembers, zone);
    AddStepFresh(s, id, name, zone);
    var s1 := AddStep(s, id, name, zone).after;
    RemoveFirstAppended(ring, id);
    RemoveFirstAppended(members, id);
    assert MembersOf(s1.rings, zone) == ring + [id];
    assert MembersOf(s1.zoneMembers, zone) == members + [id];
    RemoveStepPresent(s1, id, zone);
    UpdateRemove(s.nodes, id, name, {});
    UpdateTwice(s.zoneMembers, zone, members + [id], members);
    UpdateTwice(s.rings, zone, ring + [id], ring);
  }

  /** A second update of the same key overrides the first. */
  lemma UpdateTwice<V>(m: map<string, V>, k: string, v1: V, v2: V)
    ensures m[k := v1][k := v2] == m[k := v2]
  {
  }

  /** Adding the same new id twice: the ring holds it once, the member
      list twice, and the second name wins. */
  lemma AddTwice(s: OrigState, id: string, n1: Option<string>, n2: Option<string>, zone: string)
    requires zone in s.zones
    requires id !in MembersOf(s.rings, zone)
    ensures AddStep(AddStep(s, id, n1, zone).after, id, n2, zone)
            == Step(OrigState(s.nodes[id := n1][id := n2], s.zones,
                              s.zoneMembers[zone := MembersOf(s.zoneMembers, zone) + [id, id]],
                              s.rings[zone := MembersOf(s.rings, zone) + [id]]), Pass)
  {
    var ring, members := MembersOf(s.rings, zone), MembersOf(s.zoneMembers, zone);
    AddStepFresh(s, id, n1, zone);
    assert members + [id] + [id] == members + [id, id];
    UpdateTwice(s.zoneMembers, zone, members + [id], members + [id, id]);
    UpdateTwice(s.rings, zone, ring + [id], ring + [id]);
  }

  /** Adding a new id twice and removing it once takes out its name and
      its ring entry but only one of its two member-list entries. */
  lemma AddTwiceRemoveOnce(s: OrigState, id: string, n1: Option<string>, n2: Option<string>, zone: string)
    requires zone in s.zones
    requires id !in MembersOf(s.rings, zone) && id !in MembersOf(s.zoneMembers, zone)
    ensures var twice := AddStep(AddStep(s, id, n1, zone).after, id, n2, zone).after;
            RemoveStep(twice, id, zone)
            == Step(OrigState(twice.nodes - {id}, s.zones,
                              s.zoneMembers[zone := MembersOf(s.zoneMembers, zone) + [id]],
                              s.rings[zone := MembersOf(s.rings, zone)]), Pass)
  {
    var ring, members := MembersOf(s.rings, zone), MembersOf(s.zoneMembers, zone);
    AddTwice(s, id, n1, n2, zone);
    var twice := AddStep(AddStep(s, id, n1, zone).after, id, n2, zone).after;
    RemoveStepPresent(twice, id, zone);
    RemoveFirstAppended(ring, id);
    RemoveFirstAppendedTwice(members, id);
    UpdateTwice(s.zoneMembers, zone, members + [id, id], members + [id]);
    UpdateTwice(s.rings, zone, ring + [id], ring);
  }

  /** A node added twice is held once by its ring but listed twice in its
      zone; removing it once leaves it listed although it has no name and
      no ring holds it, and removing it again fails on the missing name. */
  lemma DuplicateAddDesyncs(s: OrigState, id: string, n1: Option<string>, n2: Option<string>, zone: string)
    requires zone in s.zones
    requires id !in MembersOf(s.rings, zone) && id !in MembersOf(s.zoneMembers, zone)
    ensures var once := RemoveStep(AddStep(AddStep(s, id, n1, zone).after, id, n2, zone).after, id, zone);
            && once.outcome == Pass
            && id !in once.after.nodes && id !in once.after.rings[zone] && id in once.after.zoneMembers[zone]
            && RemoveStep(once.after, id, zone).outcome == Fail(NoSuchNode(id))
  {
    AddTwiceRemoveOnce(s, id, n1, n2, zone);
    var twice := AddStep(AddStep(s, id, n1, zone).after, id, n2, zone).after;
    RemovedKey(twice.nodes, id);
  }

  /** A key removed from a map is gone. */
  lemma RemovedKey<V>(m: map<string, V>, k: string)
    ensures k !in m - {k}
  {
  }

  /** `remove_zone` as written: a listed zone is removed from the list in
      place, then `sorted()` is applied to what `list.remove` returns
      (`None`) and raises, so the attribute is never reassigned. */
  function RemoveZoneAsWritten(zones: seq<string>, zone: string): (seq<string>, Outcome<Error>) {
    if zone !in zones then (zones, Pass) else (RemoveFirst(zones, zone), Fail(NotAList))
  }

  /** Removing a listed zone as written always raises, although the zone
      list it leaves is the intended one. */
  lemma RemoveListedZoneAsWritten(zones: seq<string>, zone: string)
    requires Lex.StrictlySorted(zones) && zone in zones
    ensures RemoveZoneAsWritten(zones, zone) == (WithoutZone(zones, zone), Fail(NotAList))
  {
    var r := RemoveFirst(zones, zone);
    var k := IndexOf(zones, zone);
    assert r == zones[..k] + zones[k + 1..];
    assert forall i | 0 <= i < |r| :: r[i] == zones[if i < k then i else i + 1];
    assert Lex.StrictlySorted(r);
    WithoutZoneSorted(zones, zone);
    Lex.StrictIsSortedNoDup(zones);
    RemoveFirstNoDup(zones, zone);
    Lex.StrictlySortedUnique(r, WithoutZone(zones, zone));
  }

  /** `Cluster`: node names, the sorted zone list, each zone's members in
      the order they were added, and one ring per zone that has been used. */
  class Cluster {
    const hash: string -> nat
    const replicas: nat
    var nodes: map<string, Option<string>>
    var zones: seq<string>
    var zoneMembers: map<string, seq<string>>
    var rings: map<string, Clandestine.RendezvousHash>
    /** The ids each ring holds. */
    ghost var ringNodes: map<string, seq<string>>
    ghost var Repr: set<Clandestine.RendezvousHash>

    /** One distinct ring per entry, scoring with the cluster's hash and
        holding the ids `ringNodes` records for it. */
    ghost predicate RingsSound()
      reads this`rings, this`Repr, this`ringNodes, Repr
    {
      && (forall z | z in rings :: rings[z] in Repr && rings[z].hash == hash)
      && (forall z1, z2 | z1 in rings && z2 in rings && z1 != z2 :: rings[z1] != rings[z2])
      && rings.Keys == ringNodes.Keys
      && (forall z | z in rings :: rings[z].nodes == ringNodes[z])
    }

    ghost predicate Valid()
      reads this, Repr
    {
      RingsSound() && Lex.StrictlySorted(zones)
    }

    ghost function Abstract(): OrigState
      reads this
    {
      OrigState(nodes, zones, zoneMembers, ringNodes)
    }

    /** `Cluster(cluster, hash_function, replicas)`: each configured node's
        zone is registered and the node added, in configuration order. */
    constructor (config: seq<NodeConfig>, replicas: nat, hash: string -> nat)
      ensures Valid() && fresh(Repr)
      ensures this.hash == hash && this.replicas == replicas
      ensures Abstract() == OrigConfigured(config)
    {
      this.hash := hash;
      this.replicas := replicas;
      nodes := map[];
      zones := [];
      zoneMembers := map[];
      rings := map[];
      ringNodes := map[];
      Repr := {};
      new;
      for i := 0 to |config|
        invariant Valid()
        invariant fresh(Repr)
        invariant Abstract() == OrigConfigured(config[..i])
      {
        var c := config[i];
        assert config[..i + 1][..i] == config[..i];
        AddZone(c.zone);
        var r := AddNode(c.id, c.name, c.zone);
      }
      assert config[..|config|] == config;
    }

    /** `add_zone`: a new zone is appended and the list re-sorted. */
    method AddZone(zone: string)
      requires Valid()
      modifies this`zones
      ensures Valid()
      ensures Abstract() == AddZoneStep(old(Abstract()), zone)
    {
      WithZoneSorted(zones, zone);
      if zone !in zones {
        zones := zones + [zone];
        zones := Lex.Sort(zones);
      }
    }

    /** `remove_zone` as evidently intended: a listed zone leaves the zone
        list, which stays sorted; member lists and rings are untouched. */
    method RemoveZone(zone: string)
      requires Valid()
      modifies this`zones
      ensures Valid()
      ensures zones == if zone in old(zones) then WithoutZone(old(zones), zone) else old(zones)
    {
      if zone in zones {
        WithoutZoneSorted(zones, zone);
        zones := WithoutZone(zones, zone);
      }
    }

    /** `add_node`. */
    method AddNode(id: string, name: Option<string>, zone: string) returns (r: Outcome<Error>)
      requires Valid()
      modifies this, Repr
      ensures Valid() && fresh(Repr - old(Repr))
      ensures Step(Abstract(), r) == AddStep(old(Abstract()), id, name, zone)
    {
      if zone !in zones {
        return Fail(UnknownZone(zone));
      }
      AddToRing(zone, id);
      nodes := nodes[id := name];
      zoneMembers := zoneMembers[zone := MembersOf(zoneMembers, zone) + [id]];
      r := Pass;
    }

    /** `self.rings[zone].add_node(id)`. */
    method AddToRing(zone: string, id: string)
      requires RingsSound()
      modifies this`rings, this`Repr, this`ringNodes, Repr
      ensures RingsSound() && fresh(Repr - old(Repr))
      ensures var ring := MembersOf(old(ringNodes), zone);
              ringNodes == old(ringNodes)[zone := if id in ring then ring else ring + [id]]
    {
      var ring := RingOf(zone);
      ring.AddNode(id);
      ringNodes := ringNodes[zone := ring.nodes];
      forall z | z in rings && z != zone ensures rings[z].nodes == ringNodes[z] {
        assert rings[z] != ring;
      }
      UpdateTwice(old(ringNodes), zone, MembersOf(old(ringNodes), zone), ring.nodes);
    }

    /** `remove_node`. */
    method RemoveNode(id: string, zone: string) returns (r: Outcome<Error>)
      requires Valid()
      modifies this, Repr
      ensures Valid() && fresh(Repr - old(Repr))
      ensures Step(Abstract(), r) == RemoveStep(old(Abstract()), id, zone)
    {
      if zone !in zones {
        return Fail(UnknownZone(zone));
      }
      ghost var s0 := Abstract();
      RemoveFromRing(zone, id);
      ghost var s1 := s0.(rings := ringNodes);
      assert Abstract() == s1;
      r := Forget(id, zone);
      assert Step(Abstract(), r) == RemoveStep(s0, id, zone);
    }

    /** The rest of `remove_node` once the ring is done with: the name is
        deleted, then the id leaves the zone's member list. */
    method Forget(id: string, zone: string) returns (r: Outcome<Error>)
      modifies this`nodes, this`zoneMembers
      ensures id !in old(nodes) ==> r == Fail(NoSuchNode(id)) && nodes == old(nodes) && zoneMembers == old(zoneMembers)
      ensures id in old(nodes) ==> nodes == old(nodes) - {id}
      ensures id in old(nodes) && id !in MembersOf(old(zoneMembers), zone) ==>
                r == Fail(NotAMember(id)) && zoneMembers == old(zoneMembers)[zone := MembersOf(old(zoneMembers), zone)]
      ensures id in old(nodes) && id in MembersOf(old(zoneMembers), zone) ==>
                r == Pass && zoneMembers == old(zoneMembers)[zone := RemoveFirst(MembersOf(old(zoneMembers), zone), id)]
    {
      if id !in nodes {
        return Fail(NoSuchNode(id));
      }
      nodes := nodes - {id};
      var members := MembersOf(zoneMembers, zone);
      zoneMembers := zoneMembers[zone := members];
      if id !in members {
        return Fail(NotAMember(id));
      }
      zoneMembers := zoneMembers[zone := RemoveFirst(members, id)];
      r := Pass;
    }

    /** `self.rings[zone].remove_node(id)`. */
    method RemoveFromRing(zone: string, id: string)
      requires RingsSound()
      modifies this`rings, this`Repr, this`ringNodes, Repr
      ensures RingsSound() && fresh(Repr - old(Repr))
      ensures var ring := MembersOf(old(ringNodes), zone);
              ringNodes == old(ringNodes)[zone := if id in ring then RemoveFirst(ring, id) else ring]
    {
      var ring := RingOf(zone);
      ring.RemoveNode(id);
      ringNodes := ringNodes[zone := ring.nodes];
      UpdateTwice(old(ringNodes), zone, MembersOf(old(ringNodes), zone), ring.nodes);
    }

    /** `self.rings[zone]`: the zone's ring, created empty on first use. */
    method RingOf(zone: string) returns (ring: Clandestine.RendezvousHash)
      requires RingsSound()
      modifies this`rings, this`Repr, this`ringNodes
      ensures RingsSound() && fresh(Repr - old(Repr))
      ensures zone in rings && ring == rings[zone]
      ensures ringNodes == old(ringNodes)[zone := MembersOf(old(ringNodes), zone)]
    {
      if zone in rings {
        ring := rings[zone];
      } else {
        ring := new Clandestine.RendezvousHash([], hash);
        rings := rings[zone := ring];
        ringNodes := ringNodes[zone := []];
        Repr := Repr + {ring};
      }
    }

    /** `node_name_by_id`: the recorded name, or a `KeyError`. */
    function NodeNameById(id: string): (r: Result<Option<string>, Error>)
      reads this
      ensures r.Ok? <==> id in nodes
      ensures r.Ok? ==> r.value == nodes[id]
      ensures r.Err? ==> r.error == NoSuchNode(id)
    {
      if id in nodes then Ok(nodes[id]) else Err(NoSuchNode(id))
    }

    /** `find_nodes(product_id, block_index)`: the key `"p-b"` placed from
        offset `IndexStart(p, b)` (by `ReplicaListByIndexOffset`, the list
        starting at zone `(p + b) % len(zones)`); a probed zone without
        nodes raises. */
    method FindNodes(product: nat, block: nat) returns (r: Result<seq<string>, Error>)
      requires RingsSound()
      ensures |zones| == 0 ==> r == Err(NoZones)
      ensures |zones| > 0 ==>
                r == Answer(ReplicaList(hash, zones, ringNodes, Text.IndexKey(product, block),
                                        IndexStart(product, block, |zones|), replicas))
    {
      if |zones| == 0 {
        return Err(NoZones);
      }
      var key := Text.IndexKey(product, block);
      r := Probe(key, IndexStart(product, block, |zones|));
    }

    /** The loop of `find_nodes`: the `max()` of the ring of each of
        `replicas` consecutive zones from the offset on. */
    method Probe(key: string, offset: int) returns (r: Result<seq<string>, Error>)
      requires RingsSound() && |zones| > 0
      ensures r == Answer(ReplicaList(hash, zones, ringNodes, key, offset, replicas))
    {
      var found: seq<string> := [];
      for i := 0 to replicas
        invariant ReplicaList(hash, zones, ringNodes, key, offset, i) == Some(found)
      {
        var zone := zones[(i + offset) % |zones|];
        var winner := RingWinner(zone, key);
        if winner.None? {
          ReplicaListStops(hash, zones, ringNodes, key, offset, i, replicas);
          return Err(EmptyRing);
        }
        found := found + [winner.value];
      }
      r := Ok(found);
    }

    /** `self.rings[zone].find_node(key)`; a zone without a ring has none
        to answer (the ring the lookup would create is empty). */
    function RingWinner(zone: string, key: string): (winner: Option<string>)
      requires RingsSound()
      reads this, Repr
      ensures winner == FirstMax(hash, key, MembersOf(ringNodes, zone))
    {
      if zone in rings then rings[zone].FindNode(key) else None
    }
  }
}
