/** The intermediate revision, `clandestine/clandestine.py`: rings whose
    `find_node` is Python's `max()` (the first node of maximal score wins),
    a hash chosen between the seeded `murmur3_32` and a caller's function,
    and a zone-aware cluster whose `find_nodes` returns one entry per
    replica, duplicates kept. The cluster keeps the same dictionaries as the
    converged revision (module `Membership`). */
module Clandestine {
  import opened Wrappers
  import opened Lists
  import Lex
  import Text
  import opened Scoring
  import opened Zones
  import opened Membership
  import opened ReplicaLists
  import Clandestined

  datatype Error =
    /** `ValueError`: a seed given together with a hash other than `murmur3_32`. */
    | SeedNotSupported
    /** `KeyError`/`ValueError` from `remove_node` on an id its zone does not hold. */
    | NoSuchNode(node: string)
    | DuplicateNode(node: string)
    /** `ZeroDivisionError`: a zone index taken modulo an empty zone list. */
    | NoZones
    /** `ValueError` of `max()` on a probed ring without nodes. */
    | EmptyRing

  /** What `find_nodes` returns for a replica list: the list, or the
      `ValueError` of `max()` on a probed ring without nodes. */
  function Answer(list: Option<seq<string>>): Result<seq<string>, Error> {
    if list.Some? then Ok(list.value) else Err(EmptyRing)
  }

  /** The `hash_function` argument: the default `murmur3_32` or another
      function of one string. */
  datatype HashChoice = DefaultMurmur | Custom(h: string -> nat)

  /** The hash a ring or a cluster scores with, given `hash_function` and
      `murmur_seed`: the seed is bound into the default hash; any other
      hash is taken as it is, and refused when a non-zero seed comes with it. */
  function BindHash(choice: HashChoice, seed: bv32): (r: Result<string -> nat, Error>)
    ensures choice == DefaultMurmur ==> r == Ok(Murmur(seed))
    ensures choice.Custom? && seed == 0 ==> r == Ok(choice.h)
    ensures choice.Custom? && seed != 0 ==> r == Err(SeedNotSupported)
  {
    match choice
    case DefaultMurmur => Ok(Murmur(seed))
    case Custom(h) => if seed != 0 then Err(SeedNotSupported) else Ok(h)
  }

  /** `RendezvousHash`: an insertion-ordered list of node ids scored with the
      bound hash. */
  class RendezvousHash {
    var nodes: seq<string>
    const hash: string -> nat

    /** `RendezvousHash(nodes, murmur_seed, hash_function)` once `BindHash`
        has produced `hash`; the list given is taken as it is. */
    constructor (nodes: seq<string>, hash: string -> nat)
      ensures this.nodes == nodes && this.hash == hash
    {
      this.nodes := nodes;
      this.hash := hash;
    }

    /** `add_node`: appends an id not yet present; re-adding is a no-op. */
    method AddNode(node: string)
      modifies this`nodes
      ensures nodes == if node in old(nodes) then old(nodes) else old(nodes) + [node]
      ensures node in nodes
      ensures NoDup(old(nodes)) ==> NoDup(nodes)
    {
      if node !in nodes {
        nodes := nodes + [node];
      }
    }

    /** `remove_node`: drops a present id, keeping the others in order; an
        absent id is silently ignored, so removing an id twice removes it
        once. */
    method RemoveNode(node: string)
      modifies this`nodes
      ensures node in old(nodes) ==> nodes == RemoveFirst(old(nodes), node)
      ensures node !in old(nodes) ==> nodes == old(nodes)
      ensures NoDup(old(nodes)) ==> NoDup(nodes) && node !in nodes
    {
      if node in nodes {
        if NoDup(nodes) {
          RemoveFirstNoDup(nodes, node);
        }
        nodes := RemoveFirst(nodes, node);
      }
    }

    /** `find_node`: `max(self.nodes, key=score)`; `None` is the ValueError
        of an empty ring. */
    function FindNode(key: string): (r: Option<string>)
      reads this
      ensures r.None? <==> nodes == []
      ensures r.Some? ==> r.value in nodes
    {
      FirstMaxIn(hash, key, nodes);
      FirstMax(hash, key, nodes)
    }
  }

  /** `remove_zone` as written: an unlisted zone is ignored; a listed one
      goes the way it goes in the converged revision, where the loop over
      its members calls `remove` on the names dictionary. */
  function RemoveZoneAsWritten(s: ClusterState, zone: string): Clandestined.ZoneRemoval {
    if zone !in s.zones then Clandestined.Removed(s) else Clandestined.RemoveZoneAsWritten(s, zone)
  }

  /** Removing a zone that still has members fails as written, leaving
      those members named in a zone that is no longer listed. */
  lemma RemovePopulatedZoneAsWritten(s: ClusterState, zone: string)
    requires ValidState(s) && zone in s.zoneMembers
    ensures RemoveZoneAsWritten(s, zone).Crashed?
    ensures RemoveZoneAsWritten(s, zone).defect == Clandestined.DictHasNoRemove
    ensures !ListsListed(RemoveZoneAsWritten(s, zone).after)
  {
    Clandestined.RemovePopulatedZoneAsWritten(s, zone);
  }

  /** The one call `remove_node` makes, on a zone whose member list it has
      just emptied, works as written and agrees with the intended removal,
      as it does in the converged revision. */
  lemma CascadeAsWrittenAgrees(s: ClusterState, zone: string)
    requires CoherentState(s) && zone in s.zoneMembers && s.zoneMembers[zone] == []
    ensures zone in s.zones
    ensures RemoveZoneAsWritten(s, zone) == Clandestined.Removed(DropZoneState(s, zone))
  {
    Clandestined.CascadeAsWrittenAgrees(s, zone);
  }

  /** `Cluster`: node names, the sorted zone list, each zone's members in
      joining order and one ring per populated zone. */
  class Cluster {
    const hash: string -> nat
    const replicas: nat
    var nodes: map<string, Option<string>>
    var zones: seq<string>
    var zoneMembers: map<string, seq<string>>
    var rings: map<string, RendezvousHash>
    /** The zone each node joined. */
    ghost var zoneOf: map<string, string>
    ghost var Repr: set<RendezvousHash>

    /** The dictionaries as a value. */
    ghost function Abstract(): ClusterState
      reads this
    {
      ClusterState(nodes, zones, zoneMembers, zoneOf)
    }

    /** One distinct ring per zone of `members`, scoring with the cluster's
        hash and holding exactly that zone's members. */
    ghost predicate RingsHold(members: map<string, seq<string>>)
      reads this`rings, this`Repr, Repr
    {
      && (forall z | z in rings :: rings[z] in Repr)
      && (forall z1, z2 | z1 in rings && z2 in rings && z1 != z2 :: rings[z1] != rings[z2])
      && rings.Keys == members.Keys
      && (forall z | z in rings :: rings[z].hash == hash && rings[z].nodes == members[z])
    }

    ghost predicate Coherent()
      reads this, Repr
    {
      RingsHold(zoneMembers) && CoherentState(Abstract())
    }

    ghost predicate Valid()
      reads this, Repr
    {
      RingsHold(zoneMembers) && ValidState(Abstract())
    }

    /** `Cluster(cluster_config, replicas, murmur_seed, hash_function)` once
        `BindHash` has produced `hash`: every configured node is added in
        turn. */
    constructor (config: seq<NodeConfig>, replicas: nat, hash: string -> nat)
      requires DistinctIds(config)
      ensures Valid() && fresh(Repr)
      ensures this.hash == hash && this.replicas == replicas
      ensures Abstract() == Configured(config)
    {
      this.hash := hash;
      this.replicas := replicas;
      nodes := map[];
      zones := [];
      zoneMembers := map[];
      rings := map[];
      zoneOf := map[];
      Repr := {};
      new;
      Populate(config);
    }

    /** The loop of `__init__`: `add_node` for each configured node in
        turn, none of which is refused since the ids are distinct. */
    method Populate(config: seq<NodeConfig>)
      requires DistinctIds(config) && Valid() && Abstract() == Configured([])
      modifies this, Repr
      ensures Valid() && fresh(Repr - old(Repr))
      ensures Abstract() == Configured(config)
    {
      for i := 0 to |config|
        invariant Valid()
        invariant fresh(Repr - old(Repr))
        invariant Abstract() == Configured(config[..i])
      {
        var c := config[i];
        ConfiguredStep(config, i);
        var r := AddNode(c.id, c.zone, c.name);
      }
      assert config[..|config|] == config;
    }

    /** `add_zone`: a new zone is appended and the list re-sorted; a known
        zone changes nothing. Nodes, members and rings are untouched. */
    method AddZone(zone: string)
      requires Valid()
      modifies this
      ensures Valid()
      ensures Abstract() == AddZoneState(old(Abstract()), zone)
      ensures rings == old(rings) && Repr == old(Repr)
    {
      AddZoneKeepsValid(Abstract(), zone);
      if zone !in zones {
        zones := zones + [zone];
        zones := Lex.Sort(zones);
      }
    }

    /** `add_node`: an id already in the cluster is refused before anything
        changes; otherwise the zone is added if new, the id joins the zone's
        ring, and is recorded with its name and appended to the zone's
        members. */
    method AddNode(id: string, zone: string, name: Option<string>) returns (r: Outcome<Error>)
      requires Valid()
      modifies this, Repr
      ensures Valid() && fresh(Repr - old(Repr))
      ensures r == if id in old(nodes) then Fail(DuplicateNode(id)) else Pass
      ensures Abstract() == if id in old(nodes) then old(Abstract()) else JoinState(old(Abstract()), id, zone, name)
    {
      if id in nodes {
        return Fail(DuplicateNode(id));
      }
      ghost var s0 := Abstract();
      JoinKeepsValid(s0, id, zone, name);
      UnnamedInNoList(s0, id);
      AddZone(zone);
      Register(id, zone, name);
      r := Pass;
    }

    /** The part of `add_node` after `add_zone`: the id joins the zone's ring,
        is recorded with its name and is appended to the zone's members. */
    method Register(id: string, zone: string, name: Option<string>)
      requires RingsHold(zoneMembers) && id !in MembersOf(zoneMembers, zone)
      modifies this, Repr
      ensures RingsHold(zoneMembers) && fresh(Repr - old(Repr))
      ensures nodes == old(nodes)[id := name] && zoneOf == old(zoneOf)[id := zone]
      ensures zoneMembers == old(zoneMembers)[zone := MembersOf(old(zoneMembers), zone) + [id]]
      ensures zones == old(zones)
    {
      ghost var before := zoneMembers;
      var members := MembersOf(zoneMembers, zone);
      nodes, zoneOf, zoneMembers := nodes[id := name], zoneOf[id := zone], zoneMembers[zone := members + [id]];
      AddToRing(zone, id, before);
    }

    /** `self.rings[zone].add_node(id)`: the zone's ring, created empty by
        the dictionary's default on first use, gains a new id. */
    method AddToRing(zone: string, id: string, ghost members: map<string, seq<string>>)
      requires RingsHold(members) && id !in MembersOf(members, zone)
      modifies this`rings, this`Repr, Repr
      ensures RingsHold(members[zone := MembersOf(members, zone) + [id]])
      ensures fresh(Repr - old(Repr))
      ensures Abstract() == old(Abstract())
    {
      var ring := RingOf(zone, members);
      ring.AddNode(id);
      ghost var after := members[zone := MembersOf(members, zone) + [id]];
      forall z | z in rings && z != zone ensures rings[z].hash == hash && rings[z].nodes == after[z] {
        assert rings[z] != ring;
      }
    }

    /** `self.rings[zone]`: the zone's ring, created empty by the
        dictionary's default on first use. */
    method RingOf(zone: string, ghost members: map<string, seq<string>>) returns (ring: RendezvousHash)
      requires RingsHold(members)
      modifies this`rings, this`Repr
      ensures RingsHold(members[zone := MembersOf(members, zone)]) && fresh(Repr - old(Repr))
      ensures zone in rings && ring == rings[zone]
    {
      if zone in rings {
        ring := rings[zone];
      } else {
        ring := new RendezvousHash([], hash);
        rings := rings[zone := ring];
        Repr := Repr + {ring};
      }
    }

    /** `remove_zone` as evidently intended (each member's name deleted, the
        ring and member list deleted when present): an unlisted zone is
        silently ignored; otherwise the zone, its members' names, its member
        list and its ring are gone and the rest re-sorted. The cascade from
        `remove_node` calls it on a zone whose member list has just become
        empty, so only the other zones' lists need members. */
    method RemoveZone(zone: string)
      requires Coherent()
      requires forall z | z in zoneMembers && z != zone :: zoneMembers[z] != []
      modifies this
      ensures Valid() && Repr == old(Repr)
      ensures zone !in old(zones) ==> unchanged(this)
      ensures zone in old(zones) ==>
                Abstract() == DropZoneState(old(Abstract()), zone) && rings == old(rings) - {zone}
    {
      if zone in zones {
        DropZoneKeepsValid(Abstract(), zone);
        DropZone(zone);
      }
    }

    /** The body of `remove_zone` for a listed zone: the zone leaves the
        list, each member's name is deleted, the list is re-sorted, and the
        zone's ring and member list are deleted. */
    method DropZone(zone: string)
      requires RingsHold(zoneMembers) && zone in zones
      modifies this`nodes, this`zones, this`zoneMembers, this`zoneOf, this`rings
      ensures RingsHold(zoneMembers)
      ensures Abstract() == DropZoneState(old(Abstract()), zone) && rings == old(rings) - {zone}
    {
      zones := RemoveFirst(zones, zone);
      var members := MembersOf(zoneMembers, zone);
      nodes := DeleteNames(nodes, members);
      zoneOf := zoneOf - (set id | id in members);
      zones := Lex.Sort(zones);
      DeleteRing(zone);
    }

    /** The loop of `remove_zone` over the zone's members, deleting each
        member's name. */
    static method DeleteNames(names: map<string, Option<string>>, members: seq<string>)
      returns (rest: map<string, Option<string>>)
      ensures rest == names - (set id | id in members)
    {
      rest := names;
      for i := 0 to |members|
        invariant rest == names - (set id | id in members[..i])
      {
        assert members[..i + 1] == members[..i] + [members[i]];
        rest := rest - {members[i]};
      }
      assert members[..|members|] == members;
    }

    /** `del self.rings[zone]` and `del self.zone_members[zone]`. */
    method DeleteRing(zone: string)
      requires RingsHold(zoneMembers)
      modifies this`rings, this`zoneMembers
      ensures RingsHold(zoneMembers)
      ensures rings == old(rings) - {zone} && zoneMembers == old(zoneMembers) - {zone}
    {
      rings := rings - {zone};
      zoneMembers := zoneMembers - {zone};
    }

    /** `remove_node`: the id leaves its zone's ring, its name and its
        zone's member list; a zone left without members is removed. An id
        the zone does not hold ends in a `KeyError` (no such name) or a
        `ValueError` (not in the member list); nothing changes. */
    method RemoveNode(id: string, zone: string) returns (r: Outcome<Error>)
      requires Valid()
      modifies this, Repr
      ensures Valid() && Repr == old(Repr)
      ensures id !in MembersOf(old(zoneMembers), zone) ==>
                r == Fail(NoSuchNode(id)) && Abstract() == old(Abstract())
      ensures id in MembersOf(old(zoneMembers), zone) ==>
                r == Pass && Abstract() == LeaveState(old(Abstract()), id, zone)
    {
      if zone !in rings || id !in rings[zone].nodes {
        return Fail(NoSuchNode(id));
      }
      ghost var s0 := Abstract();
      Depart(id, zone);
      DepartKeepsCoherent(s0, id, zone);
      LeaveKeepsValid(s0, id, zone);
      if |zoneMembers[zone]| == 0 {
        RemoveZone(zone);
      }
      r := Pass;
    }

    /** The first three steps of `remove_node` for an id the zone holds: the
        zone's ring drops it, then its name and its entry in the zone's
        member list are deleted. */
    method Depart(id: string, zone: string)
      requires RingsHold(zoneMembers) && zone in zoneMembers && id in zoneMembers[zone]
      modifies this`nodes, this`zoneMembers, this`zoneOf, Repr
      ensures RingsHold(zoneMembers)
      ensures Abstract() == DepartState(old(Abstract()), id, zone)
    {
      var ring := rings[zone];
      ring.RemoveNode(id);
      nodes := nodes - {id};
      zoneOf := zoneOf - {id};
      zoneMembers := zoneMembers[zone := ring.nodes];
      forall z | z in rings && z != zone
        ensures rings[z].hash == hash && rings[z].nodes == zoneMembers[z]
      {
        assert rings[z] != ring;
      }
    }

    /** `node_name`: the name recorded for an id, `None` for an unknown id. */
    function NodeName(id: string): (name: Option<string>)
      reads this
      ensures name == NameOf(Abstract(), id)
    {
      if id in nodes then nodes[id] else None
    }

    /** `find_nodes`: one entry per replica, the `max()` of the ring of each
        of `replicas` consecutive zones starting at the given offset or at
        the key's code-point sum; a probed zone without nodes raises. */
    method FindNodes(key: string, offset: Option<int>) returns (r: Result<seq<string>, Error>)
      requires RingsHold(zoneMembers)
      ensures |zones| == 0 && (offset.None? || replicas > 0) ==> r == Err(NoZones)
      ensures |zones| == 0 && offset.Some? && replicas == 0 ==> r == Ok([])
      ensures |zones| > 0 ==>
                r == Answer(ReplicaList(hash, zones, zoneMembers, key, StartOffset(key, offset, |zones|), replicas))
    {
      if |zones| == 0 {
        if offset.None? || replicas > 0 {
          return Err(NoZones);
        }
        return Ok([]);
      }
      r := Probe(key, StartOffset(key, offset, |zones|));
    }

    /** The loop of `find_nodes`: the `max()` of the ring of each of
        `replicas` consecutive zones from the offset on. */
    method Probe(key: string, offset: int) returns (r: Result<seq<string>, Error>)
      requires RingsHold(zoneMembers) && |zones| > 0
      ensures r == Answer(ReplicaList(hash, zones, zoneMembers, key, offset, replicas))
    {
      var found: seq<string> := [];
      for i := 0 to replicas
        invariant ReplicaList(hash, zones, zoneMembers, key, offset, i) == Some(found)
      {
        var winner := RingWinner(zones[(i + offset) % |zones|], key);
        assert winner == FirstMax(hash, key, MembersOf(zoneMembers, Zones.Probe(zones, offset, i)));
        if winner.None? {
          ReplicaListStops(hash, zones, zoneMembers, key, offset, i, replicas);
          return Err(EmptyRing);
        }
        assert ReplicaList(hash, zones, zoneMembers, key, offset, i + 1) == Some(found + [winner.value]);
        found := found + [winner.value];
      }
      r := Ok(found);
    }

    /** `self.rings[zone].find_node(key)`; a zone without a ring has none
        to answer (the ring the lookup would create is empty). */
    function RingWinner(zone: string, key: string): (winner: Option<string>)
      requires RingsHold(zoneMembers)
      reads this, Repr
      ensures winner == FirstMax(hash, key, MembersOf(zoneMembers, zone))
    {
      if zone in rings then rings[zone].FindNode(key) else None
    }

    /** `find_nodes_by_index`: the key `"p-i"` placed from offset
        `IndexStart(p, i)`; `ReplicaListByIndexOffset` shows that this is
        the list starting at zone `(p + i) % len(zones)`. */
    method FindNodesByIndex(p: nat, i: nat) returns (r: Result<seq<string>, Error>)
      requires RingsHold(zoneMembers)
      ensures |zones| == 0 ==> r == Err(NoZones)
      ensures |zones| > 0 ==>
                r == Answer(ReplicaList(hash, zones, zoneMembers, Text.IndexKey(p, i), IndexStart(p, i, |zones|), replicas))
    {
      if |zones| == 0 {
        return Err(NoZones);
      }
      r := FindNodes(Text.IndexKey(p, i), Some(IndexStart(p, i, |zones|)));
    }
  }
}
