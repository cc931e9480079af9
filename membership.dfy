/** The dictionaries a zone-aware cluster keeps (names by id, the sorted
    zone list, each zone's members in joining order), the invariant they
    keep, and what adding and removing nodes and zones does to them. Both
    revisions with automatic zones share this bookkeeping. */
module Membership {
  import opened Wrappers
  import opened Lists
  import Lex
  import opened Zones

  /** The ids of a zone; a zone with no entry has none. */
  function MembersOf(zoneMembers: map<string, seq<string>>, zone: string): seq<string> {
    if zone in zoneMembers then zoneMembers[zone] else []
  }

  /** One entry of the cluster configuration, `{node_id: {'name': ..., 'zone': ...}}`. */
  datatype NodeConfig = NodeConfig(id: string, name: Option<string>, zone: string)

  /** The cluster's dictionaries as values: names by id, the zone list, the
      members of each zone in joining order, and (bookkeeping only) the zone
      each node joined. The rings are not part of it: they mirror
      `zoneMembers`. */
  datatype ClusterState = ClusterState(
    nodes: map<string, Option<string>>,
    zones: seq<string>,
    zoneMembers: map<string, seq<string>>,
    zoneOf: map<string, string>)

  /** The zone list is sorted without duplicates. */
  predicate ZonesSorted(s: ClusterState) {
    Lex.StrictlySorted(s.zones)
  }

  /** Every zone with a member list is in the zone list. */
  predicate ListsListed(s: ClusterState) {
    forall z | z in s.zoneMembers :: z in s.zones
  }

  /** No member list names an id twice. */
  predicate ListsDistinct(s: ClusterState) {
    forall z | z in s.zoneMembers :: NoDup(s.zoneMembers[z])
  }

  /** Every named node is a member of the zone it joined. */
  predicate NamedAreMembers(s: ClusterState) {
    && s.nodes.Keys == s.zoneOf.Keys
    && forall id | id in s.zoneOf :: s.zoneOf[id] in s.zoneMembers && id in s.zoneMembers[s.zoneOf[id]]
  }

  /** Every member is named, and belongs to no other zone. */
  predicate MembersAreNamed(s: ClusterState) {
    forall z, i | z in s.zoneMembers && 0 <= i < |s.zoneMembers[z]| ::
      s.zoneMembers[z][i] in s.zoneOf && s.zoneOf[s.zoneMembers[z][i]] == z
  }

  /** A zone with a member list (and so a ring) has a member. */
  predicate ListsNonEmpty(s: ClusterState) {
    forall z | z in s.zoneMembers :: s.zoneMembers[z] != []
  }

  /** Everything the cluster keeps true except that member lists are
      non-empty; the cascade in `remove_node` passes through such a state. */
  predicate CoherentState(s: ClusterState) {
    ZonesSorted(s) && ListsListed(s) && ListsDistinct(s) && NamedAreMembers(s) && MembersAreNamed(s)
  }

  /** The cluster invariant. */
  predicate ValidState(s: ClusterState) {
    CoherentState(s) && ListsNonEmpty(s)
  }

  /** `nodes.get(node_id, None)`. */
  function NameOf(s: ClusterState, id: string): Option<string> {
    if id in s.nodes then s.nodes[id] else None
  }

  /** The state after `add_zone(zone)`. */
  function AddZoneState(s: ClusterState, zone: string): ClusterState {
    s.(zones := WithZone(s.zones, zone))
  }

  /** The state after `add_node` accepts a new id. */
  function JoinState(s: ClusterState, id: string, zone: string, name: Option<string>): ClusterState {
    ClusterState(s.nodes[id := name], WithZone(s.zones, zone),
                 s.zoneMembers[zone := MembersOf(s.zoneMembers, zone) + [id]], s.zoneOf[id := zone])
  }

  /** The state after `remove_zone(zone)` on a listed zone: the zone, its
      members' names, its member list and its ring are gone. */
  function DropZoneState(s: ClusterState, zone: string): ClusterState
    requires zone in s.zones
  {
    var gone := set id | id in MembersOf(s.zoneMembers, zone);
    ClusterState(s.nodes - gone, WithoutZone(s.zones, zone), s.zoneMembers - {zone}, s.zoneOf - gone)
  }

  /** The state after `remove_node` takes a member out of its zone, before
      the zone itself is looked at. */
  function DepartState(s: ClusterState, id: string, zone: string): ClusterState
    requires zone in s.zoneMembers && id in s.zoneMembers[zone]
  {
    ClusterState(s.nodes - {id}, s.zones,
                 s.zoneMembers[zone := RemoveFirst(s.zoneMembers[zone], id)], s.zoneOf - {id})
  }

  /** The state after `remove_node` succeeds: a zone left without members
      is removed as well. */
  function LeaveState(s: ClusterState, id: string, zone: string): ClusterState
    requires zone in s.zoneMembers && id in s.zoneMembers[zone]
  {
    var s1 := DepartState(s, id, zone);
    if s1.zoneMembers[zone] == [] && zone in s1.zones then DropZoneState(s1, zone) else s1
  }

  /** `add_zone` keeps the invariant, lists the zone, touches nothing but
      the zone list, and is idempotent. */
  lemma AddZoneKeepsValid(s: ClusterState, zone: string)
    requires ValidState(s)
    ensures ValidState(AddZoneState(s, zone))
    ensures forall z :: z in AddZoneState(s, zone).zones <==> z in s.zones || z == zone
    ensures AddZoneState(AddZoneState(s, zone), zone) == AddZoneState(s, zone)
  {
    AddZoneListed(s, zone);
  }

  lemma AddZoneListed(s: ClusterState, zone: string)
    requires ZonesSorted(s) && ListsListed(s)
    ensures ZonesSorted(AddZoneState(s, zone)) && ListsListed(AddZoneState(s, zone))
    ensures forall z :: z in AddZoneState(s, zone).zones <==> z in s.zones || z == zone
    ensures AddZoneState(AddZoneState(s, zone), zone) == AddZoneState(s, zone)
  {
    WithZoneSorted(s.zones, zone);
  }

  /** Adding a new id keeps the invariant and records the id under its name
      in its zone, at the end of the zone's member list. */
  lemma JoinKeepsValid(s: ClusterState, id: string, zone: string, name: Option<string>)
    requires ValidState(s) && id !in s.nodes
    ensures ValidState(JoinState(s, id, zone, name))
    ensures NameOf(JoinState(s, id, zone, name), id) == name
    ensures JoinState(s, id, zone, name).zoneOf[id] == zone
  {
    var t := JoinState(s, id, zone, name);
    AddZoneListed(s, zone);
    assert AddZoneState(s, zone).zones == t.zones;
    JoinDistinct(s, id, zone, name);
    JoinNamed(s, id, zone, name);
    JoinMembers(s, id, zone, name);
  }

  /** Adding a node lists its zone beside the others and renames no other
      node. */
  lemma JoinChanges(s: ClusterState, id: string, zone: string, name: Option<string>)
    requires ZonesSorted(s)
    ensures forall z :: z in JoinState(s, id, zone, name).zones <==> z in s.zones || z == zone
    ensures forall x | x != id :: NameOf(JoinState(s, id, zone, name), x) == NameOf(s, x)
  {
    WithZoneSorted(s.zones, zone);
  }

  /** An id the cluster does not name is in no member list. */
  lemma UnnamedInNoList(s: ClusterState, id: string)
    requires MembersAreNamed(s) && id !in s.zoneOf
    ensures forall z | z in s.zoneMembers :: id !in s.zoneMembers[z]
  {
    forall z, i | z in s.zoneMembers && 0 <= i < |s.zoneMembers[z]|
      ensures s.zoneMembers[z][i] != id
    {
      assert s.zoneMembers[z][i] in s.zoneOf;
    }
  }

  lemma JoinDistinct(s: ClusterState, id: string, zone: string, name: Option<string>)
    requires ListsDistinct(s) && MembersAreNamed(s) && id !in s.zoneOf
    ensures ListsDistinct(JoinState(s, id, zone, name))
  {
    var m := MembersOf(s.zoneMembers, zone);
    UnnamedInNoList(s, id);
    var m' := m + [id];
    forall i, j | 0 <= i < j < |m'| ensures m'[i] != m'[j] {
      if j == |m| { assert m'[i] in m; }
    }
  }

  lemma JoinNamed(s: ClusterState, id: string, zone: string, name: Option<string>)
    requires NamedAreMembers(s)
    ensures NamedAreMembers(JoinState(s, id, zone, name))
  {
    var t := JoinState(s, id, zone, name);
    forall x | x in t.zoneOf
      ensures t.zoneOf[x] in t.zoneMembers && x in t.zoneMembers[t.zoneOf[x]]
    {
      if x != id && s.zoneOf[x] == zone {
        assert x in MembersOf(s.zoneMembers, zone);
      }
    }
  }

  lemma JoinMembers(s: ClusterState, id: string, zone: string, name: Option<string>)
    requires MembersAreNamed(s) && id !in s.zoneOf
    ensures MembersAreNamed(JoinState(s, id, zone, name))
  {
    var t := JoinState(s, id, zone, name);
    forall z, i | z in t.zoneMembers && 0 <= i < |t.zoneMembers[z]|
      ensures t.zoneMembers[z][i] in t.zoneOf && t.zoneOf[t.zoneMembers[z][i]] == z
    {
      var m := MembersOf(s.zoneMembers, zone);
      if z == zone && i < |m| {
        assert t.zoneMembers[z][i] == m[i];
      }
    }
  }

  /** Removing a listed zone whose fellow zones all have members leaves a
      valid state without that zone and without any of its members. */
  lemma DropZoneKeepsValid(s: ClusterState, zone: string)
    requires CoherentState(s) && zone in s.zones
    requires forall z | z in s.zoneMembers && z != zone :: s.zoneMembers[z] != []
    ensures ValidState(DropZoneState(s, zone))
    ensures zone !in DropZoneState(s, zone).zones
    ensures forall id | id in MembersOf(s.zoneMembers, zone) :: id !in DropZoneState(s, zone).nodes
    ensures forall id | id in s.nodes && id !in MembersOf(s.zoneMembers, zone) ::
              NameOf(DropZoneState(s, zone), id) == NameOf(s, id)
  {
    DropZoneListed(s, zone);
    DropZoneNamed(s, zone);
  }

  lemma DropZoneListed(s: ClusterState, zone: string)
    requires ZonesSorted(s) && ListsListed(s) && zone in s.zones
    ensures ZonesSorted(DropZoneState(s, zone)) && ListsListed(DropZoneState(s, zone))
    ensures zone !in DropZoneState(s, zone).zones
  {
    WithoutZoneSorted(s.zones, zone);
  }

  lemma DropZoneNamed(s: ClusterState, zone: string)
    requires NamedAreMembers(s) && MembersAreNamed(s) && zone in s.zones
    ensures NamedAreMembers(DropZoneState(s, zone)) && MembersAreNamed(DropZoneState(s, zone))
  {
    var t := DropZoneState(s, zone);
    forall id | id in t.zoneOf
      ensures t.zoneOf[id] in t.zoneMembers && id in t.zoneMembers[t.zoneOf[id]]
    {
      assert s.zoneOf[id] != zone;
    }
  }

  /** Taking a member out of its zone keeps everything but the non-emptiness
      of that one zone's list. */
  lemma DepartKeepsCoherent(s: ClusterState, id: string, zone: string)
    requires ValidState(s) && zone in s.zoneMembers && id in s.zoneMembers[zone]
    ensures CoherentState(DepartState(s, id, zone))
    ensures forall z | z in DepartState(s, id, zone).zoneMembers && z != zone ::
              DepartState(s, id, zone).zoneMembers[z] != []
  {
    DepartNamed(s, id, zone);
  }

  lemma DepartNamed(s: ClusterState, id: string, zone: string)
    requires ListsDistinct(s) && NamedAreMembers(s) && MembersAreNamed(s)
    requires zone in s.zoneMembers && id in s.zoneMembers[zone]
    ensures ListsDistinct(DepartState(s, id, zone))
    ensures NamedAreMembers(DepartState(s, id, zone)) && MembersAreNamed(DepartState(s, id, zone))
  {
    var t := DepartState(s, id, zone);
    RemoveFirstNoDup(s.zoneMembers[zone], id);
    forall x | x in t.zoneOf
      ensures t.zoneOf[x] in t.zoneMembers && x in t.zoneMembers[t.zoneOf[x]]
    {
      assert s.zoneOf[x] == zone ==> x != id;
    }
  }

  /** `remove_node` keeps the invariant and forgets the id; the zone stays
      listed exactly when it had another member. */
  lemma LeaveKeepsValid(s: ClusterState, id: string, zone: string)
    requires ValidState(s) && zone in s.zoneMembers && id in s.zoneMembers[zone]
    ensures ValidState(LeaveState(s, id, zone))
    ensures id !in LeaveState(s, id, zone).nodes
    ensures zone in LeaveState(s, id, zone).zones <==> |s.zoneMembers[zone]| > 1
  {
    DepartKeepsCoherent(s, id, zone);
    var s1 := DepartState(s, id, zone);
    if s1.zoneMembers[zone] == [] {
      DropZoneKeepsValid(s1, zone);
    }
  }

  /** Adding a node and removing it again restores the cluster, unless the
      zone was listed by `add_zone` alone: the removal then takes the zone
      with it. */
  lemma JoinLeaveRoundTrip(s: ClusterState, id: string, zone: string, name: Option<string>)
    requires ValidState(s) && id !in s.nodes
    requires zone in s.zones ==> zone in s.zoneMembers
    ensures LeaveState(JoinState(s, id, zone, name), id, zone) == s
  {
    UnnamedInNoList(s, id);
    if zone in s.zoneMembers {
      RejoinRoundTrip(s, id, zone, name);
    } else {
      FirstJoinRoundTrip(s, id, zone, name);
    }
  }

  /** A zone listed by `add_zone` alone has no members: a node that joins
      it and leaves again takes the zone with it, and nothing else changes. */
  lemma BareZoneJoinLeave(s: ClusterState, id: string, zone: string, name: Option<string>)
    requires ValidState(s) && id !in s.nodes
    requires zone in s.zones && zone !in s.zoneMembers
    ensures LeaveState(JoinState(s, id, zone, name), id, zone) == s.(zones := WithoutZone(s.zones, zone))
  {
    BareZoneRoundTrip(s, id, zone, name);
  }

  lemma BareZoneRoundTrip(s: ClusterState, id: string, zone: string, name: Option<string>)
    requires zone in s.zones && zone !in s.zoneMembers
    requires id !in s.nodes && s.nodes.Keys == s.zoneOf.Keys
    ensures LeaveState(JoinState(s, id, zone, name), id, zone) == s.(zones := WithoutZone(s.zones, zone))
  {
    RemoveFirstAppended([], id);
    var joined := JoinState(s, id, zone, name);
    assert joined.zones == s.zones;
    var s1 := DepartState(joined, id, zone);
    assert s1.zoneMembers[zone] == [];
    var r := DropZoneState(s1, zone);
    assert LeaveState(joined, id, zone) == r;
    var gone := set x | x in MembersOf(s1.zoneMembers, zone);
    assert gone == {};
    UpdateRemove(s.nodes, id, name, gone);
    UpdateRemove(s.zoneOf, id, zone, gone);
    UpdateTwiceRemove(s.zoneMembers, zone, [id], []);
    assert r.nodes == s.nodes && r.zoneOf == s.zoneOf && r.zoneMembers == s.zoneMembers;
  }

  /** A fresh key updated twice and then removed leaves the map as it was. */
  lemma UpdateTwiceRemove<V>(m: map<string, V>, k: string, a: V, b: V)
    requires k !in m
    ensures m[k := a][k := b] - {k} == m
  {
    assert m[k := a][k := b] == m[k := b];
  }

  lemma RejoinRoundTrip(s: ClusterState, id: string, zone: string, name: Option<string>)
    requires ListsListed(s) && zone in s.zoneMembers && s.zoneMembers[zone] != []
    requires id !in s.nodes && id !in s.zoneOf && id !in s.zoneMembers[zone]
    ensures LeaveState(JoinState(s, id, zone, name), id, zone) == s
  {
    var m := s.zoneMembers[zone];
    RemoveFirstAppended(m, id);
    var s1 := DepartState(JoinState(s, id, zone, name), id, zone);
    assert s1.zoneMembers[zone] == m;
    assert s1.nodes == s.nodes;
    assert s1.zoneOf == s.zoneOf;
    assert s1.zones == s.zones;
    assert s1.zoneMembers == s.zoneMembers;
  }

  lemma FirstJoinRoundTrip(s: ClusterState, id: string, zone: string, name: Option<string>)
    requires ZonesSorted(s) && zone !in s.zones && zone !in s.zoneMembers
    requires id !in s.nodes && id !in s.zoneOf
    ensures LeaveState(JoinState(s, id, zone, name), id, zone) == s
  {
    RemoveFirstAppended([], id);
    AddRemoveZoneRoundTrip(s.zones, zone);
    var s1 := DepartState(JoinState(s, id, zone, name), id, zone);
    assert s1.zoneMembers[zone] == [];
    var gone := set x | x in MembersOf(s1.zoneMembers, zone);
    assert gone == {};
    UpdateRemove(s.nodes, id, name, gone);
    UpdateRemove(s.zoneOf, id, zone, gone);
    UpdateRemove(s.zoneMembers, zone, [], {});
  }

  /** Adding a fresh key to a map and removing it again gives the map back. */
  lemma UpdateRemove<V>(m: map<string, V>, k: string, v: V, nothing: set<string>)
    requires k !in m && nothing == {}
    ensures m[k := v] - {k} - nothing == m
    ensures m[k := v] - {k} == m
  {
    assert m[k := v] - {k} == m;
  }


  /** The state after each configured node has been added in turn. */
  function Configured(config: seq<NodeConfig>): ClusterState {
    if config == [] then ClusterState(map[], [], map[], map[])
    else
      var c := config[|config| - 1];
      JoinState(Configured(config[..|config| - 1]), c.id, c.zone, c.name)
  }

  /** No id is configured twice (a dictionary's keys). */
  predicate DistinctIds(config: seq<NodeConfig>) {
    forall i, j | 0 <= i < j < |config| :: config[i].id != config[j].id
  }

  /** Building a cluster from a configuration gives a valid state that names
      exactly the configured nodes. */
  lemma {:induction false} ConfiguredValid(config: seq<NodeConfig>)
    requires DistinctIds(config)
    ensures ValidState(Configured(config))
    ensures forall id | id in Configured(config).nodes :: exists i | 0 <= i < |config| :: config[i].id == id
  {
    if config != [] {
      var n := |config| - 1;
      var front, c := config[..n], config[n];
      assert DistinctIds(front);
      ConfiguredValid(front);
      var s := Configured(front);
      assert c.id !in s.nodes by {
        forall id | id in s.nodes ensures id != c.id {
          var i :| 0 <= i < n && front[i].id == id;
          assert config[i].id == id;
        }
      }
      JoinKeepsValid(s, c.id, c.zone, c.name);
      forall id | id in Configured(config).nodes ensures exists i | 0 <= i < |config| :: config[i].id == id {
        if id != c.id {
          var i :| 0 <= i < n && front[i].id == id;
          assert config[i].id == id;
        }
      }
    }
  }

  /** Adding the configured nodes one at a time: before node `i` is added
      the state is valid and does not hold its id yet. */
  lemma ConfiguredStep(config: seq<NodeConfig>, i: nat)
    requires DistinctIds(config) && i < |config|
    ensures ValidState(Configured(config[..i])) && config[i].id !in Configured(config[..i]).nodes
    ensures Configured(config[..i + 1])
            == JoinState(Configured(config[..i]), config[i].id, config[i].zone, config[i].name)
  {
    var front := config[..i + 1];
    assert front[..i] == config[..i];
    assert DistinctIds(front);
    ConfiguredValid(front);
    ConfiguredValid(config[..i]);
    forall id | id in Configured(config[..i]).nodes ensures id != config[i].id {
      var k :| 0 <= k < i && config[..i][k].id == id;
      assert config[k].id == id;
    }
  }

  /** Each configured node keeps the name and zone it was configured with. */
  lemma {:induction false} ConfiguredNames(config: seq<NodeConfig>)
    requires DistinctIds(config)
    ensures forall i | 0 <= i < |config| ::
              NameOf(Configured(config), config[i].id) == config[i].name
              && config[i].id in Configured(config).zoneOf
              && Configured(config).zoneOf[config[i].id] == config[i].zone
  {
    if config != [] {
      var n := |config| - 1;
      var front, c := config[..n], config[n];
      assert DistinctIds(front);
      ConfiguredNames(front);
      var t := Configured(config);
      forall i | 0 <= i < |config|
        ensures NameOf(t, config[i].id) == config[i].name
        ensures config[i].id in t.zoneOf && t.zoneOf[config[i].id] == config[i].zone
      {
        if i < n {
          assert front[i] == config[i];
        }
      }
    }
  }

  /** The zone list of a configured cluster holds exactly the configured
      zones, sorted. */
  lemma {:induction false} ConfiguredZones(config: seq<NodeConfig>)
    ensures Lex.StrictlySorted(Configured(config).zones)
    ensures forall z :: z in Configured(config).zones <==> exists i | 0 <= i < |config| :: config[i].zone == z
  {
    if config != [] {
      var n := |config| - 1;
      var front, c := config[..n], config[n];
      ConfiguredZones(front);
      var s := Configured(front);
      WithZoneSorted(s.zones, c.zone);
      forall z ensures z in Configured(config).zones <==> exists i | 0 <= i < |config| :: config[i].zone == z {
        if exists i | 0 <= i < |config| :: config[i].zone == z {
          var i :| 0 <= i < |config| && config[i].zone == z;
          if i < n { assert front[i].zone == z; }
        }
        if z in s.zones {
          var i :| 0 <= i < n && front[i].zone == z;
          assert config[i].zone == z;
        }
      }
    }
  }
}
