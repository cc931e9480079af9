# clandestined: zone-aware rendezvous hashing

clandestined places keys on the nodes of a cluster with rendezvous
(highest-random-weight) hashing. Each node belongs to a zone. Each zone keeps
a ring, and a ring scores every node for a key by hashing `"<node>-<key>"`.
For `replicas` copies, `find_nodes` walks the sorted zone list from an
offset, wrapping around, and takes the best-scoring node of each zone it
visits. The default hash is the 32-bit x86 variant of MurmurHash3, written
as a C extension.

The repository holds three revisions of the same design, and all three are
modelled:

- `clandestined/clandestined.py` is the converged revision. Its rings break
  score ties by the greater id, `remove_node` raises for an unknown id, and
  `find_nodes` returns a set of ids (module `Clandestined`).
- `clandestine/clandestine.py` is the intermediate revision. It chooses the
  hash function and seed (`BindHash`), its rings use Python's `max()` (the
  first best node wins), and `find_nodes` returns one entry per replica
  (module `Clandestine`).
- `clandestine.py` is the first revision. A zone must be registered before
  nodes join it, and `find_nodes` is keyed by product id and block index
  (module `ClandestineOriginal`).

Supporting modules:

| module | contents |
|---|---|
| `Murmur3` | The C routine as a method over bytes, proved equal to a functional definition. Also the test vectors. |
| `Scoring` | The score of a node and Python's `max()`. |
| `Lex` | Python's string order and `sorted()`. |
| `Lists` | `list.index` and `list.remove`. |
| `Text` | `str()`, `int()`, `"%s-%s"` keys, code-point sums and UTF-8. |
| `Zones` | The zone walk and the sorted zone list. |
| `Membership` | The cluster's dictionaries as one value, with the invariant every operation keeps. |
| `ReplicaLists` | The per-replica list of the two earlier revisions. |
| `Revisions` | How the two tie-breaking rules relate. |

The clusters and rings are classes whose methods update their fields in
place. Each method is proved against a function on the abstract state
(`JoinState`, `LeaveState`, `DropZoneState`, `AddStep`, `RemoveStep`,
`Placement`, `ReplicaList`). The properties of those functions are proved as
lemmas.

Boundaries of the model:

- The hash a cluster uses is a parameter of type `string -> nat`. The default
  is `Scoring.Murmur(seed)`, which is MurmurHash3 over the UTF-8 bytes of the
  string.
- Python exceptions are modelled as the `Fail`/`Err` results of
  `Outcome`/`Result`.
- A cluster configuration, a dictionary in Python, is a sequence of
  `NodeConfig` entries with distinct ids, in dictionary order.

## Model

| member | source | states |
|---|---|---|
| Murmur3.Murmur3_32 | ext/_murmur3.c:17-65 | The C routine (block loop, tail switch, finalisation) computes `Hash(key, seed)` for every byte string. |
| Murmur3.MixBlocks | ext/_murmur3.c:25-38 | The block loop folds the `len / 4` little-endian words into the seed, one scramble-and-round per word. |
| Murmur3.ReadTail | ext/_murmur3.c:40-49 | The fall-through switch on `len & 3` assembles the 0 to 3 trailing bytes little-endian. |
| Murmur3.MixTail | ext/_murmur3.c:48-55 | The tail word is scrambled and folded in only when there is a tail. |
| Murmur3.Finalize | ext/_murmur3.c:57-62 | The length is XORed in (truncated to 32 bits), then the fmix32 avalanche is applied. |
| Murmur3.EmptyKeyDefaultSeed | ext/_murmur3.c:148 | The empty key under the default seed 0 hashes to 0. |
| Murmur3.Vector6666Seed0 | clandestine/test/test_rendezvous_hash.py:16 | `"6666"` under the default seed hashes to 1361238019. |
| Murmur3.Vector6666Seed10 | clandestine/test/test_rendezvous_hash.py:26 | `"6666"` under seed 10 hashes to 2981722772. |
| Scoring.Murmur6666 | clandestine/test/test_rendezvous_hash.py:13-26 | The default hash of the string `"6666"`, taken over its UTF-8 bytes, is 1361238019 under seed 0 and 2981722772 under seed 10. |
| Scoring.FirstMaxIsFirstBest | clandestine/clandestine.py:30-32 | `max(nodes, key=score)` fails exactly on an empty ring. Otherwise it returns a ring node whose score is maximal and that appears no later than any node reaching that score. |
| Scoring.FirstMaxIn | clandestine/clandestine.py:30-32 | `max(nodes, key=score)` fails exactly on an empty ring and otherwise returns one of the ring's nodes. |
| Text.DecimalDigits | clandestined/clandestined.py:30 | `str(n)` of a non-negative integer is a non-empty run of digits without a leading zero. |
| Text.ParseDecimalInverts | clandestined/clandestined.py:103 | `int(str(n)) == n`. |
| Text.IndexKeyInjective | clandestined/clandestined.py:104 | Different (partition, index) pairs never produce the same key `"p-i"`. |
| Text.Utf8 | ext/_murmur3.c:150 | The bytes read from a `str` number between one and four per code point. |
| Text.Utf8Char | ext/_murmur3.c:150 | A code point is one to four bytes, a single byte exactly for ASCII, and an ASCII character is its own byte. |
| Lists.IndexOf | clandestined/clandestined.py:22 | `list.index(x)` is the position of the first occurrence of `x`. |
| Lists.RemoveFirst | clandestined/clandestined.py:22 | `list.remove(x)` shortens the list by one and takes out exactly one `x`. |
| Lists.RemoveFirstNoDup | clandestined/clandestined.py:20-24 | On a duplicate-free list, `remove(x)` keeps it duplicate-free and drops exactly `x`. |
| Lists.RemoveFirstAppended | clandestined/clandestined.py:16-24 | Removing an id that was just appended, and was not there before, gives the list back. |
| Lex.Max | clandestined/clandestined.py:34 | `max(a, b)` on strings is one of the two and is at least both. |
| Lex.LessTotal | clandestined/clandestined.py:34 | Any two distinct strings are ordered one way or the other. |
| Lex.LessTransitive | clandestined/clandestined.py:34 | The string order is transitive. |
| Lex.SortSorted | clandestined/clandestined.py:61 | `sorted()` returns an ordered permutation of its argument. |
| Lex.SortDistinct | clandestined/clandestined.py:61 | Sorting a duplicate-free list gives a strictly increasing list with the same elements. |
| Lex.StrictlySortedUnique | clandestined/clandestined.py:68 | Two strictly increasing lists with the same elements are equal. |
| Zones.ProbesDistinct | clandestined/clandestined.py:96-97 | Fewer probes than zones visit distinct zones. |
| Zones.ProbeWraps | clandestined/clandestined.py:97 | A probe a whole turn later visits the same zone again. |
| Zones.IndexOffset | clandestined/clandestined.py:103 | The offset `p + i % len(zones)` probes the zones that starting at `(p + i) % len(zones)` does. |
| Zones.WithZoneSorted | clandestined/clandestined.py:58-61 | `add_zone` keeps the zone list strictly sorted, adds exactly the zone, and is idempotent. |
| Zones.WithoutZoneSorted | clandestined/clandestined.py:63-68 | Removing a listed zone keeps the list strictly sorted and drops exactly that zone. |
| Zones.AddRemoveZoneRoundTrip | clandestined/clandestined.py:58-68 | Adding a new zone and removing it again restores the zone list. |
| Membership.AddZoneKeepsValid | clandestined/clandestined.py:58-61 | `add_zone` keeps the cluster invariant, adds exactly the zone, and is idempotent. |
| Membership.JoinKeepsValid | clandestined/clandestined.py:74-80 | Adding a new id keeps the invariant, and records the id under its name and zone. |
| Membership.JoinChanges | clandestined/clandestined.py:74-80 | Adding a node lists its zone beside the others and renames no other node. |
| Membership.DropZoneKeepsValid | clandestined/clandestined.py:63-70 | Removing a listed zone keeps the invariant. It forgets exactly that zone's members and keeps every other name. |
| Membership.DepartKeepsCoherent | clandestined/clandestined.py:83-85 | Taking a member out of its zone keeps every part of the invariant except non-empty member lists. |
| Membership.LeaveKeepsValid | clandestined/clandestined.py:82-87 | `remove_node` keeps the invariant and forgets the id. The zone stays listed exactly when it had another member. |
| Membership.JoinLeaveRoundTrip | clandestined/clandestined.py:74-87 | Adding a new node and removing it again restores the cluster, when the zone is either unlisted or already has members. |
| Membership.BareZoneJoinLeave | clandestined/clandestined.py:74-87 | For a zone listed by `add_zone` alone, adding a node and removing it again restores everything except the zone list, which loses that zone through the cascade into `remove_zone`. |
| Membership.RejoinRoundTrip | clandestined/clandestined.py:74-87 | The same round trip into a zone that already has members. |
| Membership.FirstJoinRoundTrip | clandestined/clandestined.py:74-87 | The same round trip for the first node of a new zone, whose zone goes away again. |
| Membership.ConfiguredValid | clandestined/clandestined.py:52-56 | Building a cluster from a configuration with distinct ids gives a valid state that names only configured ids. |
| Membership.ConfiguredNames | clandestined/clandestined.py:53-56 | Each configured node keeps the name and zone it was configured with. |
| Membership.ConfiguredZones | clandestined/clandestined.py:53-56 | The zone list of a configured cluster is strictly sorted and holds exactly the configured zones. |
| Clandestined.WinnerIsBest | clandestined/clandestined.py:26-35 | `find_node` returns `None` exactly on an empty ring. Otherwise it returns a ring node that beats every other: a higher score, or the same score and a greater id. |
| Clandestined.DominatorUnique | clandestined/clandestined.py:31-34 | At most one node beats all the others, so the winner is determined. |
| Clandestined.WinnerOrderFree | clandestined/clandestined.py:29-34 | The winner depends only on which nodes the ring holds, never on their order. |
| Clandestined.WinnerAfterAdd | clandestined/clandestined.py:16-18 | Adding a node moves a key only onto the new node. |
| Clandestined.WinnerAfterRemove | clandestined/clandestined.py:20-22 | Removing a node moves only the keys that node owned. |
| Clandestined.ConstantHashTieBreak | clandestined/test/test_collision.py:18-25 | With every score equal, ring `['c', 'b', 'a']` sends every key to `'c'`. |
| Clandestined.RendezvousHash.constructor | clandestined/clandestined.py:9-14 | The ring holds the given nodes and scores with the given hash. |
| Clandestined.RendezvousHash.AddNode | clandestined/clandestined.py:16-18 | Appends an absent id. Re-adding is a no-op. The id is then present, and a duplicate-free list stays duplicate-free. |
| Clandestined.RendezvousHash.RemoveNode | clandestined/clandestined.py:20-24 | Removes the first occurrence of a present id. An absent id is refused with `NoSuchNode` and nothing changes. |
| Clandestined.RendezvousHash.FindNode | clandestined/clandestined.py:26-35 | The scan loop returns `Winner`, the best-scoring node with ties to the greater id. |
| Clandestined.PlacementBound | clandestined/clandestined.py:92-100 | `find_nodes` returns at most `replicas` distinct entries. |
| Clandestined.PlacementEntries | clandestined/clandestined.py:96-99 | An entry of the result is exactly the answer of the ring of one of the first `replicas` probed zones. |
| Clandestined.PlacementByIndexOffset | clandestined/clandestined.py:102-105 | The offset of `find_nodes_by_index` gives the placement that starts at zone `(p + i) % len(zones)`. |
| Clandestined.PlacementSpread | clandestined/clandestined.py:96-100 | With no more replicas than zones and every probed zone populated, the result has exactly `replicas` distinct nodes. |
| Clandestined.ValidPlacementSpread | clandestined/clandestined.py:92-100 | In a valid cluster whose listed zones all hold nodes, with no more replicas than zones, the result has exactly `replicas` distinct nodes. |
| Clandestined.PlacementNamesNodes | clandestined/clandestined.py:92-100 | Every id `find_nodes` reports is a node of the cluster. |
| Clandestined.JoinMovesKeysOnlyToNewNode | clandestined/clandestined.py:74-80 | Adding a node moves a key, in any zone, only onto the new node. |
| Clandestined.LeaveMovesOnlyOwnedKeys | clandestined/clandestined.py:82-87 | Removing a node moves, in any zone, only the keys that node owned. |
| Clandestined.CoherentDisjoint | clandestined/clandestined.py:74-80 | In a coherent cluster no id is in two zones' member lists. |
| Clandestined.RemovePopulatedZoneAsWritten | clandestined/clandestined.py:63-72 | As written, removing a zone with members crashes on `dict.remove`, and leaves member lists for a zone no longer listed. |
| Clandestined.RemoveBareZoneAsWritten | clandestined/clandestined.py:63-72 | As written, removing a zone that was only added crashes on `del self.rings[zone]`, and leaves the cluster inconsistent. |
| Clandestined.Cluster.constructor | clandestined/clandestined.py:40-56 | The cluster starts valid, holds exactly the configured nodes added in order, and uses the given hash and replica count. |
| Clandestined.Cluster.Populate | clandestined/clandestined.py:52-56 | The configuration loop adds each node in turn, none refused since the ids are distinct. The cluster stays valid and ends as `Configured(config)`. |
| Clandestined.Cluster.AddZone | clandestined/clandestined.py:58-61 | Valid in, valid out. The state is `AddZoneState`, and the rings are untouched. |
| Clandestined.Cluster.AddNode | clandestined/clandestined.py:74-80 | A known id is refused with `DuplicateNode` and nothing changes. A new id is joined to its zone (`JoinState`), and the cluster stays valid. |
| Clandestined.Cluster.Register | clandestined/clandestined.py:78-80 | The id joins the zone's ring, gets its name, and is appended to the zone's member list. |
| Clandestined.Cluster.AddToRing | clandestined/clandestined.py:78 | The zone's ring, created empty if missing, gains the id. The rings keep matching the member lists. |
| Clandestined.Cluster.RingOf | clandestined/clandestined.py:78 | `self.rings[zone]` returns the zone's ring, creating an empty one on first use. The rings keep matching the member lists. |
| Clandestined.Cluster.RemoveZone | clandestined/clandestined.py:63-72 | Corrected `remove_zone`. An unlisted zone is refused with `NoSuchZone` and nothing changes. Otherwise the zone, its members' names, its member list and its ring are gone, and the cluster stays valid. |
| Clandestined.Cluster.DropZone | clandestined/clandestined.py:64-70 | The body for a listed zone yields `DropZoneState`, and the zone's ring is deleted. |
| Clandestined.Cluster.DeleteNames | clandestined/clandestined.py:66-67 | The loop over the members leaves the names dictionary without exactly those ids. |
| Clandestined.Cluster.DeleteRing | clandestined/clandestined.py:69-70 | The zone's ring and member list are deleted, and nothing else. |
| Clandestined.Cluster.RemoveNode | clandestined/clandestined.py:82-87 | An id its zone does not hold is refused with `NoSuchNode` and nothing changes. Otherwise the state is `LeaveState`: the id is gone, and an emptied zone is removed. The cluster stays valid. |
| Clandestined.Cluster.Depart | clandestined/clandestined.py:83-85 | The ring, the names and the member list drop the id (`DepartState`). |
| Clandestined.Cluster.NodeName | clandestined/clandestined.py:89-90 | The recorded name, or `None` for an unknown id. |
| Clandestined.Cluster.FindNodes | clandestined/clandestined.py:92-100 | With no zones it fails with a division by zero unless no probe is made. Otherwise it returns `Placement` from the given offset, or from the key's code-point sum. |
| Clandestined.Cluster.FindNodesByIndex | clandestined/clandestined.py:102-105 | Key `"p-i"`, placed from zone `(p + i) % len(zones)`. Fails with no zones. |
| ReplicaLists.ReplicaListShape | clandestine/clandestine.py:95-103 | The list exists exactly when every probed ring has a node. It then has `replicas` entries, entry `i` being the `max()` of the ring of probe `i`. |
| ReplicaLists.ReplicaListRepeats | clandestine/clandestine.py:99-102 | With more replicas than zones, entry `i` and entry `i + len(zones)` are the same node. |
| ReplicaLists.ReplicaListByIndexOffset | clandestine/clandestine.py:105-108 | The offset `p + i % len(zones)` builds the list that starts at `(p + i) % len(zones)`. |
| ReplicaLists.ReplicaListStops | clandestine/clandestine.py:99-102 | Once a probed ring is empty, `find_nodes` raises for every longer walk. |
| Clandestine.BindHash | clandestine/clandestine.py:40-46 | `murmur3_32` is bound to the seed. Another hash is used as given with seed 0, and refused with a nonzero seed. |
| Clandestine.RendezvousHash.constructor | clandestine/clandestine.py:9-20 | The ring holds the given nodes and scores with the bound hash. |
| Clandestine.RendezvousHash.AddNode | clandestine/clandestine.py:22-24 | Appends an absent id, and re-adding is a no-op. A duplicate-free list stays duplicate-free. |
| Clandestine.RendezvousHash.RemoveNode | clandestine/clandestine.py:26-28 | Removes the first occurrence of a present id, and ignores an absent one. A duplicate-free list then lacks the id. |
| Clandestine.RendezvousHash.FindNode | clandestine/clandestine.py:30-32 | `max(self.nodes, key=score)` over the ring: `None` (the `ValueError`) exactly on an empty ring, otherwise one of the ring's nodes. Maximality and first-wins are stated by Scoring.FirstMaxIsFirstBest. |
| Clandestine.RemovePopulatedZoneAsWritten | clandestine/clandestine.py:68-75 | As written, removing a zone with members crashes on `dict.remove`, and leaves member lists for an unlisted zone. |
| Clandestine.CascadeAsWrittenAgrees | clandestine/clandestine.py:89-90 | The one call `remove_node` makes, on a zone it has just emptied, goes through as written and yields `DropZoneState`. |
| Clandestined.CascadeAsWrittenAgrees | clandestined/clandestined.py:86-87 | The converged revision's cascade: `remove_zone` as written, on the zone `remove_node` has just emptied, goes through and yields `DropZoneState`. |
| Clandestine.Cluster.constructor | clandestine/clandestine.py:37-61 | The cluster starts valid, holds exactly the configured nodes, and uses the given hash and replica count. |
| Clandestine.Cluster.Populate | clandestine/clandestine.py:57-61 | The configuration loop adds each node in turn, none refused since the ids are distinct. The cluster stays valid and ends as `Configured(config)`. |
| Clandestine.Cluster.AddZone | clandestine/clandestine.py:63-66 | Valid in, valid out. The state is `AddZoneState`. |
| Clandestine.Cluster.AddNode | clandestine/clandestine.py:77-83 | A known id is refused with `DuplicateNode` and nothing changes. A new id yields `JoinState`. |
| Clandestine.Cluster.Register | clandestine/clandestine.py:81-83 | The id joins the ring, gets its name, and is appended to the member list. |
| Clandestine.Cluster.AddToRing | clandestine/clandestine.py:81 | The zone's ring, created if missing, gains the id. |
| Clandestine.Cluster.RingOf | clandestine/clandestine.py:81 | `self.rings[zone]` returns the zone's ring, creating an empty one on first use. The rings keep matching the member lists. |
| Clandestine.Cluster.RemoveZone | clandestine/clandestine.py:68-75 | Corrected `remove_zone`. An unlisted zone changes nothing. Otherwise the state is `DropZoneState` with the zone's ring deleted, and the cluster stays valid. |
| Clandestine.Cluster.DropZone | clandestine/clandestine.py:69-75 | The body for a listed zone yields `DropZoneState`. |
| Clandestine.Cluster.DeleteNames | clandestine/clandestine.py:71-72 | The loop leaves the names dictionary without exactly the members. |
| Clandestine.Cluster.DeleteRing | clandestine/clandestine.py:74-75 | The zone's ring and member list are deleted. |
| Clandestine.Cluster.RemoveNode | clandestine/clandestine.py:85-90 | An id its zone does not hold fails with `NoSuchNode` and nothing changes. Otherwise the state is `LeaveState`, and the cluster stays valid. |
| Clandestine.Cluster.Depart | clandestine/clandestine.py:86-88 | The ring, the names and the member list drop the id (`DepartState`). |
| Clandestine.Cluster.NodeName | clandestine/clandestine.py:92-93 | The recorded name, or `None`. |
| Clandestine.Cluster.FindNodes | clandestine/clandestine.py:95-103 | With no zones it fails unless no probe is made. Otherwise it returns `ReplicaList` from the given or code-point offset, or `EmptyRing` when a probed ring has no node. |
| Clandestine.Cluster.Probe | clandestine/clandestine.py:99-103 | The loop returns the replica list from the offset, failing on the first probed ring without nodes. |
| Clandestine.Cluster.RingWinner | clandestine/clandestine.py:100-102 | The probed ring's `max()`, computed from the ids the zone's member list holds. |
| Clandestine.Cluster.FindNodesByIndex | clandestine/clandestine.py:105-108 | The replica list of key `"p-i"` from offset `p + i % len(zones)` (by ReplicaListByIndexOffset, the list starting at zone `(p + i) % len(zones)`). Fails with no zones. |
| ClandestineOriginal.AddAgreesWithJoin | clandestine.py:57-62 | Adding a new id to a registered zone succeeds and does what the later revisions' join does. |
| ClandestineOriginal.RemoveAgreesWithDepart | clandestine.py:64-69 | Removing a member of a registered zone succeeds and does what the later revisions' departure does. |
| ClandestineOriginal.OrigConfiguredAgrees | clandestine.py:42-46 | With distinct ids, building the cluster gives the state the later revisions build, each ring holding its zone's members. |
| ClandestineOriginal.AddRemoveRoundTrip | clandestine.py:57-69 | Adding a new id and removing it restores the cluster, except that the zone now has an (empty) ring and member list. |
| ClandestineOriginal.AddTwice | clandestine.py:57-62 | Adding the same new id twice: the ring holds it once, but the member list holds it twice. |
| ClandestineOriginal.AddTwiceRemoveOnce | clandestine.py:57-69 | One removal after a double add takes out the name and the ring entry, but only one of the two list entries. |
| ClandestineOriginal.DuplicateAddDesyncs | clandestine.py:57-69 | After a double add and one removal, the id is no node and not in the ring, yet still listed. A second removal fails with `KeyError`. |
| ClandestineOriginal.RemoveListedZoneAsWritten | clandestine.py:53-55 | As written, removing a listed zone removes it and then always raises `TypeError` from `sorted(None)`. |
| ClandestineOriginal.Cluster.constructor | clandestine.py:30-46 | The cluster is valid and holds `OrigConfigured(config)`: each configured zone is registered and its node added. |
| ClandestineOriginal.Cluster.AddZone | clandestine.py:48-51 | The state is `AddZoneStep`, and the cluster stays valid. |
| ClandestineOriginal.Cluster.RemoveZone | clandestine.py:53-55 | Corrected `remove_zone`: a listed zone leaves the sorted list, and an unlisted one changes nothing. |
| ClandestineOriginal.Cluster.AddNode | clandestine.py:57-62 | State and outcome are `AddStep`. An unregistered zone gives `UnknownZone` and nothing changes. Otherwise the ring gains the id (once), the name is set, and the id is appended to the member list. |
| ClandestineOriginal.Cluster.AddToRing | clandestine.py:60 | The zone's ring, created if missing, gains the id unless present. |
| ClandestineOriginal.Cluster.RemoveNode | clandestine.py:64-69 | State and outcome are `RemoveStep`: an unregistered zone is refused. Otherwise the ring drops the id. A missing name is a `KeyError`, and a missing list entry a `ValueError` after the name is deleted. Success otherwise. |
| ClandestineOriginal.Cluster.RemoveFromRing | clandestine.py:67 | The zone's ring, created if missing, drops the id if present. |
| ClandestineOriginal.Cluster.Forget | clandestine.py:68-69 | `del nodes[id]` then `zone_members[zone].remove(id)`, with each error case and the partial update it leaves. |
| ClandestineOriginal.Cluster.RingOf | clandestine.py:60 | `self.rings[zone]` returns the zone's ring, creating an empty one on first use. |
| ClandestineOriginal.Cluster.NodeNameById | clandestine.py:71-72 | The recorded name exactly for a known id, otherwise a `KeyError`. |
| ClandestineOriginal.Cluster.FindNodes | clandestine.py:74-82 | With no zones, a division by zero. Otherwise the replica list of key `"p-b"` from offset `p + b % len(zones)`, or `EmptyRing`. |
| ClandestineOriginal.Cluster.Probe | clandestine.py:77-82 | The loop returns the replica list from the offset, failing on the first probed ring without nodes. |
| ClandestineOriginal.Cluster.RingWinner | clandestine.py:79-81 | The probed ring's `max()`, computed from the ids the ring holds. |
| Revisions.DistinctScoresAgree | clandestined/clandestined.py:26-35 | Without score ties, the converged `find_node` and the earlier revisions' `max()` pick the same node. |
| Revisions.TiesDiffer | clandestine/clandestine.py:30-32 | With every score equal, `max()` picks the first node, while the converged ring's scan (clandestined/clandestined.py, lines 29-34) picks the greatest id. |

## Left out

- Zone `None`: the Python default zone is `None`, but the model's zones are strings. Under Python 3, `sorted()` of `None` beside strings raises.
- Clandestine.BindHash: takes the seed as a 32-bit value. Range checking of the seed by the `i` argument format (an `OverflowError` for a seed that does not fit) is not modelled.
- Murmur3.Murmur3_32: key blocks are read little-endian, as on x86. Keys of `2^33` bytes or more, where the C `int` block count overflows, are not modelled.
- The Python/C glue: argument parsing, module initialisation and the `Py_BuildValue` conversion. The result is taken as a non-negative integer.
- Node ids and keys are strings. The `str()` applied to non-string ids and keys is not modelled, except for the partition and block indices, which are modelled as non-negative integers. Negative or non-integer indices are left out.
- Clandestined.Cluster.FindNodes: returns a set, as the source's `list(set(...))` has no defined order. The model does not create the empty ring that the `defaultdict` inserts for a probed zone without one.
- Clandestine.Cluster.FindNodes: does not create the empty ring a probed zone without one gets from the `defaultdict`. That ring is empty, so the call raises either way.
- ClandestineOriginal.Cluster.FindNodes: does not create the empty ring a probed zone without one gets from the `defaultdict`.
- Clandestined.Cluster.RemoveNode: a zone without a ring gets an empty one from the `defaultdict` before `remove_node` raises. The model refuses without creating it.
- Clandestine.Cluster.RemoveNode: when the zone does not hold the id, the source may create an empty ring, and may delete the id's name before raising. The model refuses with nothing changed.
- Clandestine.Cluster.RemoveZone and Clandestined.Cluster.RemoveZone are the corrected definitions (see Findings). Their requires allow the one state the source's own cascade produces: the zone's member list just emptied.
- Clandestine.RemoveZoneAsWritten: the crash of a zone added by `add_zone` alone (its missing ring) follows from the converged revision's definition. It is stated only there, in Clandestined.RemoveBareZoneAsWritten.
- Rings and clusters are built from the hash they score with. The seed and hash-function arguments are resolved first by `Clandestine.BindHash`, or by `Scoring.Murmur(seed)` for the converged revision.
- A list of nodes passed to a ring's constructor is shared with the caller in Python. The model copies it, so aliasing between caller and ring is not captured.
- The distribution tests (how many keys move when nodes join or leave) are statistical and are not modelled. The move-only-to-the-new-node and move-only-owned-keys lemmas state the exact property behind them.
- Concurrency: the classes are not thread-safe, and none is modelled.

## Findings

| source | as written | input that shows it | evidently intended | confidence | as-written member | corrected member |
|---|---|---|---|---|---|---|
| clandestined/clandestined.py:66-67 | `self.nodes.remove(member)` on a dict, after the zone has already left `self.zones` | `Cluster({'1': {'zone': 'a'}}).remove_zone('a')` | each member's name deleted (`del self.nodes[member]`), then the ring and member list | not executed | Clandestined.RemovePopulatedZoneAsWritten | Clandestined.Cluster.RemoveZone |
| clandestined/clandestined.py:69 | `del self.rings[zone]` on a zone whose ring was never created | `c = Cluster(); c.add_zone('a'); c.remove_zone('a')` | the ring deleted only when it exists | not executed | Clandestined.RemoveBareZoneAsWritten | Clandestined.Cluster.RemoveZone |
| clandestine/clandestine.py:71-72 | `self.nodes.remove(member)` on a dict | `Cluster({'1': {'zone': 'a'}}).remove_zone('a')` | each member's name deleted | not executed | Clandestine.RemovePopulatedZoneAsWritten | Clandestine.Cluster.RemoveZone |
| clandestine.py:55 | `sorted(self.zones.remove(zone))`: `list.remove` returns `None` | `Cluster({'1': {'zone': 'a'}}).remove_zone('a')` | remove the zone, then keep the list sorted | not executed | ClandestineOriginal.RemoveListedZoneAsWritten | ClandestineOriginal.Cluster.RemoveZone |
