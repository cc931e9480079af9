/** The zone list every revision keeps (sorted, one entry per zone) and the
    walk `find_nodes` makes over it. */
module Zones {
  import opened Wrappers
  import opened Lists
  import Lex
  import Arith
  import Text

  /** The zone probed for replica `i`: `zones[(i + offset) % len(zones)]`. */
  function Probe(zones: seq<string>, offset: int, i: nat): string
    requires |zones| > 0
  {
    zones[(i + offset) % |zones|]
  }

  /** Fewer probes than zones visit distinct zones. */
  lemma ProbesDistinct(zones: seq<string>, offset: int, i: nat, j: nat)
    requires NoDup(zones) && i < j < |zones|
    ensures Probe(zones, offset, i) != Probe(zones, offset, j)
  {
    Arith.ModDistinct(i, j, offset, |zones|);
  }

  /** Congruent offsets probe the same zones. */
  lemma ProbeCongruent(zones: seq<string>, a: int, b: int, i: nat)
    requires |zones| > 0 && a % |zones| == b % |zones|
    ensures Probe(zones, a, i) == Probe(zones, b, i)
  {
    Arith.AddCongruent(i, a, b, |zones|);
  }

  /** The offset `int(p) + int(i) % len(zones)` that `find_nodes_by_index`
      (and the first revision's `find_nodes`) computes; the `%` binds
      tighter than the `+`. */
  function IndexStart(p: nat, i: nat, zoneCount: nat): int
    requires zoneCount > 0
  {
    p + i % zoneCount
  }

  /** The offset `IndexStart(p, i)` probes the zones that starting at zone
      `(p + i) % len(zones)` does. */
  lemma IndexOffset(zones: seq<string>, p: nat, i: nat, k: nat)
    requires |zones| > 0
    ensures Probe(zones, IndexStart(p, i, |zones|), k) == Probe(zones, (p + i) % |zones|, k)
  {
    Arith.IndexCongruent(p, i, |zones|);
    ProbeCongruent(zones, IndexStart(p, i, |zones|), (p + i) % |zones|, k);
  }

  /** A probe a whole turn later visits the same zone again. */
  lemma ProbeWraps(zones: seq<string>, offset: int, i: nat)
    requires |zones| > 0
    ensures Probe(zones, offset, i + |zones|) == Probe(zones, offset, i)
  {
    Arith.ShiftMod(i + offset, 1, |zones|);
  }

  /** The offset `find_nodes` uses: the one given, or the sum of the key's
      code points modulo the number of zones. */
  function StartOffset(key: string, offset: Option<int>, zoneCount: nat): int
    requires zoneCount > 0
  {
    if offset.Some? then offset.value else Text.OrdSum(key) % zoneCount
  }

  /** The zone list after `add_zone(zone)`. */
  function WithZone(zones: seq<string>, zone: string): seq<string> {
    if zone in zones then zones else Lex.Sort(zones + [zone])
  }

  /** `add_zone` keeps the zone list sorted and duplicate-free, holds exactly
      the old zones and the new one, and adding a zone twice is adding it once. */
  lemma WithZoneSorted(zones: seq<string>, zone: string)
    requires Lex.StrictlySorted(zones)
    ensures Lex.StrictlySorted(WithZone(zones, zone))
    ensures forall z :: z in WithZone(zones, zone) <==> z in zones || z == zone
    ensures WithZone(WithZone(zones, zone), zone) == WithZone(zones, zone)
  {
    if zone !in zones {
      Lex.StrictIsSortedNoDup(zones);
      var s := zones + [zone];
      assert NoDup(s) by {
        forall i, j | 0 <= i < j < |s| ensures s[i] != s[j] {
          if j == |zones| { assert s[i] in zones; }
        }
      }
      Lex.SortDistinct(s);
    }
  }

  /** The zone list after a zone is removed and the list re-sorted. */
  function WithoutZone(zones: seq<string>, zone: string): seq<string>
    requires zone in zones
  {
    Lex.Sort(RemoveFirst(zones, zone))
  }

  /** Removing a zone keeps the list sorted and duplicate-free and drops
      exactly that zone. */
  lemma WithoutZoneSorted(zones: seq<string>, zone: string)
    requires zone in zones && Lex.StrictlySorted(zones)
    ensures Lex.StrictlySorted(WithoutZone(zones, zone))
    ensures forall z :: z in WithoutZone(zones, zone) <==> z in zones && z != zone
  {
    Lex.StrictIsSortedNoDup(zones);
    RemoveFirstNoDup(zones, zone);
    Lex.SortDistinct(RemoveFirst(zones, zone));
  }

  /** Adding a zone that was not there and removing it again restores the
      zone list. */
  lemma AddRemoveZoneRoundTrip(zones: seq<string>, zone: string)
    requires Lex.StrictlySorted(zones) && zone !in zones
    ensures zone in WithZone(zones, zone)
    ensures WithoutZone(WithZone(zones, zone), zone) == zones
  {
    WithZoneSorted(zones, zone);
    WithoutZoneSorted(WithZone(zones, zone), zone);
    Lex.StrictlySortedUnique(WithoutZone(WithZone(zones, zone), zone), zones);
  }

}
