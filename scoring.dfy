/** What every revision of the ring shares: the score of a node for a key,
    the default hash behind it, and Python's `max(nodes, key=score)`. */
module Scoring {
  import opened Wrappers
  import Murmur3
  import Text
  import Lists

  /** `hash_function("%s-%s" % (str(node), str(key)))`. The hash is a
      parameter, so everything proved about scores holds for any hash. */
  function Score(hash: string -> nat, node: string, key: string): nat {
    hash(node + "-" + key)
  }

  /** `lambda x: murmur3_32(x, seed)`: the extension hashes the UTF-8 bytes
      of the string and returns an unsigned 32-bit value. */
  function Murmur(seed: bv32): string -> nat {
    s => Murmur3.Hash(Text.Utf8(s), seed) as nat
  }

  /** The string "6666" of the hash tests, as the extension sees it: its
      UTF-8 bytes hash to the published values under seeds 0 and 10. */
  lemma Murmur6666()
    ensures Murmur(Murmur3.DefaultSeed)("6666") == 1361238019
    ensures Murmur(10)("6666") == 2981722772
  {
    var k := "6666";
    assert k[..3] == "666" && "666"[..2] == "66" && "66"[..1] == "6" && "6"[..0] == "";
    assert Text.Utf8(k) == Murmur3.Key6666;
    Murmur3.Vector6666Seed0();
    Murmur3.Vector6666Seed10();
  }

  /** Python's `max(nodes, key=score)`: scans left to right and replaces its
      candidate only by a strictly higher score; `None` stands for the
      ValueError of an empty list. */
  function FirstMax(hash: string -> nat, key: string, nodes: seq<string>): Option<string> {
    if nodes == [] then None
    else
      var m := FirstMax(hash, key, nodes[..|nodes| - 1]);
      var last := nodes[|nodes| - 1];
      if m.None? || Score(hash, last, key) > Score(hash, m.value, key) then Some(last) else m
  }

  /** The node `max()` returns for `nodes` is a node of maximal score, and
      every node reaching that score comes no earlier than it. */
  predicate FirstBest(hash: string -> nat, key: string, w: string, nodes: seq<string>) {
    && w in nodes
    && (forall n | n in nodes :: Score(hash, n, key) <= Score(hash, w, key))
    && (forall j | 0 <= j < |nodes| && Score(hash, nodes[j], key) == Score(hash, w, key) ::
          w in nodes[..j + 1])
  }

  /** `max()` fails exactly on an empty list and otherwise picks one of its
      nodes. */
  lemma {:induction false} FirstMaxIn(hash: string -> nat, key: string, nodes: seq<string>)
    ensures FirstMax(hash, key, nodes).None? <==> nodes == []
    ensures FirstMax(hash, key, nodes).Some? ==> FirstMax(hash, key, nodes).value in nodes
  {
    if nodes != [] {
      var rest := nodes[..|nodes| - 1];
      FirstMaxIn(hash, key, rest);
      assert forall x | x in rest :: x in nodes;
    }
  }

  /** `max()` fails exactly on an empty list; otherwise the FIRST node of
      maximal score wins. */
  lemma {:induction false} FirstMaxIsFirstBest(hash: string -> nat, key: string, nodes: seq<string>)
    ensures FirstMax(hash, key, nodes).None? <==> nodes == []
    ensures FirstMax(hash, key, nodes).Some? ==> FirstBest(hash, key, FirstMax(hash, key, nodes).value, nodes)
  {
    if nodes != [] {
      var rest, last := nodes[..|nodes| - 1], nodes[|nodes| - 1];
      assert nodes == rest + [last];
      FirstMaxIsFirstBest(hash, key, rest);
      var m := FirstMax(hash, key, rest);
      if m.None? {
        assert nodes == [last];
        assert FirstMax(hash, key, nodes) == Some(last);
      } else {
        FirstMaxStep(hash, key, rest, last, m.value);
        assert FirstMax(hash, key, nodes) == if Score(hash, last, key) > Score(hash, m.value, key) then Some(last) else m;
      }
    }
  }

  /** One step of `max()`: the best of `rest` meets `last`, which replaces
      it only with a strictly higher score. */
  lemma FirstMaxStep(hash: string -> nat, key: string, rest: seq<string>, last: string, m: string)
    requires FirstBest(hash, key, m, rest)
    ensures FirstBest(hash, key, if Score(hash, last, key) > Score(hash, m, key) then last else m, rest + [last])
  {
    var nodes := rest + [last];
    var w := if Score(hash, last, key) > Score(hash, m, key) then last else m;
    forall j | 0 <= j < |nodes| && Score(hash, nodes[j], key) == Score(hash, w, key)
      ensures w in nodes[..j + 1]
    {
      if j == |rest| {
        assert nodes[..j + 1] == nodes;
      } else {
        assert nodes[j] == rest[j] && nodes[..j + 1] == rest[..j + 1];
      }
    }
  }
}
