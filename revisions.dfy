/** How the converged ring's `find_node` relates to the `max()` of the two
    earlier revisions: they agree unless two nodes share the best score,
    where the earlier ones keep the first such node in the list and the
    converged one takes the greatest id. */
module Revisions {
  import opened Wrappers
  import Lex
  import opened Scoring
  import Clandestined

  /** No two different nodes of the list score the same for the key. */
  predicate DistinctScores(hash: string -> nat, key: string, nodes: seq<string>) {
    forall i, j | 0 <= i < j < |nodes| :: nodes[i] == nodes[j] || Score(hash, nodes[i], key) != Score(hash, nodes[j], key)
  }

  /** Without ties, every revision's ring answers the same. */
  lemma {:induction false} DistinctScoresAgree(hash: string -> nat, key: string, nodes: seq<string>)
    requires DistinctScores(hash, key, nodes)
    ensures FirstMax(hash, key, nodes) == Clandestined.Winner(hash, key, nodes)
  {
    if nodes != [] {
      var rest, last := nodes[..|nodes| - 1], nodes[|nodes| - 1];
      assert DistinctScores(hash, key, rest);
      DistinctScoresAgree(hash, key, rest);
      var m := FirstMax(hash, key, rest);
      if m.Some? && Score(hash, last, key) == Score(hash, m.value, key) {
        FirstMaxIsFirstBest(hash, key, rest);
        var k :| 0 <= k < |rest| && rest[k] == m.value;
        assert nodes[k] == m.value;
        assert m.value == last;
        Lex.LessIrreflexive(last);
      }
    }
  }

  /** With every score equal, the earlier revisions send every key to the
      first node of `['a', 'b', 'c']` and the converged one to the last. */
  lemma TiesDiffer(key: string)
    ensures FirstMax(Clandestined.Colliding, key, ["a", "b", "c"]) == Some("a")
    ensures Clandestined.Winner(Clandestined.Colliding, key, ["a", "b", "c"]) == Some("c")
  {
    assert ["a", "b", "c"][..2] == ["a", "b"];
    assert ["a", "b"][..1] == ["a"];
    assert ["a"][..0] == [];
    assert FirstMax(Clandestined.Colliding, key, ["a"]) == Some("a");
    assert FirstMax(Clandestined.Colliding, key, ["a", "b"]) == Some("a");
    assert Lex.Less("a", "b") && Lex.Less("b", "c");
    assert Clandestined.Winner(Clandestined.Colliding, key, ["a"]) == Some("a");
    assert Lex.Max("b", "a") == "b";
    assert Clandestined.Winner(Clandestined.Colliding, key, ["a", "b"]) == Some("b");
    assert Lex.Max("c", "b") == "c";
  }
}
