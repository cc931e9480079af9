/** Python list operations the placement code relies on. */
module Lists {

  /** No element occurs twice. */
  predicate NoDup<T(==)>(s: seq<T>) {
    forall i, j :: 0 <= i < j < |s| ==> s[i] != s[j]
  }

  /** A duplicate-free list holds as many distinct elements as entries. */
  lemma {:induction false} DistinctCard<T>(s: seq<T>)
    requires NoDup(s)
    ensures |set x | x in s| == |s|
  {
    if s != [] {
      var rest, last := s[..|s| - 1], s[|s| - 1];
      assert s == rest + [last];
      assert NoDup(rest) by {
        forall i, j | 0 <= i < j < |rest| ensures rest[i] != rest[j] {
          assert rest[i] == s[i] && rest[j] == s[j];
        }
      }
      DistinctCard(rest);
      assert last !in rest by {
        forall i | 0 <= i < |rest| ensures rest[i] != last {
          assert rest[i] == s[i];
        }
      }
      assert (set x | x in s) == (set x | x in rest) + {last};
    }
  }

  /** The elements of a list with one more entry. */
  lemma ElemsAppend<T>(s: seq<T>, y: T)
    ensures (set x | x in s + [y]) == (set x | x in s) + {y}
  {
  }

  /** Python's `list.index(x)`: the position of the first occurrence of `x`. */
  function IndexOf<T(==)>(s: seq<T>, x: T): (k: nat)
    requires x in s
    ensures k < |s| && s[k] == x && x !in s[..k]
  {
    if s[0] == x then 0 else IndexOf(s[1..], x) + 1
  }

  /** Python's `list.remove(x)`: drops the first occurrence of `x`. */
  function RemoveFirst<T(==)>(s: seq<T>, x: T): (r: seq<T>)
    requires x in s
    ensures |r| == |s| - 1
    ensures multiset(r) == multiset(s) - multiset{x}
  {
    var k := IndexOf(s, x);
    assert s == s[..k] + [x] + s[k + 1..];
    s[..k] + s[k + 1..]
  }

  /** Removing an element from a duplicate-free list removes exactly that
      element and keeps the rest in order. */
  lemma RemoveFirstNoDup<T>(s: seq<T>, x: T)
    requires x in s && NoDup(s)
    ensures NoDup(RemoveFirst(s, x))
    ensures forall y :: y in RemoveFirst(s, x) <==> y in s && y != x
  {
    var k := IndexOf(s, x);
    var r := RemoveFirst(s, x);
    assert r == s[..k] + s[k + 1..];
    assert forall i :: 0 <= i < |r| ==> r[i] == (if i < k then s[i] else s[i + 1]);
    forall y ensures y in r <==> y in s && y != x {
      if y in r {
        var i :| 0 <= i < |r| && r[i] == y;
      }
      if y in s && y != x {
        var i :| 0 <= i < |s| && s[i] == y;
        assert i != k;
        assert r[if i < k then i else i - 1] == y;
      }
    }
  }

  /** Removing an element just appended, that was not there before, gives
      the list back. */
  lemma RemoveFirstAppended<T>(s: seq<T>, x: T)
    requires x !in s
    ensures RemoveFirst(s + [x], x) == s
  {
    assert forall i | 0 <= i < |s| :: (s + [x])[i] == s[i] != x;
    assert (s + [x])[..|s|] == s;
  }

  /** Removing an element appended twice, that was not there before,
      removes its first copy only. */
  lemma RemoveFirstAppendedTwice<T>(s: seq<T>, x: T)
    requires x !in s
    ensures RemoveFirst(s + [x, x], x) == s + [x]
  {
    assert forall i | 0 <= i < |s| :: (s + [x, x])[i] == s[i] != x;
    assert (s + [x, x])[..|s|] == s;
    assert (s + [x, x])[|s| + 1..] == [x];
  }
}
