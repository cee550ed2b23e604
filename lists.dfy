/**
 * The Python list operations the contact model relies on: `index`, index
 * assignment, `remove` and the `list(set(...))` deduplication, as functions
 * on sequences.
 */
module Lists {
  function Elements<T>(s: seq<T>): set<T> {
    set x | x in s
  }

  predicate NoDuplicates<T(==)>(s: seq<T>) {
    forall i, j | 0 <= i < j < |s| :: s[i] != s[j]
  }

  /** `list.index(x)`: the first position holding `x`. */
  function IndexOf<T(==)>(s: seq<T>, x: T): (i: nat)
    requires x in s
    ensures i < |s| && s[i] == x
    ensures forall j | 0 <= j < i :: s[j] != x
  {
    if s[0] == x then 0 else 1 + IndexOf(s[1..], x)
  }

  /** `s[s.index(x)] = y`: only the first position holding `x` changes. */
  function ReplaceFirst<T(==)>(s: seq<T>, x: T, y: T): (r: seq<T>)
    requires x in s
    ensures |r| == |s| && r[IndexOf(s, x)] == y
    ensures forall j | 0 <= j < |s| && j != IndexOf(s, x) :: r[j] == s[j]
  {
    s[IndexOf(s, x) := y]
  }

  /** `s.remove(x)`: drops the first occurrence of `x`. */
  function RemoveFirst<T(==)>(s: seq<T>, x: T): (r: seq<T>)
    requires x in s
    ensures |r| == |s| - 1
    ensures forall j | 0 <= j < IndexOf(s, x) :: r[j] == s[j]
  {
    var i := IndexOf(s, x);
    s[..i] + s[i + 1..]
  }

  /**
   * `list(set(s))`. Python leaves the order to the hash set; this model keeps
   * each value at its first occurrence, and nothing below depends on that choice.
   */
  function Distinct<T(==)>(s: seq<T>): (r: seq<T>)
    ensures Elements(r) == Elements(s)
    ensures NoDuplicates(r)
  {
    if s == [] then []
    else
      var init, last := s[..|s| - 1], s[|s| - 1];
      assert s == init + [last];
      var d := Distinct(init);
      assert Elements(s) == Elements(init) + {last};
      if last in init then d
      else
        assert last !in Elements(d);
        assert Elements(d + [last]) == Elements(d) + {last};
        d + [last]
  }

  /** A list without duplicates has as many positions as values. */
  lemma {:induction false} DistinctLength<T>(s: seq<T>)
    requires NoDuplicates(s)
    ensures |Elements(s)| == |s|
  {
    if s != [] {
      var init := s[..|s| - 1];
      assert s == init + [s[|s| - 1]];
      assert Elements(s) == Elements(init) + {s[|s| - 1]};
      assert s[|s| - 1] !in Elements(init);
      DistinctLength(init);
    }
  }

  /**
   * On a duplicate-free list, replacing `x` by `y` swaps the value sets, and
   * the list stays duplicate-free exactly when `y` was not already there
   * (or is `x` itself).
   */
  lemma ReplaceFirstElements<T>(s: seq<T>, x: T, y: T)
    requires x in s && NoDuplicates(s)
    ensures Elements(ReplaceFirst(s, x, y)) == Elements(s) - {x} + {y}
    ensures NoDuplicates(ReplaceFirst(s, x, y)) <==> (y == x || y !in s)
  {
    var i := IndexOf(s, x);
    var r := ReplaceFirst(s, x, y);
    forall v | v in Elements(s) - {x} + {y}
      ensures v in Elements(r)
    {
      if v == y {
        assert r[i] == y;
      } else {
        var k :| 0 <= k < |s| && s[k] == v;
        assert r[k] == v;
      }
    }
    if y != x && y in s {
      var k :| 0 <= k < |s| && s[k] == y;
      assert k != i && r[k] == r[i];
      if k < i {
        assert !NoDuplicates(r) by { assert r[k] == r[i]; }
      } else {
        assert !NoDuplicates(r) by { assert r[i] == r[k]; }
      }
    }
  }

  /**
   * Removing the first `x`: one position shorter, everything before keeps its
   * place, everything after moves one to the left, and one `x` fewer.
   */
  lemma {:induction false} RemoveFirstShape<T>(s: seq<T>, x: T)
    requires x in s
    ensures |RemoveFirst(s, x)| == |s| - 1
    ensures forall j | 0 <= j < IndexOf(s, x) :: RemoveFirst(s, x)[j] == s[j]
    ensures forall j | IndexOf(s, x) <= j < |s| - 1 :: RemoveFirst(s, x)[j] == s[j + 1]
    ensures multiset(RemoveFirst(s, x)) == multiset(s) - multiset{x}
  {
    var i := IndexOf(s, x);
    assert s == s[..i] + [x] + s[i + 1..];
    assert multiset(s) == multiset(s[..i]) + multiset{x} + multiset(s[i + 1..]);
  }

  /** On a duplicate-free list, removing `x` removes the value `x` and keeps the list duplicate-free. */
  lemma RemoveFirstElements<T>(s: seq<T>, x: T)
    requires x in s && NoDuplicates(s)
    ensures Elements(RemoveFirst(s, x)) == Elements(s) - {x}
    ensures NoDuplicates(RemoveFirst(s, x))
  {
    RemoveFirstShape(s, x);
    var i := IndexOf(s, x);
    var r := RemoveFirst(s, x);
    forall v | v in Elements(s) - {x}
      ensures v in Elements(r)
    {
      var k :| 0 <= k < |s| && s[k] == v;
      if k < i {
        assert r[k] == v;
      } else {
        assert r[k - 1] == v;
      }
    }
    forall v | v in Elements(r)
      ensures v in Elements(s) - {x}
    {
      var k :| 0 <= k < |r| && r[k] == v;
      if k < i {
        assert s[k] == v;
      } else {
        assert s[k + 1] == v;
      }
    }
    forall a, b | 0 <= a < b < |r|
      ensures r[a] != r[b]
    {
      var a' := if a < i then a else a + 1;
      var b' := if b < i then b else b + 1;
      assert r[a] == s[a'] && r[b] == s[b'];
    }
  }
}
