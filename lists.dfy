/**
 * Python list operations used by the file-path panel: `index`, `insert`,
 * `pop` and `remove`, over immutable sequences. The classes that own the
 * lists reassign their field with these results.
 */
module Lists {

  predicate Distinct<T(==)>(s: seq<T>) {
    forall i, j | 0 <= i < j < |s| :: s[i] != s[j]
  }

  /** Appending a new element to a list without repeats leaves it without repeats. */
  lemma DistinctAppend<T>(s: seq<T>, x: T)
    requires Distinct(s) && x !in s
    ensures Distinct(s + [x])
  {
    var r := s + [x];
    forall i, j | 0 <= i < j < |r| ensures r[i] != r[j] {
      if j == |s| {
        assert r[i] == s[i];
      }
    }
  }

  /** `s.index(x)`: the position of the first occurrence of x. */
  function IndexOf<T(==)>(s: seq<T>, x: T): (k: nat)
    requires x in s
    ensures k < |s| && s[k] == x
    ensures forall j | 0 <= j < k :: s[j] != x
  {
    if s[0] == x then 0 else 1 + IndexOf(s[1..], x)
  }

  /** `s.insert(i, x)` for a position inside the list or just past its end. */
  function Insert<T>(s: seq<T>, i: nat, x: T): (r: seq<T>)
    requires i <= |s|
    ensures |r| == |s| + 1 && r[i] == x
    ensures forall k | 0 <= k < i :: r[k] == s[k]
    ensures forall k | i < k < |r| :: r[k] == s[k - 1]
  {
    s[..i] + [x] + s[i..]
  }

  /** The list left by `s.pop(i)`. */
  function Pop<T>(s: seq<T>, i: nat): (r: seq<T>)
    requires i < |s|
    ensures |r| == |s| - 1
    ensures forall k | 0 <= k < i :: r[k] == s[k]
    ensures forall k | i <= k < |r| :: r[k] == s[k + 1]
  {
    s[..i] + s[i + 1..]
  }

  /** The list left by `s.remove(x)`: the first occurrence of x is dropped. */
  function RemoveFirst<T(==)>(s: seq<T>, x: T): (r: seq<T>)
    requires x in s
  {
    Pop(s, IndexOf(s, x))
  }

  /** Sequence concatenation is associative; stated once so that callers need not re-derive it. */
  lemma ConcatAssociative<T>(a: seq<T>, b: seq<T>, c: seq<T>)
    ensures (a + b) + c == a + (b + c)
  {
  }

  /** Inserting before a position and popping the element pushed one place right replaces that position. */
  lemma InsertThenPopReplaces<T>(s: seq<T>, i: nat, x: T)
    requires i < |s|
    ensures Pop(Insert(s, i, x), i + 1) == s[i := x]
  {
    var r := Pop(Insert(s, i, x), i + 1);
    assert forall k | 0 <= k < |s| :: r[k] == s[i := x][k];
  }

  /**
   * The four steps of a drag-and-drop reorder, `insert(i, drag)`, `pop(i + 1)`,
   * `insert(j, drop)`, `pop(j + 1)` with i the drop position and j the drag
   * position, exchange the two positions.
   */
  lemma {:induction false} ReorderSwaps<T>(s: seq<T>, i: nat, j: nat)
    requires i < |s| && j < |s|
    ensures Pop(Insert(Pop(Insert(s, i, s[j]), i + 1), j, s[i]), j + 1) == s[i := s[j]][j := s[i]]
  {
    InsertThenPopReplaces(s, i, s[j]);
    InsertThenPopReplaces(s[i := s[j]], j, s[i]);
  }

  /** A swap keeps the length and every other position, and is a permutation. */
  lemma SwapFacts<T>(s: seq<T>, i: nat, j: nat)
    requires i < |s| && j < |s|
    ensures var r := s[i := s[j]][j := s[i]];
      && |r| == |s| && r[i] == s[j] && r[j] == s[i]
      && (forall k | 0 <= k < |s| && k != i && k != j :: r[k] == s[k])
      && multiset(r) == multiset(s)
      && (i == j ==> r == s)
  {
    SwapPermutes(s, i, j);
  }

  lemma SwapPermutes<T>(s: seq<T>, i: nat, j: nat)
    requires i < |s| && j < |s|
    ensures multiset(s[i := s[j]][j := s[i]]) == multiset(s)
  {
    var t := s[i := s[j]];
    assert multiset(t) == multiset(s) - multiset{s[i]} + multiset{s[j]};
    assert t[j] == s[j];
    assert multiset(t[j := s[i]]) == multiset(t) - multiset{s[j]} + multiset{s[i]};
  }

  /** Swapping two positions of a list without repeats leaves it without repeats. */
  lemma SwapKeepsDistinct<T>(s: seq<T>, i: nat, j: nat)
    requires i < |s| && j < |s| && Distinct(s)
    ensures Distinct(s[i := s[j]][j := s[i]])
  {
    var r := s[i := s[j]][j := s[i]];
    forall a, b | 0 <= a < b < |r| ensures r[a] != r[b] {
      var a' := if a == i then j else if a == j then i else a;
      var b' := if b == i then j else if b == j then i else b;
      assert r[a] == s[a'] && r[b] == s[b'] && a' != b';
    }
  }

  /** In a list without repeats, `remove(x)` takes out x and nothing else, keeping the order. */
  lemma RemoveFirstFacts<T>(s: seq<T>, x: T)
    requires x in s && Distinct(s)
    ensures RemoveFirst(s, x) == s[..IndexOf(s, x)] + s[IndexOf(s, x) + 1..]
    ensures var r := RemoveFirst(s, x);
      && |r| == |s| - 1
      && x !in r
      && Distinct(r)
      && (forall y :: y in r <==> y in s && y != x)
  {
    var k := IndexOf(s, x);
    var r := RemoveFirst(s, x);
    assert r == s[..k] + s[k + 1..];
    forall a, b | 0 <= a < b < |r| ensures r[a] != r[b] {
      var a' := if a < k then a else a + 1;
      var b' := if b < k then b else b + 1;
      assert r[a] == s[a'] && r[b] == s[b'];
    }
    forall y ensures y in r <==> y in s && y != x {
      if y in r {
        var m :| 0 <= m < |r| && r[m] == y;
        assert s[if m < k then m else m + 1] == y;
      }
      if y in s && y != x {
        var m :| 0 <= m < |s| && s[m] == y;
        assert r[if m < k then m else m - 1] == y;
      }
    }
  }
}
