/** Numbering the rows of each partition from zero, in the order of one column:
    ROW_NUMBER() OVER (PARTITION BY ... ORDER BY ...) - 1. */
module RuleOrder {
  // Partition and position of a row.
  datatype Key = Key(part: int, order: int)

  predicate Before(keys: seq<Key>, j: nat, i: nat)
    requires j < |keys| && i < |keys|
  {
    keys[j].part == keys[i].part &&
    (keys[j].order < keys[i].order || (keys[j].order == keys[i].order && j < i))
  }

  // Rows of the partition of row i that come before it.
  function Earlier(keys: seq<Key>, i: nat): (s: set<nat>)
    requires i < |keys|
  {
    set j: nat | j < |keys| && Before(keys, j, i)
  }

  function Partition(keys: seq<Key>, part: int): (s: set<nat>) {
    set j: nat | j < |keys| && keys[j].part == part
  }

  function Number(keys: seq<Key>, i: nat): (n: nat)
    requires i < |keys|
  {
    |Earlier(keys, i)|
  }

  lemma SubsetSize(a: set<nat>, b: set<nat>, x: nat)
    requires a <= b && x in b && x !in a
    ensures |a| < |b|
  {
    assert |a| <= |b - {x}| by { SmallerSet(a, b - {x}); }
  }

  lemma {:induction false} SmallerSet(a: set<nat>, b: set<nat>)
    requires a <= b
    ensures |a| <= |b|
    decreases |a|
  {
    if a != {} {
      var x :| x in a;
      SmallerSet(a - {x}, b - {x});
    }
  }

  // Numbers follow the order of the rows.
  lemma NumberGrows(keys: seq<Key>, j: nat, i: nat)
    requires j < |keys| && i < |keys| && Before(keys, j, i)
    ensures Number(keys, j) < Number(keys, i)
  {
    SubsetSize(Earlier(keys, j), Earlier(keys, i), j);
  }

  lemma NumberBound(keys: seq<Key>, i: nat)
    requires i < |keys|
    ensures Number(keys, i) < |Partition(keys, keys[i].part)|
  {
    SubsetSize(Earlier(keys, i), Partition(keys, keys[i].part), i);
  }

  function Numbers(keys: seq<Key>, s: set<nat>): set<nat>
    requires forall i :: i in s ==> i < |keys|
  {
    set i | i in s :: Number(keys, i)
  }

  // Different rows of a partition get different numbers.
  lemma {:induction false} NumbersCount(keys: seq<Key>, part: int, s: set<nat>)
    requires s <= Partition(keys, part)
    ensures |Numbers(keys, s)| == |s|
    decreases |s|
  {
    hide Number, Before;
    if s != {} {
      var x :| x in s;
      var rest := s - {x};
      NumbersCount(keys, part, rest);
      forall i | i in rest ensures Number(keys, i) != Number(keys, x) {
        NumbersDiffer(keys, i, x);
      }
      assert Number(keys, x) !in Numbers(keys, rest);
      assert Numbers(keys, s) == Numbers(keys, rest) + {Number(keys, x)};
    }
  }

  lemma NumbersDiffer(keys: seq<Key>, i: nat, j: nat)
    requires i < |keys| && j < |keys| && i != j && keys[i].part == keys[j].part
    ensures Number(keys, i) != Number(keys, j)
  {
    hide Number;
    if Before(keys, i, j) { NumberGrows(keys, i, j); } else { NumberGrows(keys, j, i); }
  }

  function Below(n: nat): (s: set<nat>)
    ensures |s| == n && forall k :: k in s <==> 0 <= k < n
  {
    if n == 0 then {} else Below(n - 1) + {n - 1}
  }

  lemma SameSizeSubset(a: set<nat>, b: set<nat>)
    requires a <= b && |a| == |b|
    ensures a == b
  {
    forall x | x in b ensures x in a {
      if x !in a { SubsetSize(a, b, x); }
    }
  }

  /** The numbers of a partition are exactly 0 to n - 1, each once. */
  lemma NumbersAreConsecutive(keys: seq<Key>, part: int)
    ensures Numbers(keys, Partition(keys, part)) == Below(|Partition(keys, part)|)
  {
    var s := Partition(keys, part);
    NumbersCount(keys, part, s);
    forall i | i in s ensures Number(keys, i) < |s| { NumberBound(keys, i); }
    SameSizeSubset(Numbers(keys, s), Below(|s|));
  }

  // The positions the rows of a partition have.
  ghost function Orders(keys: seq<Key>, part: int): set<int> {
    set i | i in Partition(keys, part) :: keys[i].order
  }

  /** Rows keep their partition and their order, and each partition's positions
      are 0 to n - 1. */
  ghost predicate Closed(was: seq<Key>, now: seq<Key>) {
    && |now| == |was|
    && (forall i :: 0 <= i < |was| ==> now[i].part == was[i].part)
    && (forall part :: Orders(now, part) == Below(|Partition(now, part)|))
    && (forall i: nat, j: nat :: i < |was| && j < |was| && Before(was, i, j) ==> now[i].order < now[j].order)
  }

  /** Numbering the rows closes the gaps. */
  lemma NumberingCloses(was: seq<Key>, now: seq<Key>)
    requires |now| == |was|
    requires forall i :: 0 <= i < |was| ==> now[i] == Key(was[i].part, Number(was, i))
    ensures Closed(was, now)
  {
    hide Number, Before, Below;
    forall part ensures Orders(now, part) == Below(|Partition(now, part)|) {
      assert Partition(now, part) == Partition(was, part);
      NumbersAreConsecutive(was, part);
      assert Orders(now, part) == Numbers(was, Partition(was, part));
    }
    forall i: nat, j: nat | i < |was| && j < |was| && Before(was, i, j) ensures now[i].order < now[j].order {
      NumberGrows(was, i, j);
    }
  }

  /** Counts the earlier rows of the partition, one by one. */
  method CountEarlier(keys: seq<Key>, i: nat) returns (n: nat)
    requires i < |keys|
    ensures n == Number(keys, i)
  {
    n := 0;
    ghost var seen: set<nat> := {};
    for j := 0 to |keys|
      invariant seen == set k: nat | k < j && Before(keys, k, i)
      invariant n == |seen|
    {
      if Before(keys, j, i) {
        n := n + 1;
        seen := seen + {j};
      }
    }
    assert seen == Earlier(keys, i);
  }
}
