/** The latency order of the auto selector, and stable sorting by it. */
module LatencyOrder {
  // Measured first, then untested, then failed.
  function Rank(latency: int): nat {
    if latency > 0 then 0 else if latency == 0 then 1 else 2
  }

  predicate ByLatency(left: int, right: int) {
    var l, r := Rank(left), Rank(right);
    if l != r then l < r
    else if l == 0 then left < right
    else false
  }

  // Latencies that rank the same.
  predicate Tied(a: int, b: int) { !ByLatency(a, b) && !ByLatency(b, a) }

  /** The comparison is a strict weak order, as sorting demands. */
  lemma StrictWeakOrder(a: int, b: int, c: int)
    ensures !ByLatency(a, a)
    ensures ByLatency(a, b) ==> !ByLatency(b, a)
    ensures ByLatency(a, b) && ByLatency(b, c) ==> ByLatency(a, c)
    ensures Tied(a, b) && Tied(b, c) ==> Tied(a, c)
    ensures ByLatency(a, b) ==> ByLatency(a, c) || ByLatency(c, b)
  {
  }

  type Latencies = map<int, int>

  function Of(m: Latencies, id: int): int { if id in m then m[id] else 0 }

  // Inserts behind everything that does not rank later.
  function Insert(s: seq<int>, id: int, m: Latencies): seq<int> {
    if s == [] then [id]
    else if ByLatency(Of(m, id), Of(m, s[|s| - 1])) then Insert(s[..|s| - 1], id, m) + [s[|s| - 1]]
    else s + [id]
  }

  function StableSort(ids: seq<int>, m: Latencies): seq<int> {
    if ids == [] then [] else Insert(StableSort(ids[..|ids| - 1], m), ids[|ids| - 1], m)
  }

  predicate Sorted(s: seq<int>, m: Latencies) {
    forall i, j :: 0 <= i < j < |s| ==> !ByLatency(Of(m, s[j]), Of(m, s[i]))
  }

  // The members tied with a latency, in order.
  function TiedWith(s: seq<int>, m: Latencies, latency: int): seq<int> {
    if s == [] then []
    else TiedWith(s[..|s| - 1], m, latency) + if Tied(Of(m, s[|s| - 1]), latency) then [s[|s| - 1]] else []
  }

  /** Nothing lost, nothing invented, and ties in their old order. */
  ghost predicate Stable(before: seq<int>, after: seq<int>, m: Latencies) {
    forall latency :: TiedWith(after, m, latency) == TiedWith(before, m, latency)
  }

  lemma {:induction false} InsertPermutes(s: seq<int>, id: int, m: Latencies)
    ensures multiset(Insert(s, id, m)) == multiset(s) + multiset{id}
  {
    if s != [] {
      InsertPermutes(s[..|s| - 1], id, m);
      assert s == s[..|s| - 1] + [s[|s| - 1]];
    }
  }

  lemma InsertMembers(s: seq<int>, id: int, m: Latencies, i: nat)
    requires i < |Insert(s, id, m)|
    ensures Insert(s, id, m)[i] == id || Insert(s, id, m)[i] in s
  {
    InsertPermutes(s, id, m);
    assert Insert(s, id, m)[i] in multiset(Insert(s, id, m));
  }

  lemma {:induction false} InsertSorts(s: seq<int>, id: int, m: Latencies)
    requires Sorted(s, m)
    ensures Sorted(Insert(s, id, m), m)
  {
    hide ByLatency;
    if s != [] {
      var init, last := s[..|s| - 1], s[|s| - 1];
      if ByLatency(Of(m, id), Of(m, last)) {
        InsertSorts(init, id, m);
        forall i | 0 <= i < |Insert(init, id, m)| ensures !ByLatency(Of(m, last), Of(m, Insert(init, id, m)[i])) {
          InsertMembers(init, id, m, i);
          StrictWeakOrder(Of(m, id), Of(m, last), 0);
        }
      } else {
        forall i | 0 <= i < |s| ensures !ByLatency(Of(m, id), Of(m, s[i])) {
          StrictWeakOrder(Of(m, id), Of(m, s[i]), Of(m, last));
        }
      }
    }
  }

  lemma TiedAppend(s: seq<int>, id: int, m: Latencies, latency: int)
    ensures TiedWith(s + [id], m, latency) == TiedWith(s, m, latency) + if Tied(Of(m, id), latency) then [id] else []
  {
    assert (s + [id])[..|s|] == s;
  }

  lemma {:induction false} InsertKeepsTies(s: seq<int>, id: int, m: Latencies, latency: int)
    ensures TiedWith(Insert(s, id, m), m, latency) == TiedWith(s + [id], m, latency)
  {
    TiedAppend(s, id, m, latency);
    if s != [] && ByLatency(Of(m, id), Of(m, s[|s| - 1])) {
      var init, last := s[..|s| - 1], s[|s| - 1];
      InsertKeepsTies(init, id, m, latency);
      TiedAppend(Insert(init, id, m), last, m, latency);
      TiedAppend(init, id, m, latency);
      assert !(Tied(Of(m, id), latency) && Tied(Of(m, last), latency)) by {
        StrictWeakOrder(Of(m, id), latency, Of(m, last));
      }
    }
  }

  lemma {:induction false} StableSortIsStable(ids: seq<int>, m: Latencies)
    ensures Sorted(StableSort(ids, m), m) && Stable(ids, StableSort(ids, m), m)
    ensures multiset(StableSort(ids, m)) == multiset(ids)
  {
    if ids != [] {
      var init, last := ids[..|ids| - 1], ids[|ids| - 1];
      assert ids == init + [last];
      StableSortIsStable(init, m);
      var t := StableSort(init, m);
      InsertSorts(t, last, m);
      InsertPermutes(t, last, m);
      forall latency ensures TiedWith(StableSort(ids, m), m, latency) == TiedWith(ids, m, latency) {
        InsertKeepsTies(t, last, m, latency);
        TiedAppend(t, last, m, latency);
        TiedAppend(init, last, m, latency);
        assert TiedWith(t, m, latency) == TiedWith(init, m, latency);
      }
    }
  }

  /** There is only one stable way to sort, so the algorithm does not matter. */
  lemma {:induction false} StableSortUnique(a: seq<int>, b: seq<int>, m: Latencies)
    requires Sorted(a, m) && Sorted(b, m) && Stable(a, b, m)
    ensures a == b
    decreases |a|
  {
    if a == [] {
      if b != [] { LastTied(b, m); }
    } else {
      LastTied(a, m);
      var la := Of(m, a[|a| - 1]);
      assert TiedWith(b, m, la) == TiedWith(a, m, la);
      assert b != [];
      LastTied(b, m);
      var lb := Of(m, b[|b| - 1]);
      assert TiedWith(b, m, lb) == TiedWith(a, m, lb);
      TiedMember(a, m, lb);
      TiedMember(b, m, la);
      TiedAppendAll(a, b, m);
      StableSortUnique(a[..|a| - 1], b[..|b| - 1], m);
    }
  }

  lemma LastTied(s: seq<int>, m: Latencies)
    requires s != []
    ensures var t := TiedWith(s, m, Of(m, s[|s| - 1])); t != [] && t[|t| - 1] == s[|s| - 1]
  {
  }

  // Something in a sorted list ties with the latency, so the last does not rank before it.
  lemma {:induction false} TiedMember(s: seq<int>, m: Latencies, latency: int)
    requires Sorted(s, m) && TiedWith(s, m, latency) != []
    ensures s != [] && !ByLatency(Of(m, s[|s| - 1]), latency)
  {
    var last := s[|s| - 1];
    if !Tied(Of(m, last), latency) {
      var init := s[..|s| - 1];
      TiedMember(init, m, latency);
      StrictWeakOrder(Of(m, last), latency, Of(m, init[|init| - 1]));
    }
  }

  lemma TiedAppendAll(a: seq<int>, b: seq<int>, m: Latencies)
    requires a != [] && b != [] && Stable(a, b, m) && Tied(Of(m, a[|a| - 1]), Of(m, b[|b| - 1]))
    ensures a[|a| - 1] == b[|b| - 1]
    ensures Stable(a[..|a| - 1], b[..|b| - 1], m)
  {
    var x, y := a[|a| - 1], b[|b| - 1];
    var i, j := a[..|a| - 1], b[..|b| - 1];
    assert a == i + [x] && b == j + [y];
    forall latency ensures TiedWith(j, m, latency) == TiedWith(i, m, latency) && (Tied(Of(m, x), latency) ==> x == y) {
      assert TiedWith(b, m, latency) == TiedWith(a, m, latency);
      TiedAppend(i, x, m, latency);
      TiedAppend(j, y, m, latency);
      StrictWeakOrder(Of(m, x), Of(m, y), latency);
      StrictWeakOrder(Of(m, y), Of(m, x), latency);
      var p, q := TiedWith(i, m, latency), TiedWith(j, m, latency);
      if Tied(Of(m, x), latency) {
        assert p + [x] == q + [y];
        assert (p + [x])[..|p|] == p && (q + [y])[..|q|] == q;
      } else {
        assert p == p + [] && q == q + [];
      }
    }
    assert Tied(Of(m, x), Of(m, x));
  }
}
