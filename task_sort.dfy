/** The four orderings of the "sort by" menu: the comparators of
    `handleSort`, the sortedness they define, and an in-place sort
    standing for `Array.prototype.sort`. */
module TaskSort {
  import opened TaskTypes

  /** The rank table of the priority sort. */
  function PriorityRank(p: Priority): (r: int)
    ensures 1 <= r <= 3
    ensures p == High ==> r == 3
    ensures p == Medium ==> r == 2
    ensures p == Low ==> r == 1
  {
    match p
    case High => 3
    case Medium => 2
    case Low => 1
  }

  /** The comparator passed to `sort` for each option: negative when `a`
      belongs before `b`, positive when after, zero for a tie. "newest" puts
      the later creation first, "oldest" the earlier, "priority" the higher
      priority, and "due date" the earlier due date, with every dated task
      before every undated one and undated tasks tied. */
  function Compare(key: SortOption, a: Task, b: Task): (r: int)
    ensures key == Newest ==>
      (r < 0 <==> a.createdAt > b.createdAt) && (r == 0 <==> a.createdAt == b.createdAt)
    ensures key == Oldest ==>
      (r < 0 <==> a.createdAt < b.createdAt) && (r == 0 <==> a.createdAt == b.createdAt)
    ensures key == ByPriority ==>
      (r < 0 <==> PriorityRank(a.priority) > PriorityRank(b.priority)) && (r == 0 <==> a.priority == b.priority)
    ensures key == ByDueDate && a.dueDate.Some? && b.dueDate.None? ==> r < 0
    ensures key == ByDueDate && a.dueDate.None? && b.dueDate.Some? ==> r > 0
    ensures key == ByDueDate && a.dueDate.None? && b.dueDate.None? ==> r == 0
    ensures key == ByDueDate && a.dueDate.Some? && b.dueDate.Some? ==>
      (r < 0 <==> a.dueDate.value < b.dueDate.value) && (r == 0 <==> a.dueDate.value == b.dueDate.value)
  {
    match key
    case Newest => b.createdAt - a.createdAt
    case Oldest => a.createdAt - b.createdAt
    case ByPriority => PriorityRank(b.priority) - PriorityRank(a.priority)
    case ByDueDate =>
      if a.dueDate.None? && b.dueDate.None? then 0
      else if a.dueDate.None? then 1
      else if b.dueDate.None? then -1
      else a.dueDate.value - b.dueDate.value
  }

  /** `a` may stand before `b` in a list sorted with the comparator. */
  predicate InOrder(key: SortOption, a: Task, b: Task)
  {
    Compare(key, a, b) <= 0
  }

  /** Every pair of positions is in order. */
  ghost predicate Sorted(key: SortOption, s: seq<Task>)
  {
    forall i, j :: 0 <= i < j < |s| ==> InOrder(key, s[i], s[j])
  }

  /** Each comparator is consistent: it orders any two tasks one way or the
      other, and its ordering is transitive. */
  lemma InOrderTotal(key: SortOption, a: Task, b: Task)
    ensures InOrder(key, a, b) || InOrder(key, b, a)
  {
  }

  lemma InOrderTransitive(key: SortOption, a: Task, b: Task, c: Task)
    requires InOrder(key, a, b) && InOrder(key, b, c)
    ensures InOrder(key, a, c)
  {
  }

  /** "newest": creation times do not increase along the list. */
  lemma SortedNewest(s: seq<Task>)
    ensures Sorted(Newest, s) <==> forall i, j :: 0 <= i < j < |s| ==> s[i].createdAt >= s[j].createdAt
  {
  }

  /** "oldest": creation times do not decrease along the list. */
  lemma SortedOldest(s: seq<Task>)
    ensures Sorted(Oldest, s) <==> forall i, j :: 0 <= i < j < |s| ==> s[i].createdAt <= s[j].createdAt
  {
  }

  /** "priority": ranks do not increase along the list, so every high task
      comes before every medium one, and every medium before every low one. */
  lemma SortedPriority(s: seq<Task>)
    ensures Sorted(ByPriority, s) <==>
      forall i, j :: 0 <= i < j < |s| ==> PriorityRank(s[i].priority) >= PriorityRank(s[j].priority)
  {
  }

  /** "due date": every dated task comes before every undated one, and the
      dated tasks are in non-decreasing due-date order. */
  lemma SortedDueDate(s: seq<Task>)
    ensures Sorted(ByDueDate, s) <==>
      && (forall i, j :: 0 <= i < j < |s| && s[i].dueDate.None? ==> s[j].dueDate.None?)
      && (forall i, j :: 0 <= i < j < |s| && s[i].dueDate.Some? && s[j].dueDate.Some? ==>
            s[i].dueDate.value <= s[j].dueDate.value)
  {
    if Sorted(ByDueDate, s) {
      forall i, j | 0 <= i < j < |s| && s[i].dueDate.None? ensures s[j].dueDate.None? {
        assert InOrder(ByDueDate, s[i], s[j]);
      }
    }
  }

  /** `s` is `orig` rearranged: position `k` of `s` holds the task that stood
      at position `perm[k]` of `orig`, each original position is used once,
      and tasks the comparator ties keep their original relative order. */
  ghost predicate StableArrangement(key: SortOption, orig: seq<Task>, s: seq<Task>, perm: seq<int>)
  {
    && Arranged(orig, s, perm)
    && (forall k, l :: 0 <= k < l < |perm| && Compare(key, s[k], s[l]) == 0 ==> perm[k] < perm[l])
  }

  /** Each comparator is antisymmetric in sign: `a` after `b` means `b`
      strictly before `a`. */
  lemma CompareAntisymmetric(key: SortOption, a: Task, b: Task)
    ensures Compare(key, a, b) > 0 <==> Compare(key, b, a) < 0
  {
  }

  /** The first `i` positions of `s` are in order. */
  ghost predicate SortedPrefix(key: SortOption, s: seq<Task>, i: int)
  {
    forall k, l :: 0 <= k < l < i && l < |s| ==> InOrder(key, s[k], s[l])
  }

  /** Ties among the first `i` positions keep their original order. */
  ghost predicate StablePrefix(key: SortOption, s: seq<Task>, perm: seq<int>, i: int)
    requires |perm| == |s|
  {
    forall k, l :: 0 <= k < l < i && l < |s| && Compare(key, s[k], s[l]) == 0 ==> perm[k] < perm[l]
  }

  /** `s` is `orig` with positions rearranged by the injective `perm`. */
  ghost predicate Arranged(orig: seq<Task>, s: seq<Task>, perm: seq<int>)
  {
    && |perm| == |s| == |orig|
    && (forall k :: 0 <= k < |perm| ==> 0 <= perm[k] < |orig| && s[k] == orig[perm[k]])
    && (forall k, l :: 0 <= k < l < |perm| ==> perm[k] != perm[l])
  }

  /** Only the first `i` positions have been rearranged, among themselves. */
  ghost predicate Frontier(perm: seq<int>, i: int)
  {
    && (forall k :: 0 <= k < i && k < |perm| ==> perm[k] < i)
    && (forall k :: 0 <= k < |perm| && i <= k ==> perm[k] == k)
  }

  /** The state after `i` insertion steps. */
  ghost predicate SortState(key: SortOption, orig: seq<Task>, s: seq<Task>, perm: seq<int>, i: int)
  {
    && Arranged(orig, s, perm) && Frontier(perm, i)
    && SortedPrefix(key, s, i) && StablePrefix(key, s, perm, i)
  }

  /** Sorts `a` in place by the comparator for `key`: insertion by adjacent
      swaps, which moves a task only past tasks that belong strictly after
      it, so the sort is stable, as `Array.prototype.sort` is required to be. */
  method SortInPlace(a: array<Task>, key: SortOption)
    modifies a
    ensures Sorted(key, a[..])
    ensures multiset(a[..]) == multiset(old(a[..]))
    ensures exists perm :: StableArrangement(key, old(a[..]), a[..], perm)
  {
    ghost var orig := a[..];
    ghost var perm := seq(a.Length, k requires 0 <= k < a.Length => k);
    var i := 0;
    while i < a.Length
      invariant 0 <= i <= a.Length
      invariant SortState(key, orig, a[..], perm, i)
    {
      perm := InsertNext(a, key, i, orig, perm);
      i := i + 1;
    }
    assert StableArrangement(key, orig, a[..], perm);
    ArrangedMultiset(orig, a[..], perm);
  }

  /** A rearrangement by an injective map of positions holds the same
      tasks, each as often as before. */
  lemma {:induction false} ArrangedMultiset(orig: seq<Task>, s: seq<Task>, perm: seq<int>)
    requires Arranged(orig, s, perm)
    ensures multiset(s) == multiset(orig)
    decreases |s|
  {
    if |s| > 0 {
      var n := |s| - 1;
      var p := perm[n];
      var rest := orig[..p] + orig[p + 1..];
      var perm' := seq(n, k requires 0 <= k < n => if perm[k] < p then perm[k] else perm[k] - 1);
      forall k | 0 <= k < n
        ensures 0 <= perm'[k] < |rest| && s[k] == rest[perm'[k]]
      {
        assert perm[k] != p;
      }
      ArrangedMultiset(rest, s[..n], perm');
      assert s == s[..n] + [s[n]];
      assert orig == orig[..p] + [orig[p]] + orig[p + 1..];
    }
  }

  /** The state while `a[i]` moves left: it now stands at `j`, the first
      `i + 1` positions other than `j` are in order with ties in original
      order, and everything after `j` up to `i` belongs strictly after it. */
  ghost predicate Inserting(key: SortOption, orig: seq<Task>, s: seq<Task>, perm: seq<int>, i: int, j: int)
  {
    && 0 <= j <= i < |s|
    && Arranged(orig, s, perm)
    && (forall k, l :: 0 <= k < l <= i && k != j && l != j ==> InOrder(key, s[k], s[l]))
    && (forall l :: j < l <= i ==> Compare(key, s[j], s[l]) < 0)
    && perm[j] == i
    && (forall k :: 0 <= k <= i && k != j ==> perm[k] < i)
    && (forall k :: i < k < |perm| ==> perm[k] == k)
    && (forall k, l :: 0 <= k < l <= i && k != j && l != j && Compare(key, s[k], s[l]) == 0 ==> perm[k] < perm[l])
  }

  /** `s` with positions `j - 1` and `j` exchanged. */
  function SwapDown<T>(s: seq<T>, j: int): (r: seq<T>)
    requires 0 < j < |s|
    ensures |r| == |s| && r[j - 1] == s[j] && r[j] == s[j - 1]
    ensures forall k :: 0 <= k < |s| && k != j - 1 && k != j ==> r[k] == s[k]
  {
    s[j - 1 := s[j]][j := s[j - 1]]
  }

  lemma InsertingStart(key: SortOption, orig: seq<Task>, s: seq<Task>, perm: seq<int>, i: int)
    requires 0 <= i < |s|
    requires SortState(key, orig, s, perm, i)
    ensures Inserting(key, orig, s, perm, i, i)
  {
  }

  /** One swap keeps the insertion state, one place further left. */
  lemma InsertingStep(key: SortOption, orig: seq<Task>, s: seq<Task>, perm: seq<int>, i: int, j: int)
    requires Inserting(key, orig, s, perm, i, j)
    requires 0 < j && !InOrder(key, s[j - 1], s[j])
    ensures Inserting(key, orig, SwapDown(s, j), SwapDown(perm, j), i, j - 1)
  {
    SwapArranged(orig, s, perm, j);
    SwapKeepsOrder(key, s, perm, i, j);
    SwapMovesTask(key, s, perm, i, j);
  }

  /** The moving task stays strictly before everything it has passed, and
      keeps the largest original position among the first `i + 1`. */
  lemma SwapMovesTask(key: SortOption, s: seq<Task>, perm: seq<int>, i: int, j: int)
    requires 0 < j <= i < |s| == |perm|
    requires !InOrder(key, s[j - 1], s[j])
    requires forall l :: j < l <= i ==> Compare(key, s[j], s[l]) < 0
    requires perm[j] == i
    requires forall k :: 0 <= k <= i && k != j ==> perm[k] < i
    requires forall k :: i < k < |perm| ==> perm[k] == k
    ensures forall l :: j - 1 < l <= i ==> Compare(key, SwapDown(s, j)[j - 1], SwapDown(s, j)[l]) < 0
    ensures SwapDown(perm, j)[j - 1] == i
    ensures forall k :: 0 <= k <= i && k != j - 1 ==> SwapDown(perm, j)[k] < i
    ensures forall k :: i < k < |perm| ==> SwapDown(perm, j)[k] == k
  {
    CompareAntisymmetric(key, s[j - 1], s[j]);
  }

  /** Swapping two neighbours keeps a rearrangement a rearrangement. */
  lemma SwapArranged(orig: seq<Task>, s: seq<Task>, perm: seq<int>, j: int)
    requires Arranged(orig, s, perm) && 0 < j < |s|
    ensures Arranged(orig, SwapDown(s, j), SwapDown(perm, j))
  {
    var p := SwapDown(perm, j);
    forall k, l | 0 <= k < l < |p| ensures p[k] != p[l] {
      var k' := if k == j - 1 then j else if k == j then j - 1 else k;
      var l' := if l == j - 1 then j else if l == j then j - 1 else l;
      assert p[k] == perm[k'] && p[l] == perm[l'] && k' != l';
    }
  }

  /** Moving the task at `j` one place left keeps the other positions in
      order, ties included. */
  lemma SwapKeepsOrder(key: SortOption, s: seq<Task>, perm: seq<int>, i: int, j: int)
    requires 0 < j <= i < |s| == |perm|
    requires forall k, l :: 0 <= k < l <= i && k != j && l != j ==> InOrder(key, s[k], s[l])
    requires forall k, l :: 0 <= k < l <= i && k != j && l != j && Compare(key, s[k], s[l]) == 0 ==>
      perm[k] < perm[l]
    ensures forall k, l :: 0 <= k < l <= i && k != j - 1 && l != j - 1 ==>
      InOrder(key, SwapDown(s, j)[k], SwapDown(s, j)[l])
    ensures forall k, l ::
      (0 <= k < l <= i && k != j - 1 && l != j - 1 && Compare(key, SwapDown(s, j)[k], SwapDown(s, j)[l]) == 0) ==>
        SwapDown(perm, j)[k] < SwapDown(perm, j)[l]
  {
    var t, p := SwapDown(s, j), SwapDown(perm, j);
    forall k, l | 0 <= k < l <= i && k != j - 1 && l != j - 1
      ensures InOrder(key, t[k], t[l])
      ensures Compare(key, t[k], t[l]) == 0 ==> p[k] < p[l]
    {
      var k' := if k == j then j - 1 else k;
      var l' := if l == j then j - 1 else l;
      assert t[k] == s[k'] && t[l] == s[l'] && p[k] == perm[k'] && p[l] == perm[l'];
      assert k' < l' && k' != j && l' != j;
    }
  }

  /** When `a[i]` has stopped, the first `i + 1` positions are in order. */
  lemma InsertingDone(key: SortOption, orig: seq<Task>, s: seq<Task>, perm: seq<int>, i: int, j: int)
    requires Inserting(key, orig, s, perm, i, j)
    requires j == 0 || InOrder(key, s[j - 1], s[j])
    ensures SortState(key, orig, s, perm, i + 1)
  {
    forall k | 0 <= k < j
      ensures InOrder(key, s[k], s[j])
    {
      if k < j - 1 {
        InOrderTransitive(key, s[k], s[j - 1], s[j]);
      }
    }
  }

  /** Moves `a[i]` left past the tasks that belong strictly after it, so
      that the first `i + 1` positions are in order. */
  method InsertNext(a: array<Task>, key: SortOption, i: int, ghost orig: seq<Task>, ghost perm0: seq<int>)
    returns (ghost perm: seq<int>)
    requires 0 <= i < a.Length
    requires SortState(key, orig, a[..], perm0, i)
    modifies a
    ensures SortState(key, orig, a[..], perm, i + 1)
  {
    perm := perm0;
    ghost var cur := a[..];
    InsertingStart(key, orig, cur, perm, i);
    var j := i;
    while 0 < j && !InOrder(key, a[j - 1], a[j])
      invariant a[..] == cur
      invariant Inserting(key, orig, cur, perm, i, j)
    {
      InsertingStep(key, orig, cur, perm, i, j);
      a[j - 1], a[j] := a[j], a[j - 1];
      cur, perm := SwapDown(cur, j), SwapDown(perm, j);
      j := j - 1;
    }
    InsertingDone(key, orig, cur, perm, i, j);
  }
}
