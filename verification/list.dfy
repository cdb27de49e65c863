/** The generic singly linked list of the toolchain, as the sequence of data the
    nodes hold from head to tail. A node is named by its position; `None` plays the
    role of the NULL element pointer. `size`, `head` and `tail` are derived from the
    sequence, so "size is the length and tail is the last node" holds by
    construction. */
module LinkedList {
  import opened Wrappers

  /** The C list: the data of its nodes, the comparison callback used by sorting and
      searching (NULL when `None`), and whether a destroy callback was registered. */
  datatype List<!T> = List(items: seq<T>, compar: Option<(T, T) -> int>, hasDestroy: bool)

  const SORT_UP: int := 1
  const SORT_DOWN: int := -1

  function Size<T>(l: List<T>): nat {
    |l.items|
  }

  /** Position of the head node, if any. */
  function Head<T>(l: List<T>): (h: Option<nat>)
    ensures h.Some? <==> |l.items| > 0
    ensures h.Some? ==> h.value == 0
  {
    if |l.items| == 0 then None else Some(0)
  }

  /** Position of the tail node, if any. */
  function Tail<T>(l: List<T>): (t: Option<nat>)
    ensures t.Some? <==> |l.items| > 0
    ensures t.Some? ==> t.value + 1 == |l.items|
  {
    if |l.items| == 0 then None else Some(|l.items| - 1)
  }

  /** `list_init`: an empty list holding the callbacks. */
  function Init<T>(compar: Option<(T, T) -> int>, hasDestroy: bool): (l: List<T>)
    ensures Size(l) == 0 && Head(l).None? && Tail(l).None?
    ensures l.compar == compar && l.hasDestroy == hasDestroy
  {
    List([], compar, hasDestroy)
  }

  /** An element argument names a node of the list, or is NULL. */
  predicate IsNodeOrNull<T>(l: List<T>, element: Option<nat>) {
    element.None? || element.value < |l.items|
  }

  /** `list_ins_next`: a new node holding `d` at the head when `element` is NULL,
      otherwise right after `element`. Allocation failure is not modelled. */
  function InsNext<T>(l: List<T>, element: Option<nat>, d: T): (r: List<T>)
    requires IsNodeOrNull(l, element)
    ensures Size(r) == Size(l) + 1
    ensures element.None? ==> r.items == [d] + l.items
    ensures element.Some? ==>
      r.items == l.items[..element.value + 1] + [d] + l.items[element.value + 1..]
    ensures (element.None? && Size(l) == 0) || element == Tail(l) ==> r.items[Tail(r).value] == d
    ensures r.compar == l.compar && r.hasDestroy == l.hasDestroy
  {
    var at := if element.None? then 0 else element.value + 1;
    l.(items := l.items[..at] + [d] + l.items[at..])
  }

  /** Why a removal failed. */
  datatype RemError = EmptyList | NoNextNode

  /** `list_rem_next`: removes the head when `element` is NULL, otherwise the node
      after `element`, and hands back its data. Fails, changing nothing, on an
      empty list or when `element` is the tail. */
  function RemNext<T>(l: List<T>, element: Option<nat>): (r: Result<(List<T>, T), RemError>)
    requires IsNodeOrNull(l, element)
    ensures Size(l) == 0 ==> r == Failure(EmptyList)
    ensures Size(l) > 0 && element.Some? && element == Tail(l) ==> r == Failure(NoNextNode)
    ensures r.Success? ==>
      var at := if element.None? then 0 else element.value + 1;
      && at < |l.items|
      && r.value.1 == l.items[at]
      && r.value.0.items == l.items[..at] + l.items[at + 1..]
      && r.value.0.compar == l.compar && r.value.0.hasDestroy == l.hasDestroy
    ensures r.Success? ==> Size(r.value.0) + 1 == Size(l)
    ensures r.Success? && element.Some? && element.value + 2 == Size(l) ==> Tail(r.value.0) == element
    ensures Size(l) > 0 && (element.None? || element.value + 1 < Size(l)) ==> r.Success?
  {
    if |l.items| == 0 then Failure(EmptyList)
    else if element.Some? && element.value + 1 == |l.items| then Failure(NoNextNode)
    else
      var at := if element.None? then 0 else element.value + 1;
      Success((l.(items := l.items[..at] + l.items[at + 1..]), l.items[at]))
  }

  /** Removing the node just inserted gives back its data and the original list. */
  lemma InsertThenRemove<T>(l: List<T>, element: Option<nat>, d: T)
    requires IsNodeOrNull(l, element)
    ensures var r := RemNext(InsNext(l, element, d), element);
      r.Success? && r.value.1 == d && r.value.0.items == l.items
  {
    var at := if element.None? then 0 else element.value + 1;
    var r := InsNext(l, element, d);
    assert r.items[..at] == l.items[..at];
    assert r.items[at + 1..] == l.items[at..];
  }

  /** `list_apply_elmt`: applies `fun` to every node from head to tail when
      `element` is NULL, otherwise to that node only. A NULL `fun` is a failure.
      The callback is modelled as a function that rewrites the node's data. */
  function ApplyElmt<T>(l: List<T>, element: Option<nat>, fun: Option<T -> T>): (r: Option<List<T>>)
    requires IsNodeOrNull(l, element)
    ensures fun.None? <==> r.None?
    ensures r.Some? ==> Size(r.value) == Size(l)
    ensures r.Some? && element.None? ==>
      forall i :: 0 <= i < |l.items| ==> r.value.items[i] == fun.value(l.items[i])
    ensures r.Some? && element.Some? ==>
      forall i :: 0 <= i < |l.items| ==>
        r.value.items[i] == if i == element.value then fun.value(l.items[i]) else l.items[i]
  {
    if fun.None? then None
    else if element.None? then Some(l.(items := MapAll(l.items, fun.value)))
    else Some(l.(items := l.items[element.value := fun.value(l.items[element.value])]))
  }

  /** The head-to-tail walk of `list_apply_elmt`. */
  function MapAll<T>(s: seq<T>, f: T -> T): (r: seq<T>)
    ensures |r| == |s|
    ensures forall i :: 0 <= i < |s| ==> r[i] == f(s[i])
  {
    if |s| == 0 then [] else [f(s[0])] + MapAll(s[1..], f)
  }

  /** `list_find_from`: the position of the first node at or after `start` (the
      head when NULL) whose data compares equal to `key`. None when there is no
      such node, the list is empty or no comparison callback was registered. */
  function FindFrom<T>(l: List<T>, start: Option<nat>, key: T): (r: Option<nat>)
    requires IsNodeOrNull(l, start)
    ensures |l.items| == 0 || l.compar.None? ==> r.None?
    ensures r.Some? ==>
      var from := if start.None? then 0 else start.value;
      && from <= r.value < |l.items|
      && l.compar.value(l.items[r.value], key) == 0
      && forall k :: from <= k < r.value ==> l.compar.value(l.items[k], key) != 0
    ensures r.None? && |l.items| > 0 && l.compar.Some? ==>
      var from := if start.None? then 0 else start.value;
      forall k :: from <= k < |l.items| ==> l.compar.value(l.items[k], key) != 0
  {
    if |l.items| < 1 || l.compar.None? then None
    else FindAt(l.items, if start.None? then 0 else start.value, key, l.compar.value)
  }

  /** Linear search from position `k`. */
  function FindAt<T>(s: seq<T>, k: nat, key: T, compar: (T, T) -> int): (r: Option<nat>)
    requires k <= |s|
    ensures r.Some? ==> k <= r.value < |s| && compar(s[r.value], key) == 0
    ensures r.Some? ==> forall j :: k <= j < r.value ==> compar(s[j], key) != 0
    ensures r.None? ==> forall j :: k <= j < |s| ==> compar(s[j], key) != 0
    decreases |s| - k
  {
    if k == |s| then None
    else if compar(s[k], key) == 0 then Some(k)
    else FindAt(s, k + 1, key, compar)
  }

  // ---------------------------------------------------------------- destroy

  /** `list_destroy`: removes every node from the head, handing each removed datum
      to the destroy callback when there is one. Returns the emptied list and the
      data the callback received, in order. */
  method Destroy<T>(l: List<T>) returns (r: List<T>, destroyed: seq<T>)
    ensures Size(r) == 0
    ensures destroyed == if l.hasDestroy then l.items else []
  {
    r := l;
    destroyed := [];
    while Size(r) > 0
      invariant r.hasDestroy == l.hasDestroy
      invariant l.hasDestroy ==> destroyed + r.items == l.items
      invariant !l.hasDestroy ==> destroyed == []
      decreases Size(r)
    {
      var removed := RemNext(r, None);
      var next := removed.value.0;
      if l.hasDestroy {
        destroyed := destroyed + [removed.value.1];
      }
      r := next;
    }
  }

  // ---------------------------------------------------------------- sort

  /** `x` belongs after `y` in the requested direction: the comparison callback
      returns exactly the direction. */
  predicate Gt<T>(compar: (T, T) -> int, dir: int, x: T, y: T) {
    compar(x, y) == dir
  }

  /** The comparison callback never answers `dir` both ways, which is what bubble
      sort needs to terminate. */
  ghost predicate Asymmetric<T(!new)>(compar: (T, T) -> int, dir: int) {
    forall x, y :: compar(x, y) == dir ==> compar(y, x) != dir
  }

  /** No adjacent pair is out of order in direction `dir`. */
  predicate AdjacentSorted<T>(s: seq<T>, compar: (T, T) -> int, dir: int) {
    forall i :: 0 <= i < |s| - 1 ==> compar(s[i], s[i + 1]) != dir
  }

  /** Number of elements of `t` that `x` belongs after. */
  function CountGt<T>(compar: (T, T) -> int, dir: int, x: T, t: seq<T>): nat {
    if |t| == 0 then 0 else (if Gt(compar, dir, x, t[0]) then 1 else 0) + CountGt(compar, dir, x, t[1..])
  }

  /** Number of out-of-order pairs, the measure bubble sort decreases. */
  function Inversions<T>(compar: (T, T) -> int, dir: int, s: seq<T>): nat {
    if |s| == 0 then 0 else CountGt(compar, dir, s[0], s[1..]) + Inversions(compar, dir, s[1..])
  }

  /** `s` with the items at `i` and `i + 1` exchanged. */
  function SwapNext<T>(s: seq<T>, i: nat): (r: seq<T>)
    requires i + 1 < |s|
    ensures |r| == |s| && r[i] == s[i + 1] && r[i + 1] == s[i]
    ensures forall k :: 0 <= k < |s| && k != i && k != i + 1 ==> r[k] == s[k]
    ensures multiset(r) == multiset(s)
  {
    s[i := s[i + 1]][i + 1 := s[i]]
  }

  lemma {:induction false} CountGtSwap<T>(compar: (T, T) -> int, dir: int, x: T, t: seq<T>, i: nat)
    requires i + 1 < |t|
    ensures CountGt(compar, dir, x, SwapNext(t, i)) == CountGt(compar, dir, x, t)
    decreases |t|
  {
    var u := SwapNext(t, i);
    if i == 0 {
      assert u[2..] == t[2..];
      assert u[1..][1..] == u[2..] && t[1..][1..] == t[2..];
    } else {
      assert u[1..] == SwapNext(t[1..], i - 1);
      CountGtSwap(compar, dir, x, t[1..], i - 1);
    }
  }

  /** Exchanging an out-of-order adjacent pair removes exactly one inversion. */
  lemma {:induction false} SwapRemovesInversion<T(!new)>(compar: (T, T) -> int, dir: int, s: seq<T>, i: nat)
    requires Asymmetric(compar, dir)
    requires i + 1 < |s| && Gt(compar, dir, s[i], s[i + 1])
    ensures Inversions(compar, dir, SwapNext(s, i)) + 1 == Inversions(compar, dir, s)
    decreases |s|
  {
    var u := SwapNext(s, i);
    if i == 0 {
      var a, b, w := s[0], s[1], s[2..];
      assert s[1..] == [b] + w && u[1..] == [a] + w;
      assert ([b] + w)[1..] == w && ([a] + w)[1..] == w;
    } else {
      assert u[1..] == SwapNext(s[1..], i - 1);
      CountGtSwap(compar, dir, s[0], s[1..], i - 1);
      SwapRemovesInversion(compar, dir, s[1..], i - 1);
    }
  }

  /** One pass of `list_sort` over the data: each adjacent pair that compares as
      `dir` is exchanged. A pass that exchanges something removes inversions; a
      pass that exchanges nothing found the data sorted. */
  method BubblePass<T(!new)>(compar: (T, T) -> int, dir: int, s0: seq<T>) returns (s: seq<T>, swapped: bool)
    requires Asymmetric(compar, dir)
    ensures multiset(s) == multiset(s0) && |s| == |s0|
    ensures swapped ==> Inversions(compar, dir, s) < Inversions(compar, dir, s0)
    ensures !swapped ==> s == s0 && AdjacentSorted(s, compar, dir)
  {
    s, swapped := s0, false;
    if |s| < 2 {
      return;
    }
    var i := 1;
    while i < |s|
      invariant 1 <= i <= |s|
      invariant multiset(s) == multiset(s0) && |s| == |s0|
      invariant swapped ==> Inversions(compar, dir, s) < Inversions(compar, dir, s0)
      invariant !swapped ==> s == s0
      invariant !swapped ==> forall k :: 0 <= k < i - 1 ==> compar(s[k], s[k + 1]) != dir
    {
      if compar(s[i - 1], s[i]) == dir {
        SwapRemovesInversion(compar, dir, s, i - 1);
        s := SwapNext(s, i - 1);
        swapped := true;
      } else if !swapped {
        assert forall k :: 0 <= k < i ==> compar(s[k], s[k + 1]) != dir;
      }
      i := i + 1;
    }
  }

  /** `list_sort`: bubble sort of the data, swapping data between adjacent nodes
      until a whole pass swaps nothing. Returns -1 and leaves the list alone when
      it has fewer than two nodes, no comparison callback, or `dir` is neither
      `SORT_UP` nor `SORT_DOWN`; otherwise returns 0 with the same data, no
      adjacent pair of which compares as `dir`. */
  method Sort<T(!new)>(l: List<T>, dir: int) returns (status: int, r: List<T>)
    requires l.compar.Some? && (dir == SORT_UP || dir == SORT_DOWN) ==> Asymmetric(l.compar.value, dir)
    ensures status == -1 <==> Size(l) < 2 || l.compar.None? || (dir != SORT_UP && dir != SORT_DOWN)
    ensures status == -1 ==> r == l
    ensures status == 0 ==> r.compar == l.compar && r.hasDestroy == l.hasDestroy
    ensures status == 0 ==> multiset(r.items) == multiset(l.items) && |r.items| == |l.items|
    ensures status == 0 ==> AdjacentSorted(r.items, l.compar.value, dir)
  {
    if Size(l) < 2 || l.compar.None? {
      return -1, l;
    }
    if dir != SORT_UP && dir != SORT_DOWN {
      return -1, l;
    }
    var compar := l.compar.value;
    var s := l.items;
    var swapped := true;
    while swapped
      invariant multiset(s) == multiset(l.items) && |s| == |l.items|
      invariant !swapped ==> AdjacentSorted(s, compar, dir)
      decreases Inversions(compar, dir, s) + (if swapped then 1 else 0)
    {
      s, swapped := BubblePass(compar, dir, s);
    }
    status, r := 0, l.(items := s);
  }
}
