/** The binary min-heap of the network program: a 1-indexed array whose
    slot 0 serves as a sentinel for the upward pass of `offer`, ordered by
    the elements' `compareTo`. */
module MinHeaps {
  import opened Lang

  /** `a <= b` under `compare`: `b` does not compare below `a`. */
  predicate Le<T>(compare: (T, T) -> int, a: T, b: T)
  {
    compare(b, a) >= 0
  }

  /** `compare(a, b) < 0` makes `a <= b`. */
  predicate Below<T>(compare: (T, T) -> int, a: T, b: T)
  {
    compare(a, b) < 0 ==> Le(compare, a, b)
  }

  /** `a <= b <= c` makes `a <= c`. */
  predicate Chain<T>(compare: (T, T) -> int, a: T, b: T, c: T)
  {
    Le(compare, a, b) && Le(compare, b, c) ==> Le(compare, a, c)
  }

  /** What the heap relies on from `compareTo`: an element that compares below
      another is `<=` it (so nothing compares below itself), and `<=` is
      transitive. */
  ghost predicate IsOrder<T(!new)>(compare: (T, T) -> int)
  {
    (forall a, b :: Below(compare, a, b)) &&
    (forall a, b, c :: Chain(compare, a, b, c))
  }

  lemma {:induction false} LeOfBelow<T(!new)>(compare: (T, T) -> int, a: T, b: T)
    requires IsOrder(compare) && compare(a, b) < 0
    ensures Le(compare, a, b)
  {
    assert Below(compare, a, b);
  }

  lemma {:induction false} LeTrans<T(!new)>(compare: (T, T) -> int, a: T, b: T, c: T)
    requires IsOrder(compare) && Le(compare, a, b) && Le(compare, b, c)
    ensures Le(compare, a, c)
  {
    assert Chain(compare, a, b, c);
  }

  /** The edges from slot `p` to its children within `1..n` are in order,
      except an edge into slot `h`. */
  ghost predicate EdgesOk<T>(compare: (T, T) -> int, s: seq<T>, n: int, h: int, p: int)
    requires 1 <= p <= n < |s|
  {
    (2 * p <= n && 2 * p != h ==> Le(compare, s[p], s[2 * p])) &&
    (2 * p + 1 <= n && 2 * p + 1 != h ==> Le(compare, s[p], s[2 * p + 1]))
  }

  /** Heap order over the slots `1..n`, except for the edges at slot `h`. */
  ghost predicate OrderedBut<T>(compare: (T, T) -> int, s: seq<T>, n: int, h: int)
    requires 0 <= n < |s|
  {
    forall p | 1 <= p <= n && p != h :: EdgesOk(compare, s, n, h, p)
  }

  /** Heap order over the slots `1..n`: every parent is `<=` its children. */
  ghost predicate Ordered<T>(compare: (T, T) -> int, s: seq<T>, n: int)
  {
    0 <= n < |s| && OrderedBut(compare, s, n, 0)
  }

  /** The elements in slots `1..n`. */
  ghost function Elems<T>(s: seq<T>, n: int): multiset<T>
    requires 0 <= n < |s|
  {
    if n == 0 then multiset{} else Elems(s, n - 1) + multiset{s[n]}
  }

  lemma {:induction false} ElemsSlice<T>(s: seq<T>, n: int)
    requires 0 <= n < |s|
    ensures Elems(s, n) == multiset(s[1..n + 1])
  {
    if n > 0 {
      ElemsSlice(s, n - 1);
      assert s[1..n + 1] == s[1..n] + [s[n]];
    }
  }

  /** The state inside the upward pass of `offer`: slots `1..n` are in heap
      order except around the hole `h`, into which `x` will go; the children
      of the hole are `>= x` and `>=` the hole's parent. */
  ghost predicate UpHole<T>(compare: (T, T) -> int, s: seq<T>, n: int, h: int, x: T)
  {
    1 <= h <= n < |s| && OrderedBut(compare, s, n, h) &&
    (2 * h <= n ==> Le(compare, x, s[2 * h]) && (h >= 2 ==> Le(compare, s[h / 2], s[2 * h]))) &&
    (2 * h + 1 <= n ==> Le(compare, x, s[2 * h + 1]) && (h >= 2 ==> Le(compare, s[h / 2], s[2 * h + 1])))
  }

  /** The state inside `percolateDown`: slots `1..n` are in heap order except
      around the hole `h`, out of which `x` sinks; `x` and the hole's children
      are `>=` the hole's parent. */
  ghost predicate DownHole<T>(compare: (T, T) -> int, s: seq<T>, n: int, h: int, x: T)
  {
    1 <= h < |s| && 0 <= n < |s| && OrderedBut(compare, s, n, h) &&
    (2 <= h <= n ==> Le(compare, s[h / 2], x)) &&
    (h >= 2 && 2 * h <= n ==> Le(compare, s[h / 2], s[2 * h])) &&
    (h >= 2 && 2 * h + 1 <= n ==> Le(compare, s[h / 2], s[2 * h + 1]))
  }

  /** The child `percolateDown` moves up: the right one when it exists and
      compares below the left one. */
  function MinChild<T>(compare: (T, T) -> int, s: seq<T>, n: int, h: int): (c: int)
    requires 1 <= h && 2 * h <= n < |s|
    ensures c == 2 * h || c == 2 * h + 1
    ensures 2 * h <= c <= n
  {
    if 2 * h != n && compare(s[2 * h + 1], s[2 * h]) < 0 then 2 * h + 1 else 2 * h
  }

  lemma {:induction false} ElemsSet<T>(s: seq<T>, n: int, h: int, v: T)
    requires 1 <= h <= n < |s|
    ensures s[h] in Elems(s, n)
    ensures Elems(s[h := v], n) == Elems(s, n) - multiset{s[h]} + multiset{v}
  {
    ElemsSlice(s, n);
    ElemsSlice(s[h := v], n);
    assert s[1..n + 1][h - 1] == s[h];
    assert s[h := v][1..n + 1] == s[1..n + 1][h - 1 := v];
  }

  /** Moving the content of slot `c` into the hole `h` and making `c` the
      hole keeps the elements once the held-aside `x` is counted in the hole. */
  lemma {:induction false} ElemsRaise<T>(s: seq<T>, n: int, h: int, c: int, x: T)
    requires 1 <= h <= n && 1 <= c <= n && h != c && n < |s|
    ensures Elems(s[h := s[c]][c := x], n) == Elems(s[h := x], n)
  {
    ElemsSet(s, n, h, s[c]);
    ElemsSet(s[h := s[c]], n, c, x);
    ElemsSet(s, n, h, x);
  }

  /** Slots `0..n` copied into another sequence keep their order and elements. */
  lemma {:induction false} Copied<T>(compare: (T, T) -> int, s: seq<T>, t: seq<T>, n: int)
    requires Ordered(compare, s, n) && n < |t| && s[..n + 1] == t[..n + 1]
    ensures Ordered(compare, t, n) && Elems(t, n) == Elems(s, n)
  {
    ElemsSlice(s, n);
    ElemsSlice(t, n);
    forall p | 1 <= p <= n
      ensures EdgesOk(compare, t, n, 0, p)
    {
      assert EdgesOk(compare, s, n, 0, p);
      assert s[p] == s[..n + 1][p] && t[p] == t[..n + 1][p];
      if 2 * p <= n {
        assert s[2 * p] == s[..n + 1][2 * p] && t[2 * p] == t[..n + 1][2 * p];
      }
      if 2 * p + 1 <= n {
        assert s[2 * p + 1] == s[..n + 1][2 * p + 1] && t[2 * p + 1] == t[..n + 1][2 * p + 1];
      }
    }
    assert s[1..n + 1] == s[..n + 1][1..] && t[1..n + 1] == t[..n + 1][1..];
  }

  /** The sentinel write of `offer` and `x` counted in the new last slot. */
  lemma {:induction false} ElemsGrow<T>(s: seq<T>, n: int, x: T)
    requires 1 <= n < |s|
    ensures Elems(s[0 := x][n := x], n) == Elems(s, n - 1) + multiset{x}
  {
    ElemsSlice(s, n - 1);
    ElemsSlice(s[0 := x][n := x], n);
    assert s[0 := x][n := x][1..n + 1] == s[1..n] + [x];
  }

  /** The last element moved into the root of `poll`. */
  lemma {:induction false} ElemsShrink<T>(s: seq<T>, n: int)
    requires 1 <= n < |s|
    ensures Elems(s[1 := s[n]], n - 1) + multiset{s[1]} == Elems(s, n)
  {
    ElemsSlice(s, n);
    ElemsSlice(s[1 := s[n]], n - 1);
    if n >= 2 {
      assert s[1..n + 1] == [s[1]] + s[2..n] + [s[n]];
      assert s[1 := s[n]][1..n] == [s[n]] + s[2..n];
    } else {
      assert s[1..n + 1] == [s[1]];
    }
  }

  /** In a heap, the root is `<=` every element. */
  lemma {:induction false} RootMin<T(!new)>(compare: (T, T) -> int, s: seq<T>, n: int, i: int)
    requires IsOrder(compare) && Ordered(compare, s, n) && 1 <= i <= n
    ensures Le(compare, s[1], s[i])
    decreases i
  {
    if i >= 2 {
      var p := i / 2;
      RootMin(compare, s, n, p);
      assert EdgesOk(compare, s, n, 0, p);
      assert i == 2 * p || i == 2 * p + 1;
      LeTrans(compare, s[1], s[p], s[i]);
    } else {
      assert Below(compare, s[1], s[1]);
    }
  }

  lemma {:induction false} RootIsMinimum<T(!new)>(compare: (T, T) -> int, s: seq<T>, n: int)
    requires IsOrder(compare) && Ordered(compare, s, n) && 1 <= n
    ensures s[1] in Elems(s, n)
    ensures forall x | x in Elems(s, n) :: Le(compare, s[1], x)
  {
    ElemsSlice(s, n);
    forall x | x in Elems(s, n)
      ensures Le(compare, s[1], x)
    {
      var k :| 0 <= k < |s[1..n + 1]| && s[1..n + 1][k] == x;
      assert s[k + 1] == x;
      RootMin(compare, s, n, k + 1);
    }
    assert s[1] == s[1..n + 1][0];
  }

  /** Start of `offer`'s upward pass: the new last slot `n` is the hole, and
      the sentinel slot 0 holds the item. */
  lemma {:induction false} UpStart<T>(compare: (T, T) -> int, s: seq<T>, n: int, x: T)
    requires 1 <= n < |s| && Ordered(compare, s, n - 1)
    ensures UpHole(compare, s[0 := x], n, n, x)
  {
    var s' := s[0 := x];
    var m := n - 1;
    forall p | 1 <= p <= n && p != n
      ensures EdgesOk(compare, s', n, n, p)
    {
      assert EdgesOk(compare, s, m, 0, p);
    }
  }

  /** One step of the upward pass: the parent moves down into the hole. */
  lemma {:induction false} UpStep<T(!new)>(compare: (T, T) -> int, s: seq<T>, n: int, h: int, x: T)
    requires IsOrder(compare) && UpHole(compare, s, n, h, x) && h >= 2 && compare(x, s[h / 2]) < 0
    ensures UpHole(compare, s[h := s[h / 2]], n, h / 2, x)
  {
    var p := h / 2;
    var g := if h == 2 * p then 2 * p + 1 else 2 * p;
    var s' := s[h := s[p]];
    LeOfBelow(compare, x, s[p]);
    if g <= n {
      assert EdgesOk(compare, s, n, h, p);
      LeTrans(compare, x, s[p], s[g]);
    }
    if p >= 2 {
      var pp := p / 2;
      assert EdgesOk(compare, s, n, h, pp);
      assert p == 2 * pp || p == 2 * pp + 1;
      if g <= n {
        LeTrans(compare, s[pp], s[p], s[g]);
      }
    }
    forall q | 1 <= q <= n && q != p
      ensures EdgesOk(compare, s', n, p, q)
    {
      if q != h {
        assert EdgesOk(compare, s, n, h, q);
      }
    }
  }

  /** End of the upward pass: the item fits the hole. */
  lemma {:induction false} UpDone<T>(compare: (T, T) -> int, s: seq<T>, n: int, h: int, x: T)
    requires UpHole(compare, s, n, h, x) && (h >= 2 ==> Le(compare, s[h / 2], x))
    ensures Ordered(compare, s[h := x], n)
  {
    var s' := s[h := x];
    forall q | 1 <= q <= n
      ensures EdgesOk(compare, s', n, 0, q)
    {
      if q != h {
        assert EdgesOk(compare, s, n, h, q);
      }
    }
  }

  /** Start of `poll`'s downward pass: the last element goes to the root,
      which becomes the hole. */
  lemma {:induction false} DownStart<T>(compare: (T, T) -> int, s: seq<T>, n: int)
    requires 1 <= n && Ordered(compare, s, n)
    ensures DownHole(compare, s[1 := s[n]], n - 1, 1, s[n])
  {
    var s' := s[1 := s[n]];
    var m := n - 1;
    forall q | 2 <= q <= m
      ensures EdgesOk(compare, s', m, 1, q)
    {
      assert EdgesOk(compare, s, n, 0, q);
    }
  }

  /** One step of the downward pass: the smaller child moves up into the hole. */
  lemma {:induction false} DownStep<T(!new)>(compare: (T, T) -> int, s: seq<T>, n: int, h: int, x: T)
    requires IsOrder(compare) && DownHole(compare, s, n, h, x) && 2 * h <= n
    requires compare(s[MinChild(compare, s, n, h)], x) < 0
    ensures DownHole(compare, s[h := s[MinChild(compare, s, n, h)]], n, MinChild(compare, s, n, h), x)
  {
    var c := MinChild(compare, s, n, h);
    var s' := s[h := s[c]];
    LeOfBelow(compare, s[c], x);
    if c == 2 * h + 1 {
      LeOfBelow(compare, s[c], s[2 * h]);
    }
    assert c / 2 == h;
    forall q | 1 <= q <= n && q != c
      ensures EdgesOk(compare, s', n, c, q)
    {
      if q != h {
        assert EdgesOk(compare, s, n, h, q);
      }
    }
    if 2 * c <= n {
      assert EdgesOk(compare, s, n, h, c);
    }
  }

  /** End of the downward pass: the sinking element fits the hole, either
      because the hole has no child or because it is `<=` the smaller one. */
  lemma {:induction false} DownDone<T(!new)>(compare: (T, T) -> int, s: seq<T>, n: int, h: int, x: T)
    requires IsOrder(compare) && DownHole(compare, s, n, h, x)
    requires 2 * h > n || compare(s[MinChild(compare, s, n, h)], x) >= 0
    ensures Ordered(compare, s[h := x], n)
  {
    var s' := s[h := x];
    if 2 * h <= n {
      var c := MinChild(compare, s, n, h);
      var g := if c == 2 * h then 2 * h + 1 else 2 * h;
      if g <= n {
        if c == 2 * h + 1 {
          LeOfBelow(compare, s[c], s[g]);
        }
        LeTrans(compare, x, s[c], s[g]);
      }
    }
    forall q | 1 <= q <= n
      ensures EdgesOk(compare, s', n, 0, q)
    {
      if q != h {
        assert EdgesOk(compare, s, n, h, q);
      }
    }
  }

  /** The upward pass of `offer` on slots `1..n`: `x` is held aside and the
      hole is at `h`; while `x` compares below the hole's parent, the parent
      moves down into the hole; finally `x` fills the hole. */
  function Rise<T>(compare: (T, T) -> int, s: seq<T>, n: int, h: int, x: T): (r: seq<T>)
    requires 1 <= h <= n < |s|
    ensures |r| == |s|
    decreases h
  {
    if h >= 2 && compare(x, s[h / 2]) < 0 then Rise(compare, s[h := s[h / 2]], n, h / 2, x)
    else s[h := x]
  }

  /** The downward pass of `percolateDown` on slots `1..n`: `x` is held aside
      and the hole is at `h`; while the hole has a child and the smaller child
      compares below `x`, that child moves up into the hole; finally `x` fills
      the hole. */
  function Sink<T>(compare: (T, T) -> int, s: seq<T>, n: int, h: int, x: T): (r: seq<T>)
    requires 1 <= h < |s| && 0 <= n < |s|
    ensures |r| == |s|
    decreases n - h
  {
    if 2 * h <= n && compare(s[MinChild(compare, s, n, h)], x) < 0 then
      Sink(compare, s[h := s[MinChild(compare, s, n, h)]], n, MinChild(compare, s, n, h), x)
    else s[h := x]
  }

  /** The upward pass restores heap order. */
  lemma {:induction false} RiseOrdered<T(!new)>(compare: (T, T) -> int, s: seq<T>, n: int, h: int, x: T)
    requires IsOrder(compare) && UpHole(compare, s, n, h, x)
    ensures Ordered(compare, Rise(compare, s, n, h, x), n)
    decreases h
  {
    if h >= 2 && compare(x, s[h / 2]) < 0 {
      UpStep(compare, s, n, h, x);
      RiseOrdered(compare, s[h := s[h / 2]], n, h / 2, x);
    } else {
      UpDone(compare, s, n, h, x);
    }
  }

  /** The upward pass keeps the elements, counting `x` in the hole. */
  lemma {:induction false} RiseElems<T>(compare: (T, T) -> int, s: seq<T>, n: int, h: int, x: T)
    requires 1 <= h <= n < |s|
    ensures Elems(Rise(compare, s, n, h, x), n) == Elems(s[h := x], n)
    decreases h
  {
    if h >= 2 && compare(x, s[h / 2]) < 0 {
      ElemsRaise(s, n, h, h / 2, x);
      RiseElems(compare, s[h := s[h / 2]], n, h / 2, x);
    }
  }

  /** The downward pass restores heap order. */
  lemma {:induction false} SinkOrdered<T(!new)>(compare: (T, T) -> int, s: seq<T>, n: int, h: int, x: T)
    requires IsOrder(compare) && DownHole(compare, s, n, h, x)
    ensures Ordered(compare, Sink(compare, s, n, h, x), n)
    decreases n - h
  {
    if 2 * h <= n && compare(s[MinChild(compare, s, n, h)], x) < 0 {
      DownStep(compare, s, n, h, x);
      SinkOrdered(compare, s[h := s[MinChild(compare, s, n, h)]], n, MinChild(compare, s, n, h), x);
    } else {
      DownDone(compare, s, n, h, x);
    }
  }

  /** The downward pass keeps the elements, counting `x` in the hole. */
  lemma {:induction false} SinkElems<T>(compare: (T, T) -> int, s: seq<T>, n: int, h: int, x: T)
    requires 1 <= h < |s| && 0 <= n < |s|
    ensures Elems(Sink(compare, s, n, h, x), n) == Elems(s[h := x], n)
    decreases n - h
  {
    if 2 * h <= n && compare(s[MinChild(compare, s, n, h)], x) < 0 {
      var c := MinChild(compare, s, n, h);
      ElemsRaise(s, n, h, c, x);
      SinkElems(compare, s[h := s[c]], n, c, x);
    }
  }

  /** What `offer` does to slots holding a heap of `n - 1` elements: the
      result is a heap of `n` elements, those before and `x`. */
  lemma {:induction false} OfferKeepsHeap<T(!new)>(compare: (T, T) -> int, s: seq<T>, m: int, x: T)
    requires IsOrder(compare) && 0 <= m && m + 1 < |s| && Ordered(compare, s, m)
    ensures Ordered(compare, Rise(compare, s[0 := x], m + 1, m + 1, x), m + 1)
    ensures Elems(Rise(compare, s[0 := x], m + 1, m + 1, x), m + 1) == Elems(s, m) + multiset{x}
  {
    UpStart(compare, s, m + 1, x);
    RiseOrdered(compare, s[0 := x], m + 1, m + 1, x);
    ElemsGrow(s, m + 1, x);
    RiseElems(compare, s[0 := x], m + 1, m + 1, x);
  }

  /** What `poll` does to the order of slots holding a heap of `n`
      elements: the root is a least element, and the last element moved into
      the root and sunk leaves a heap of `n - 1`. */
  lemma {:induction false} PollOrdered<T(!new)>(compare: (T, T) -> int, s: seq<T>, n: int)
    requires IsOrder(compare) && 1 <= n < |s| && Ordered(compare, s, n)
    ensures s[1] in Elems(s, n) && forall x | x in Elems(s, n) :: Le(compare, s[1], x)
    ensures Ordered(compare, Sink(compare, s[1 := s[n]], n - 1, 1, s[n]), n - 1)
  {
    RootIsMinimum(compare, s, n);
    DownStart(compare, s, n);
    SinkOrdered(compare, s[1 := s[n]], n - 1, 1, s[n]);
  }

  /** What `poll` does to the elements: all but the root remain. */
  lemma {:induction false} PollElems<T>(compare: (T, T) -> int, s: seq<T>, n: int)
    requires 1 <= n < |s|
    ensures Elems(Sink(compare, s[1 := s[n]], n - 1, 1, s[n]), n - 1) == Elems(s, n) - multiset{s[1]}
  {
    SinkElems(compare, s[1 := s[n]], n - 1, 1, s[n]);
    assert s[1 := s[n]][1 := s[n]] == s[1 := s[n]];
    ElemsShrink(s, n);
  }

  class MinHeap<T(0,!new)> {
    var heap: array<T>
    var size: int
    /** The elements' `compareTo`. */
    const compare: (T, T) -> int

    ghost predicate Valid()
      reads this, heap
    {
      IsOrder(compare) && Ordered(compare, heap[..], size)
    }

    /** The elements of the heap. */
    ghost function Elements(): multiset<T>
      reads this, heap
    {
      if 0 <= size < heap.Length then Elems(heap[..], size) else multiset{}
    }

    /** `MinHeap()`: an empty heap over eleven slots. */
    constructor(compare: (T, T) -> int)
      requires IsOrder(compare)
      ensures Valid() && Elements() == multiset{} && size == 0 && heap.Length == 11
      ensures this.compare == compare
    {
      this.compare := compare;
      heap := new T[11];
      size := 0;
    }

    /** `isEmpty()`. */
    predicate IsEmpty()
      requires Valid()
      reads this, heap
      ensures IsEmpty() <==> Elements() == multiset{}
    {
      size == 0
    }

    /** `resize()`: copy the slots into an array twice as long. */
    method Resize()
      requires Valid()
      modifies this
      ensures Valid() && fresh(heap) && size == old(size)
      ensures heap.Length == 2 * old(heap.Length) && heap[..old(heap.Length)] == old(heap[..])
      ensures Elements() == old(Elements())
    {
      ghost var s := heap[..];
      var newHeap := new T[heap.Length * 2];
      forall i | 0 <= i < heap.Length {
        newHeap[i] := heap[i];
      }
      assert newHeap[..][..heap.Length] == s;
      Copied(compare, s, newHeap[..], size);
      heap := newHeap;
    }

    /** `offer(item)`: grow the array when only the sentinel slot is left
        over, then let `item` rise from the new last slot. */
    method Offer(item: T)
      requires Valid()
      modifies this, heap
      ensures Valid() && size == old(size) + 1 && size < heap.Length
      ensures Elements() == old(Elements()) + multiset{item}
    {
      if size == heap.Length - 1 {
        Resize();
      }
      ghost var s0 := heap[..];
      ghost var m := size;
      assert Elements() == Elems(s0, m) == old(Elements());
      size := size + 1;
      PercolateUp(item);
      OfferKeepsHeap(compare, s0, m, item);
    }

    /** The upward pass of `offer`: `item` goes into the sentinel slot 0 and
        the hole starts at the last slot; while `item` compares below the
        hole's parent, the parent moves down into the hole. */
    method PercolateUp(item: T)
      requires IsOrder(compare) && 1 <= size < heap.Length
      modifies heap
      ensures heap[..] == Rise(compare, old(heap[..])[0 := item], size, size, item)
    {
      var a := heap;
      var hole := size;
      ghost var s0 := a[..];
      a[0] := item;
      assert a[..] == s0[0 := item];
      ghost var target := Rise(compare, s0[0 := item], size, size, item);
      assert Below(compare, item, item);
      while compare(item, a[hole / 2]) < 0
        invariant 1 <= hole <= size && a[0] == item && compare(item, item) >= 0
        invariant Rise(compare, a[..], size, hole, item) == target
        decreases hole
      {
        ghost var s := a[..];
        a[hole] := a[hole / 2];
        assert a[..] == s[hole := s[hole / 2]];
        hole := hole / 2;
      }
      ghost var s1 := a[..];
      a[hole] := item;
      assert a[..] == s1[hole := item];
    }

    /** `poll()`: `None` on an empty heap; otherwise take the root, move the
        last element into it and let it sink. */
    method Poll() returns (r: Option<T>)
      requires Valid()
      modifies this, heap
      ensures Valid() && heap == old(heap)
      ensures r == None <==> old(size) == 0
      ensures r == None ==> size == 0 && heap[..] == old(heap[..])
      ensures r.Some? ==> r.value in old(Elements()) && forall x | x in old(Elements()) :: Le(compare, r.value, x)
      ensures r.Some? ==> Elements() == old(Elements()) - multiset{r.value} && size == old(size) - 1
    {
      if IsEmpty() {
        return None;
      }
      var minItem := heap[1];
      ghost var s := heap[..];
      ghost var n := size;
      assert Elements() == Elems(s, n);
      PollOrdered(compare, s, n);
      PollElems(compare, s, n);
      heap[1] := heap[size];
      assert heap[..] == s[1 := s[n]];
      size := size - 1;
      PercolateDown(1);
      assert Elements() == Elems(heap[..], n - 1);
      return Some(minItem);
    }

    /** `percolateDown(hole)`: let the element in the hole sink, each step
        moving the smaller child up while it compares below that element. */
    method PercolateDown(hole: int)
      requires 0 <= size < heap.Length && 1 <= hole < heap.Length
      modifies heap
      ensures heap[..] == Sink(compare, old(heap[..]), size, hole, old(heap[hole]))
    {
      var hole := hole;
      var a := heap;
      var tmp := a[hole];
      ghost var target := Sink(compare, a[..], size, hole, tmp);
      while hole * 2 <= size
        invariant 1 <= hole < a.Length
        invariant Sink(compare, a[..], size, hole, tmp) == target
        decreases size - hole
      {
        var child := hole * 2;
        if child != size && compare(a[child + 1], a[child]) < 0 {
          child := child + 1;
        }
        ghost var s := a[..];
        assert child == MinChild(compare, s, size, hole);
        if compare(a[child], tmp) < 0 {
          a[hole] := a[child];
          assert a[..] == s[hole := s[child]];
        } else {
          break;
        }
        hole := child;
      }
      ghost var s1 := a[..];
      a[hole] := tmp;
      assert a[..] == s1[hole := tmp];
    }
  }
}
