/** The advisory tick queue: a binary heap of elements that know their own position. */
module Attq {

  class Conn {
    var attqElem: Elem?
    constructor ()
      ensures attqElem == null
    {
      attqElem := null;
    }
  }

  class Elem {
    const conn: Conn
    const advTime: nat
    var heapIdx: nat

    constructor (c: Conn, t: nat, i: nat)
      ensures conn == c && advTime == t && heapIdx == i
    {
      conn, advTime, heapIdx := c, t, i;
    }
  }

  function Parent(i: nat): (p: nat)
    requires i > 0
    ensures p < i
  {
    (i - 1) / 2
  }

  // ---------------------------------------------------------------- heap order

  ghost predicate InOrder(es: seq<Elem>, i: nat)
    requires i < |es|
  {
    i > 0 ==> es[Parent(i)].advTime <= es[i].advTime
  }

  /** A min-heap. */
  ghost predicate Heap(es: seq<Elem>) {
    forall i :: 0 <= i < |es| ==> InOrder(es, i)
  }

  /** A child of `i` is not below the parent of `i`. */
  ghost predicate Spans(es: seq<Elem>, i: nat)
    requires i < |es|
  {
    forall j :: 0 < j < |es| && Parent(j) == i && i > 0 ==> es[Parent(i)].advTime <= es[j].advTime
  }

  /** A heap but for position `i`, which may be smaller than its parent. */
  ghost predicate HeapButUp(es: seq<Elem>, i: nat)
    requires i < |es|
  {
    (forall j :: 0 <= j < |es| && j != i ==> InOrder(es, j)) && Spans(es, i)
  }

  /** A heap but for position `i`, which may be larger than its children. */
  ghost predicate HeapButDown(es: seq<Elem>, i: nat)
    requires i < |es|
  {
    (forall j :: 0 < j < |es| && Parent(j) != i ==> InOrder(es, j)) && Spans(es, i)
  }

  function Swapped(es: seq<Elem>, a: nat, b: nat): (r: seq<Elem>)
    requires a < |es| && b < |es|
    ensures |r| == |es|
  {
    es[a := es[b]][b := es[a]]
  }

  lemma SiftUpStep(es: seq<Elem>, i: nat)
    requires 0 < i < |es| && HeapButUp(es, i) && es[i].advTime <= es[Parent(i)].advTime
    ensures HeapButUp(Swapped(es, i, Parent(i)), Parent(i))
  {
    var p := Parent(i);
    var r := Swapped(es, i, p);
    forall j | 0 <= j < |r| && j != p ensures InOrder(r, j) {
      assert j != i ==> InOrder(es, j);
    }
    if p > 0 {
      assert InOrder(es, p);
      forall j | 0 < j < |r| && Parent(j) == p ensures r[Parent(p)].advTime <= r[j].advTime {
        assert j != i ==> InOrder(es, j);
      }
    }
  }

  lemma HeapButUpIsHeap(es: seq<Elem>, i: nat)
    requires i < |es| && HeapButUp(es, i) && InOrder(es, i)
    ensures Heap(es)
  {
  }

  lemma HeapInOrder(es: seq<Elem>, i: nat)
    requires Heap(es) && i < |es|
    ensures InOrder(es, i)
  {
  }

  lemma OneIsHeap(es: seq<Elem>)
    ensures |es| == 1 ==> Heap(es)
  {
  }

  lemma PushedIsHeapBut(es: seq<Elem>, e: Elem)
    requires Heap(es)
    ensures HeapButUp(es + [e], |es|)
  {
    forall j | 0 <= j < |es| ensures InOrder(es + [e], j) {
      assert InOrder(es, j);
    }
  }

  /** The child of `i` that `attq_heapify` swaps it with, or `i` itself. */
  function Smallest(es: seq<Elem>, i: nat): (s: nat)
    requires i < |es|
    ensures s < |es| && (s != i ==> s > i && Parent(s) == i)
  {
    if 2 * i + 1 < |es| then
      var s := if es[2 * i + 1].advTime < es[i].advTime then 2 * i + 1 else i;
      if 2 * i + 2 < |es| && es[2 * i + 2].advTime < es[s].advTime then 2 * i + 2 else s
    else i
  }

  lemma SmallestIsMin(es: seq<Elem>, i: nat)
    requires i < |es|
    ensures forall j :: 0 < j < |es| && Parent(j) == i ==> es[Smallest(es, i)].advTime <= es[j].advTime
    ensures es[Smallest(es, i)].advTime <= es[i].advTime
  {
    forall j | 0 < j < |es| && Parent(j) == i ensures j == 2 * i + 1 || j == 2 * i + 2 {
    }
  }

  lemma SiftDownStep(es: seq<Elem>, i: nat)
    requires i < |es| && HeapButDown(es, i)
    ensures var s := Smallest(es, i);
            if s == i then Heap(es) else HeapButDown(Swapped(es, s, i), s)
  {
    var s := Smallest(es, i);
    SmallestIsMin(es, i);
    if s == i {
      forall j | 0 <= j < |es| ensures InOrder(es, j) {
      }
    } else {
      var r := Swapped(es, s, i);
      forall j | 0 < j < |r| && Parent(j) != s ensures InOrder(r, j) {
        assert Parent(j) != i ==> InOrder(es, j);
      }
      forall j | 0 < j < |r| && Parent(j) == s ensures r[Parent(s)].advTime <= r[j].advTime {
        assert InOrder(es, j);
      }
    }
  }

  /** The root of a heap is a minimum. */
  lemma {:induction false} RootIsMin(es: seq<Elem>, i: nat)
    requires Heap(es) && i < |es|
    ensures es[0].advTime <= es[i].advTime
    decreases i
  {
    if i > 0 {
      assert InOrder(es, i);
      RootIsMin(es, Parent(i));
    }
  }

  /** What is left when the last element takes the place of the one at `i`. */
  function Removed(es: seq<Elem>, i: nat): (r: seq<Elem>)
    requires i < |es|
    ensures |r| == |es| - 1
  {
    es[i := es[|es| - 1]][..|es| - 1]
  }

  /** It is a heap, but for that place: up if the moved element is below its new parent, down if not. */
  lemma RemovedIsHeapBut(es: seq<Elem>, i: nat)
    requires Heap(es) && i < |es|
    ensures var r := Removed(es, i);
            if i == |r| || |r| == 1 then Heap(r)
            else if i > 0 && r[i].advTime < r[Parent(i)].advTime then HeapButUp(r, i)
            else HeapButDown(r, i)
  {
    var r := Removed(es, i);
    forall j | 0 < j < |r| && j != i && Parent(j) != i ensures InOrder(r, j) {
      assert InOrder(es, j);
    }
    if i < |r| {
      forall j | 0 < j < |r| && Parent(j) == i && i > 0 ensures r[Parent(i)].advTime <= r[j].advTime {
        assert InOrder(es, j) && InOrder(es, i);
      }
      if i > 0 && r[i].advTime < r[Parent(i)].advTime {
        assert InOrder(es, i);
        forall j | 0 < j < |r| && Parent(j) == i ensures InOrder(r, j) {
          assert InOrder(es, j);
        }
      }
    }
  }

  class Queue {
    var heap: array<Elem?>
    var nelem: nat
    ghost var es: seq<Elem>     // the live part of the array
    ghost var all: set<Elem>    // the elements added and not yet removed

    /** The array holds the elements of `all`, each at the position it records. */
    ghost predicate Placed()
      reads this, heap, all`heapIdx
    {
      && nelem == |es| <= heap.Length
      && (forall i :: 0 <= i < |es| ==> heap[i] == es[i])
      && (forall i :: 0 <= i < |es| ==> es[i] in all && es[i].heapIdx == i)
      && (forall e :: e in all ==> e.heapIdx < |es| && es[e.heapIdx] == e)
    }

    /** Every queued connection points back at its element. */
    ghost predicate Linked()
      reads this`all, set e <- all :: e.conn
    {
      forall e :: e in all ==> e.conn.attqElem == e
    }

    ghost predicate Valid()
      reads this, heap, all`heapIdx, set e <- all :: e.conn
    {
      Placed() && Linked() && Heap(es)
    }

    /** lsquic_attq_create. */
    constructor ()
      ensures Valid() && all == {} && fresh(heap)
    {
      heap := new Elem?[0];
      nelem := 0;
      es, all := [], {};
    }

    /** attq_swap. */
    method Swap(a: nat, b: nat)
      requires Placed() && a < nelem && b < nelem
      modifies heap, this`es, all`heapIdx
      ensures Placed() && es == Swapped(old(es), a, b)
    {
      var el := heap[a];
      heap[a] := heap[b];
      heap[b] := el;
      heap[a].heapIdx := a;
      heap[b].heapIdx := b;
      es := Swapped(es, a, b);
    }

    /** The climb in lsquic_attq_add: also past equal parents. */
    method ClimbPastEqual(start: nat)
      requires Placed() && start < nelem && HeapButUp(es, start)
      modifies heap, this`es, all`heapIdx
      ensures Placed() && Heap(es) && |es| == old(|es|)
    {
      hide HeapButUp;
      var i := start;
      while i > 0 && heap[Parent(i)].advTime >= heap[i].advTime
        invariant 0 <= i < nelem && Placed() && HeapButUp(es, i) && |es| == old(|es|)
      {
        SiftUpStep(es, i);
        Swap(i, Parent(i));
        i := Parent(i);
      }
      HeapButUpIsHeap(es, i);
    }

    /** The climb in lsquic_attq_remove: past larger parents only. */
    method ClimbPastLarger(start: nat)
      requires Placed() && start < nelem && HeapButUp(es, start)
      modifies heap, this`es, all`heapIdx
      ensures Placed() && Heap(es) && |es| == old(|es|)
    {
      hide HeapButUp;
      var i := start;
      while i > 0 && heap[i].advTime < heap[Parent(i)].advTime
        invariant 0 <= i < nelem && Placed() && HeapButUp(es, i) && |es| == old(|es|)
      {
        SiftUpStep(es, i);
        Swap(i, Parent(i));
        i := Parent(i);
      }
      HeapButUpIsHeap(es, i);
    }

    /** attq_heapify: recursive, as in the source. */
    method Heapify(i: nat)
      requires Placed() && i < nelem && HeapButDown(es, i)
      modifies heap, this`es, all`heapIdx
      ensures Placed() && Heap(es) && |es| == old(|es|)
      decreases nelem - i
    {
      hide HeapButDown;
      var smallest := i;
      if 2 * i + 1 < nelem {
        if heap[2 * i + 1].advTime < heap[i].advTime {
          smallest := 2 * i + 1;
        }
        if 2 * i + 2 < nelem && heap[2 * i + 2].advTime < heap[smallest].advTime {
          smallest := 2 * i + 2;
        }
      }
      SiftDownStep(es, i);
      if smallest != i {
        Swap(smallest, i);
        Heapify(smallest);
      }
    }

    /** The reallocation at the head of lsquic_attq_add. */
    method Reserve()
      requires Placed()
      modifies this`heap
      ensures Placed() && nelem < heap.Length && (heap == old(heap) || fresh(heap))
    {
      if nelem >= heap.Length {
        var n := if heap.Length > 0 then heap.Length * 2 else 8;
        var bigger := new Elem?[n];
        var i := 0;
        while i < nelem
          invariant heap == old(heap) && Placed()
          invariant 0 <= i <= nelem && forall k :: 0 <= k < i ==> bigger[k] == heap[k]
        {
          bigger[i] := heap[i];
          i := i + 1;
        }
        heap := bigger;
      }
    }

    /** lsquic_attq_add: the connection is not in a queue yet. */
    method Add(conn: Conn, advisoryTime: nat)
      requires Valid() && conn.attqElem == null
      modifies this, heap, all`heapIdx, conn
      ensures Valid() && (heap == old(heap) || fresh(heap))
      ensures conn.attqElem != null && fresh(conn.attqElem)
      ensures conn.attqElem.conn == conn && conn.attqElem.advTime == advisoryTime
      ensures all == old(all) + {conn.attqElem}
    {
      hide Heap, HeapButUp, Placed;
      Reserve();
      FitsIn();
      var el := new Elem(conn, advisoryTime, nelem);
      conn.attqElem := el;
      PushedIsHeapBut(es, el);
      Push(el);
      ClimbPastEqual(nelem - 1);
    }

    lemma FitsIn()
      requires Placed()
      ensures nelem == |es|
    {
    }

    /** The element takes the first free place. */
    method Push(el: Elem)
      requires Placed() && nelem < heap.Length && el !in all && el.heapIdx == nelem
      modifies heap, this`nelem, this`es, this`all
      ensures Placed() && nelem == old(nelem) + 1 && es == old(es) + [el] && all == old(all) + {el}
    {
      heap[nelem] := el;
      nelem := nelem + 1;
      es := es + [el];
      all := all + {el};
    }

    /** lsquic_attq_remove, from any position. */
    method Remove(conn: Conn)
      requires Valid() && conn.attqElem in all && conn.attqElem.conn == conn
      modifies this`nelem, this`es, this`all, heap, all`heapIdx, conn
      ensures Valid()
      ensures conn.attqElem == null && all == old(all) - {old(conn.attqElem)}
    {
      hide Heap, HeapButUp, HeapButDown;
      var el := conn.attqElem;
      var idx := el.heapIdx;
      conn.attqElem := null;
      RemovedIsHeapBut(es, idx);
      HeapInOrder(es, idx);
      TakeOut(el, idx);
      Restore(idx);
    }

    /** The last element takes the place of `el`, at `idx`. */
    method TakeOut(el: Elem, idx: nat)
      requires Placed() && el in all && el.heapIdx == idx
      modifies heap, this`nelem, this`es, this`all, all`heapIdx
      ensures Placed() && idx <= nelem && nelem == old(nelem) - 1 < heap.Length
      ensures idx < |old(es)| && es == Removed(old(es), idx) && all == old(all) - {el}
      ensures idx == nelem ==> heap[idx] == old(es)[idx]
    {
      nelem := nelem - 1;
      heap[idx] := heap[nelem];
      heap[idx].heapIdx := idx;
      es := Removed(es, idx);
      all := all - {el};
    }

    /** Up if the element at `idx` is below its parent, else down. */
    method Restore(idx: nat)
      requires Placed() && idx <= nelem < heap.Length && heap[idx] != null
      requires idx == nelem && idx > 0 ==> es[Parent(idx)].advTime <= heap[idx].advTime
      requires if idx == nelem || nelem == 1 then Heap(es)
               else if idx > 0 && es[idx].advTime < es[Parent(idx)].advTime then HeapButUp(es, idx)
               else HeapButDown(es, idx)
      modifies heap, this`es, all`heapIdx
      ensures Placed() && Heap(es)
    {
      hide Heap, HeapButUp, HeapButDown;
      var i := idx;
      if i > 0 && heap[i].advTime < heap[Parent(i)].advTime {
        OneIsHeap(es);
        ClimbPastLarger(i);
      } else if nelem > 1 && i < nelem {
        Heapify(i);
      }
    }

    /** lsquic_attq_pop: a minimum, if it is strictly below the cutoff. */
    method Pop(cutoff: nat) returns (conn: Conn?, ghost popped: Elem?)
      requires Valid()
      modifies this`nelem, this`es, this`all, heap, all`heapIdx, set e <- all :: e.conn
      ensures Valid()
      ensures conn == null <==> forall e :: e in old(all) ==> e.advTime >= cutoff
      ensures conn == null ==> all == old(all)
      ensures conn != null ==>
        && popped in old(all) && popped.conn == conn && popped.advTime < cutoff
        && (forall e :: e in old(all) ==> popped.advTime <= e.advTime)
        && all == old(all) - {popped} && conn.attqElem == null
    {
      if nelem == 0 {
        return null, null;
      }
      forall i | 0 <= i < |es| ensures es[0].advTime <= es[i].advTime {
        RootIsMin(es, i);
      }
      var el := heap[0];
      assert forall e :: e in all ==> el.advTime <= e.advTime;
      if el.advTime >= cutoff {
        return null, null;
      }
      conn, popped := el.conn, el;
      Remove(conn);
    }

    /** lsquic_attq_next. */
    method Next() returns (el: Elem?)
      requires Valid()
      ensures el == null <==> all == {}
      ensures el != null ==> el in all && forall e :: e in all ==> el.advTime <= e.advTime
    {
      if nelem > 0 {
        forall i | 0 <= i < |es| ensures es[0].advTime <= es[i].advTime {
          RootIsMin(es, i);
        }
        return heap[0];
      }
      return null;
    }

    /** The engine's loop that collects what is due: in time order, all of it, and nothing else. */
    method DrainDue(now: nat) returns (conns: seq<Conn>, ghost due: seq<Elem>)
      requires Valid()
      modifies this`nelem, this`es, this`all, heap, all`heapIdx, set e <- all :: e.conn
      ensures Valid()
      ensures |conns| == |due| && forall i :: 0 <= i < |due| ==> conns[i] == due[i].conn
      ensures forall e :: e in all <==> e in old(all) && e.advTime >= now
      ensures forall e :: e in due <==> e in old(all) && e.advTime < now
      ensures forall i, j :: 0 <= i < j < |due| ==> due[i] != due[j] && due[i].advTime <= due[j].advTime
    {
      conns, due := [], [];
      ghost var before := all;
      while true
        invariant Valid() && heap == old(heap) && all <= before
        invariant forall e :: e in before <==> e in all || e in due
        invariant forall e :: e in due ==> e !in all && e.advTime < now
        invariant forall d, e :: d in due && e in all ==> d.advTime <= e.advTime
        invariant forall i, j :: 0 <= i < j < |due| ==> due[i] != due[j] && due[i].advTime <= due[j].advTime
        invariant |conns| == |due| && forall i :: 0 <= i < |due| ==> conns[i] == due[i].conn
        decreases |all|
      {
        var conn, popped := Pop(now);
        if conn == null {
          break;
        }
        conns, due := conns + [conn], due + [popped];
      }
    }
  }
}
