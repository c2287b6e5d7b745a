/** The indexed min-heap of fsm/min_heap.h: items carry their own position, so that any
    of them can be erased. */
module MinHeap {
  /** min_heap_item_t. `timer` stands for the callback and its argument. */
  class Item {
    var index: int
    const timeout: int
    const timer: nat

    constructor (timeout: int, timer: nat)
      ensures this.timeout == timeout && this.timer == timer && index == -1
    {
      this.timeout, this.timer, index := timeout, timer, -1;
    }
  }

  function Parent(i: nat): (r: nat)
    requires i > 0
    ensures r < i
  {
    (i - 1) / 2
  }

  lemma Children(i: nat, parent: nat)
    requires i > 0
    ensures Parent(i) == parent <==> i == 2 * parent + 1 || i == 2 * parent + 2
    ensures Parent(i) < i
  {
  }

  lemma SmallestChild(q: seq<Item?>, n: nat, hole: nat, minChild: nat)
    requires n <= |q| && minChild < n && (minChild == 2 * hole + 1 || minChild == 2 * hole + 2)
    requires forall i :: 0 <= i < n && i != hole ==> q[i] != null
    requires if 2 * hole + 2 < n
             then q[minChild].timeout <= q[2 * hole + 1].timeout && q[minChild].timeout <= q[2 * hole + 2].timeout
             else minChild == 2 * hole + 1
    ensures forall i :: 0 < i < n && Parent(i) == hole ==> q[minChild].timeout <= q[i].timeout
  {
    hide Parent;
    forall i | 0 < i < n && Parent(i) == hole ensures q[minChild].timeout <= q[i].timeout { Children(i, hole); }
  }

  /** The smaller child, moved up into the hole, is in order with what is around it. */
  lemma DownOrder(q: seq<Item?>, q': seq<Item?>, n: nat, hole: nat, minChild: nat)
    requires n <= |q| == |q'| && hole < n && minChild < n && (minChild == 2 * hole + 1 || minChild == 2 * hole + 2)
    requires forall i :: 0 <= i < n && i != hole ==> q[i] != null
    requires forall i :: 0 <= i < n && i != minChild ==> q'[i] == if i == hole then q[minChild] else q[i]
    requires forall i :: 0 < i < n && i != hole && Parent(i) != hole ==> q[Parent(i)].timeout <= q[i].timeout
    requires forall i :: 0 < i < n && Parent(i) == hole && hole > 0 ==> q[Parent(hole)].timeout <= q[i].timeout
    requires forall i :: 0 < i < n && Parent(i) == hole ==> q[minChild].timeout <= q[i].timeout
    ensures forall i :: 0 < i < n && i != minChild && Parent(i) != minChild ==> q'[Parent(i)].timeout <= q'[i].timeout
    ensures forall i :: 0 < i < n && Parent(i) == minChild ==> q'[hole].timeout <= q'[i].timeout
  {
    hide Parent;
    Children(minChild, hole);
    forall i | 0 < i < n && i != minChild && Parent(i) != minChild ensures q'[Parent(i)].timeout <= q'[i].timeout {
      Children(i, hole);
      Children(i, Parent(i));
    }
    forall i | 0 < i < n && Parent(i) == minChild ensures q'[hole].timeout <= q'[i].timeout {
      Children(i, hole);
      Children(i, minChild);
    }
  }

  class Heap {
    var p: array<Item?>
    var n: nat
    ghost var items: set<Item>

    ghost predicate Valid()
      reads this, p, items
    {
      && n <= p.Length
      && (forall i :: 0 <= i < n ==> p[i] != null && p[i] in items && p[i].index == i)
      && (forall x :: x in items ==> 0 <= x.index < n && p[x.index] == x)
      && (forall i :: 0 < i < n ==> p[Parent(i)].timeout <= p[i].timeout)
    }

    /** All slots below `n` but `hole` are filled as they should be, and `e` is the item
        that is to go into the hole. */
    ghost predicate Holed(hole: nat, e: Item)
      reads this, p, items
    {
      && hole < n <= p.Length && e in items
      && (forall i :: 0 <= i < n && i != hole ==> p[i] != null && p[i] in items && p[i] != e && p[i].index == i)
      && (forall x :: x in items && x != e ==> 0 <= x.index < n && x.index != hole && p[x.index] == x)
    }

    /** Heap order on the filled slots, and across the hole. */
    ghost predicate OrderedAround(hole: nat, e: Item)
      reads this, p, items
      requires Holed(hole, e)
    {
      && (forall i :: 0 < i < n && i != hole && Parent(i) != hole ==> p[Parent(i)].timeout <= p[i].timeout)
      && (forall i :: 0 < i < n && Parent(i) == hole && hole > 0 ==> p[Parent(hole)].timeout <= p[i].timeout)
    }

    constructor ()
      ensures Valid() && items == {} && n == 0 && fresh(p)
    {
      p := new Item?[0];
      n := 0;
      items := {};
    }

    /** Move an item into the hole; the hole is then where the item was. */
    method Move(from: nat, hole: nat, ghost e: Item)
      requires Holed(hole, e) && from < n && from != hole
      modifies p, items`index
      ensures Holed(from, e) && p[hole] == old(p[from])
      ensures forall i :: 0 <= i < n && i != hole ==> p[i] == old(p[i])
    {
      p[hole] := p[from];
      p[hole].index := hole;
    }

    method Fill(hole: nat, e: Item)
      requires Holed(hole, e) && OrderedAround(hole, e)
      requires hole > 0 ==> p[Parent(hole)].timeout <= e.timeout
      requires forall i :: 0 < i < n && Parent(i) == hole ==> e.timeout <= p[i].timeout
      modifies p, items`index
      ensures Valid()
    {
      p[hole] := e;
      e.index := hole;
    }

    /** min_heap_shift_up_ (fsm/min_heap.h:146-156). */
    method ShiftUp(hole0: nat, e: Item)
      requires Holed(hole0, e) && OrderedAround(hole0, e)
      requires forall i :: 0 < i < n && Parent(i) == hole0 ==> e.timeout <= p[i].timeout
      modifies p, items`index
      ensures Valid()
    {
      var hole := hole0;
      while hole > 0 && p[Parent(hole)].timeout > e.timeout
        invariant Holed(hole, e) && OrderedAround(hole, e)
        invariant forall i :: 0 < i < n && Parent(i) == hole ==> e.timeout <= p[i].timeout
      {
        hole := UpStep(hole, e);
      }
      Fill(hole, e);
    }

    method UpStep(hole: nat, e: Item) returns (parent: nat)
      requires Holed(hole, e) && OrderedAround(hole, e) && hole > 0 && p[Parent(hole)].timeout > e.timeout
      requires forall i :: 0 < i < n && Parent(i) == hole ==> e.timeout <= p[i].timeout
      modifies p, items`index
      ensures parent == Parent(hole) && Holed(parent, e) && OrderedAround(parent, e)
      ensures forall i :: 0 < i < n && Parent(i) == parent ==> e.timeout <= p[i].timeout
    {
      parent := Parent(hole);
      Move(parent, hole, e);
    }

    /** min_heap_shift_down_ (fsm/min_heap.h:158-171). */
    method ShiftDown(hole0: nat, e: Item)
      requires Holed(hole0, e) && OrderedAround(hole0, e)
      requires hole0 > 0 ==> p[Parent(hole0)].timeout <= e.timeout
      modifies p, items`index
      ensures Valid()
    {
      hide OrderedAround;
      var hole := hole0;
      var done := false;
      while 2 * (hole + 1) <= n && !done
        invariant Holed(hole, e) && OrderedAround(hole, e)
        invariant hole > 0 ==> p[Parent(hole)].timeout <= e.timeout
        invariant done ==> forall i :: 0 < i < n && Parent(i) == hole ==> e.timeout <= p[i].timeout
        decreases n - hole, !done
      {
        done, hole := DownRound(hole, e);
      }
      Fill(hole, e);
    }

    /** One round of the loop: the smaller child moves up, unless the item may stay. */
    method DownRound(hole0: nat, e: Item) returns (done: bool, hole: nat)
      requires Holed(hole0, e) && OrderedAround(hole0, e) && 2 * (hole0 + 1) <= n
      requires hole0 > 0 ==> p[Parent(hole0)].timeout <= e.timeout
      modifies p, items`index
      ensures Holed(hole, e) && OrderedAround(hole, e) && (if done then hole == hole0 else hole > hole0)
      ensures hole > 0 ==> p[Parent(hole)].timeout <= e.timeout
      ensures done ==> forall i :: 0 < i < n && Parent(i) == hole ==> e.timeout <= p[i].timeout
    {
      hide OrderedAround;
      hole := hole0;
      var minChild := 2 * (hole + 1);
      if minChild == n || p[minChild].timeout > p[minChild - 1].timeout { minChild := minChild - 1; }
      if !(e.timeout > p[minChild].timeout) {
        NoLargerChild(hole, minChild, e);
        return true, hole;
      }
      DownStep(hole, minChild, e);
      done, hole := false, minChild;
    }

    lemma NoLargerChild(hole: nat, minChild: nat, e: Item)
      requires Holed(hole, e) && minChild < n && (minChild == 2 * hole + 1 || minChild == 2 * hole + 2)
      requires 2 * hole + 2 < n ==> p[minChild].timeout <= p[2 * hole + 1].timeout && p[minChild].timeout <= p[2 * hole + 2].timeout
      requires 2 * hole + 2 >= n ==> minChild == 2 * hole + 1
      requires e.timeout <= p[minChild].timeout
      ensures forall i :: 0 < i < n && Parent(i) == hole ==> e.timeout <= p[i].timeout
    {
      forall i | 0 < i < n && Parent(i) == hole ensures e.timeout <= p[i].timeout {
        assert i == 2 * hole + 1 || i == 2 * hole + 2;
      }
    }

    method DownStep(hole: nat, minChild: nat, e: Item)
      requires Holed(hole, e) && OrderedAround(hole, e)
      requires hole > 0 ==> p[Parent(hole)].timeout <= e.timeout
      requires minChild < n && (minChild == 2 * hole + 1 || minChild == 2 * hole + 2)
      requires 2 * hole + 2 < n ==> p[minChild].timeout <= p[2 * hole + 1].timeout && p[minChild].timeout <= p[2 * hole + 2].timeout
      requires 2 * hole + 2 >= n ==> minChild == 2 * hole + 1
      requires e.timeout > p[minChild].timeout
      modifies p, items`index
      ensures Holed(minChild, e) && OrderedAround(minChild, e) && p[Parent(minChild)].timeout <= e.timeout
    {
      hide OrderedAround, Parent;
      Children(minChild, hole);
      ghost var q := p[..];
      OrderOf(hole, e);
      SmallestChild(q, n, hole, minChild);
      Move(minChild, hole, e);
      DownOrder(q, p[..], n, hole, minChild);
      OrderIs(minChild, e);
    }

    lemma OrderOf(hole: nat, e: Item)
      requires Holed(hole, e) && OrderedAround(hole, e)
      ensures n <= |p[..]| && forall i :: 0 <= i < n && i != hole ==> p[..][i] != null
      ensures forall i :: 0 < i < n && i != hole && Parent(i) != hole ==> p[..][Parent(i)].timeout <= p[..][i].timeout
      ensures forall i :: 0 < i < n && Parent(i) == hole && hole > 0 ==> p[..][Parent(hole)].timeout <= p[..][i].timeout
    {
      hide Parent;
    }

    lemma OrderIs(hole: nat, e: Item)
      requires Holed(hole, e) && hole > 0
      requires forall i :: 0 < i < n && i != hole && Parent(i) != hole ==> p[..][Parent(i)].timeout <= p[..][i].timeout
      requires forall i :: 0 < i < n && Parent(i) == hole ==> p[..][Parent(hole)].timeout <= p[..][i].timeout
      ensures OrderedAround(hole, e)
    {
      hide Parent;
    }

    // -------------------------------------------------------------- the operations

    /** min_heap_reserve (fsm/min_heap.h:128-144); the allocation always succeeds. */
    method Reserve(size: nat)
      requires Valid()
      modifies this`p
      ensures Valid() && size <= p.Length && (p == old(p) || fresh(p))
    {
      if p.Length < size {
        var a := if p.Length > 0 then p.Length * 2 else 8;
        if a < size { a := size; }
        var q := new Item?[a](_ => null);
        forall i | 0 <= i < n { q[i] := p[i]; }
        p := q;
      }
    }

    /** One more slot, to be filled by `e`. */
    method Append(e: Item)
      requires Valid() && e !in items && n < p.Length
      modifies this`items, this`n
      ensures items == old(items) + {e} && n == old(n) + 1
      ensures Holed(n - 1, e) && OrderedAround(n - 1, e)
      ensures forall i :: 0 < i < n ==> Parent(i) != n - 1
    {
      items := items + {e};
      n := n + 1;
    }

    /** min_heap_push. */
    method Push(e: Item)
      requires Valid() && e !in items
      modifies this, p, items`index, e`index
      ensures Valid() && items == old(items) + {e} && n == old(n) + 1 && (p == old(p) || fresh(p))
    {
      hide OrderedAround;
      Reserve(n + 1);
      Append(e);
      ShiftUp(n - 1, e);
    }

    /** The item at the top is due first (min_heap_top). */
    lemma TopIsLeast(i: nat)
      requires Valid() && i < n
      ensures p[0].timeout <= p[i].timeout
      decreases i
    {
      if i > 0 { TopIsLeast(Parent(i)); }
    }

    method Top() returns (e: Item?)
      requires Valid()
      ensures e == null <==> items == {}
      ensures e != null ==> n > 0 && e == p[0] && e in items && forall x :: x in items ==> e.timeout <= x.timeout
    {
      if n == 0 { return null; }
      e := p[0];
      forall x | x in items ensures e.timeout <= x.timeout { TopIsLeast(x.index); }
    }
  
    /** One slot less: the last item is to go where `e` was. */
    method Shrink(e: Item) returns (last: Item)
      requires Valid() && e in items && n > 1 && p[n - 1] != e
      modifies this`items, this`n
      ensures last == old(p[n - 1]) && items == old(items) - {e} && n == old(n) - 1
      ensures e.index < n && Holed(e.index, last) && OrderedAround(e.index, last)
      ensures e.index > 0 ==> p[Parent(e.index)].timeout <= e.timeout
      ensures forall i :: 0 < i < n && Parent(i) == e.index ==> e.timeout <= p[i].timeout
      ensures e.index > 0 ==> forall i :: 0 < i < n && Parent(i) == e.index ==> p[Parent(e.index)].timeout <= p[i].timeout
    {
      last := p[n - 1];
      n := n - 1;
      items := items - {e};
    }

    method Leave(e: Item)
      requires Valid() && e in items && p[n - 1] == e
      modifies this`items, this`n, e`index
      ensures Valid() && items == old(items) - {e} && n == old(n) - 1 && e.index == -1
    {
      n := n - 1;
      items := items - {e};
      e.index := -1;
    }

    /** min_heap_erase (fsm/min_heap.h:109-127): any item, wherever it is. */
    method Erase(e: Item) returns (ok: bool)
      requires Valid() && (e.index == -1 <==> e !in items)
      modifies this`items, this`n, p, items`index, e`index
      ensures Valid() && ok == (e in old(items))
      ensures items == old(items) - {e} && e.index == -1
    {
      hide OrderedAround;
      if e.index == -1 { return false; }
      if p[n - 1] == e {
        Leave(e);
        return true;
      }
      var last := Shrink(e);
      var hole := e.index;
      if hole > 0 && p[Parent(hole)].timeout > last.timeout {
        ShiftUp(hole, last);
      } else {
        ShiftDown(hole, last);
      }
      e.index := -1;
      ok := true;
    }

    /** min_heap_pop (fsm/min_heap.h:92-102): the item due first, which leaves the heap. */
    method Pop() returns (e: Item?)
      requires Valid()
      modifies this`items, this`n, p, items`index
      ensures Valid() && (e == null <==> old(items) == {})
      ensures e == null ==> items == old(items)
      ensures e != null ==>
                && old(n) > 0 && e == old(p[0])
                && e in old(items) && items == old(items) - {e} && e.index == -1
                && forall x :: x in old(items) ==> e.timeout <= x.timeout
    {
      hide OrderedAround;
      e := Top();
      if e == null { return; }
      if p[n - 1] == e {
        Leave(e);
        return;
      }
      var last := Shrink(e);
      ShiftDown(0, last);
      e.index := -1;
    }
  }
}
