/**
 * The intrusive singly-linked list: a header with head, tail and length
 * over heap-allocated cells, each holding an integer or an identifier
 * pointer and a link to the next cell. The ghost sequence `cells` is the
 * abstract view, head to tail; `Chain()` and `Valid()` tie the real links
 * to it.
 */
module ListTools {
  import opened Nodes
  import opened Seqs
  import StdListTrait
  import Rendering

  /** The source's `int`. */
  newtype int32 = x: int | -0x8000_0000 <= x < 0x8000_0000

  /**
   * The cell's payload union. The variant is picked by the type of the
   * pushed value (an integer, or an identifier node pointer) and never
   * changes afterwards; a checked match replaces the unchecked cast.
   */
  datatype Payload = IntVal(intValue: int32) | PtrVal(ptrValue: Ident)

  class Cell {
    const data: Payload
    var next: Cell?

    /** A freshly allocated cell: zero-initialised link, payload assigned. */
    constructor (data: Payload)
      ensures this.data == data && next == null
    {
      this.data := data;
      next := null;
    }
  }

  class List {
    var head: Cell?
    var tail: Cell?
    var length: int
    ghost var cells: seq<Cell>

    /**
     * The links: `length` counts the cells, `head` is the first cell, each
     * cell links to the following one and the last one to null. Distinct
     * cells make the chain acyclic.
     */
    ghost predicate Chain()
      reads this, cells
    {
      && length == |cells|
      && Distinct(cells)
      && (if cells == [] then head == null else head == cells[0] && cells[|cells| - 1].next == null)
      && (forall i :: 0 <= i < |cells| - 1 ==> cells[i].next == cells[i + 1])
    }

    /** A well-formed list: the chain, and `tail` at the last cell (null when empty). */
    ghost predicate Valid()
      reads this, cells
    {
      Chain() && tail == (if cells == [] then null else cells[|cells| - 1])
    }

    /** makeList: an empty list. */
    constructor ()
      ensures Valid() && cells == []
      ensures head == null && tail == null && length == 0
    {
      head := null;
      tail := null;
      length := 0;
      cells := [];
    }

    /** push_back: link a new cell after the tail. */
    method PushBack(v: Payload)
      requires Valid()
      modifies this, cells
      ensures Valid()
      ensures |cells| == old(|cells|) + 1 && cells[..|cells| - 1] == old(cells)
      ensures fresh(cells[|cells| - 1]) && cells[|cells| - 1].data == v
      ensures tail == cells[|cells| - 1]
      ensures head == if old(cells) == [] then tail else old(head)
      ensures length == old(length) + 1
    {
      var cell := new Cell(v);
      if tail != null {
        tail.next := cell;
      } else {
        head := cell;
      }
      tail := cell;
      length := length + 1;
      cells := cells + [cell];
    }

    /**
     * push_front as the source writes it: `tail` is set to the old head
     * whenever the list was non-empty and left alone when it was empty, so
     * the list is well-formed afterwards exactly when it held one cell.
     */
    method PushFront(v: Payload)
      requires Chain()
      modifies this
      ensures Chain()
      ensures |cells| == old(|cells|) + 1 && cells[1..] == old(cells)
      ensures fresh(cells[0]) && cells[0].data == v && head == cells[0]
      ensures length == old(length) + 1
      ensures tail == if old(cells) == [] then old(tail) else old(head)
      ensures Valid() <==> old(|cells|) == 1
    {
      var cell := new Cell(v);
      if head != null {
        cell.next := head;
        tail := head;
      }
      head := cell;
      length := length + 1;
      cells := [cell] + cells;
    }

    /** push_front as intended: the new cell is the tail only of an empty list. */
    method PushFrontFixed(v: Payload)
      requires Valid()
      modifies this
      ensures Valid()
      ensures |cells| == old(|cells|) + 1 && cells[1..] == old(cells)
      ensures fresh(cells[0]) && cells[0].data == v && head == cells[0]
      ensures length == old(length) + 1
      ensures tail == if old(cells) == [] then head else old(tail)
    {
      var cell := new Cell(v);
      if head != null {
        cell.next := head;
      } else {
        tail := cell;
      }
      head := cell;
      length := length + 1;
      cells := [cell] + cells;
    }

    /**
     * reverse: relink every cell to its predecessor in one pass. The tail
     * becomes the old head; `tail` is not read, so a list whose tail is
     * stale comes out well-formed.
     */
    method Reverse()
      requires Chain()
      modifies this, cells
      ensures Valid()
      ensures cells == Seqs.Reverse(old(cells))
      ensures length == old(length)
      ensures tail == old(head)
      ensures head == if old(cells) == [] then null else old(cells[|cells| - 1])
    {
      var current := head;
      var newTail := head;
      var prev: Cell? := null;
      ghost var k := 0;
      while current != null
        modifies cells
        invariant 0 <= k <= |cells|
        invariant current == (if k < |cells| then cells[k] else null)
        invariant prev == (if k == 0 then null else cells[k - 1])
        invariant k >= 1 ==> cells[0].next == null
        invariant forall i :: 1 <= i < k ==> cells[i].next == cells[i - 1]
        invariant forall i :: k <= i < |cells| - 1 ==> cells[i].next == cells[i + 1]
        invariant k < |cells| ==> cells[|cells| - 1].next == null
        decreases |cells| - k
      {
        var next := current.next;
        current.next := prev;
        prev := current;
        current := next;
        k := k + 1;
      }
      head := prev;
      tail := newTail;
      ghost var was := cells;
      ReverseMirror(was);
      ReverseDistinct(was);
      cells := Seqs.Reverse(was);
    }
  }

  /**
   * A forward cursor: the list it walks and the current cell, null at the
   * end. The source copies cursors by value, so this is a value type and
   * incrementing one yields the advanced cursor.
   */
  datatype ListIterator = ListIterator(list: List, nodePtr: Cell?) {

    ghost predicate Valid()
      reads list, list.cells
    {
      list.Chain() && (nodePtr == null || nodePtr in list.cells)
    }

    /** The position of the cursor, `|cells|` at the end. */
    ghost function Pos(): (p: nat)
      requires Valid()
      reads list, list.cells
      ensures p <= |list.cells|
      ensures p < |list.cells| <==> nodePtr != null
      ensures p < |list.cells| ==> list.cells[p] == nodePtr
    {
      IndexOf<Cell?>(list.cells, nodePtr)
    }

    /** operator*: the cell under the cursor (never taken at the end). */
    function Deref(): (c: Cell)
      requires Valid() && nodePtr != null
      reads list, list.cells
      ensures c == list.cells[Pos()]
    {
      nodePtr
    }

    /** operator== (operator!= is its negation): compares the cells only. */
    function Equal(other: ListIterator): (r: bool)
      reads list, list.cells, other.list, other.list.cells
      ensures Valid() && other.Valid() && list == other.list ==> (r <==> Pos() == other.Pos())
    {
      nodePtr == other.nodePtr
    }

    /** operator++: step to the following cell. */
    function Next(): (r: ListIterator)
      requires Valid() && nodePtr != null
      reads list, list.cells
      ensures r.list == list && r.Valid() && r.Pos() == Pos() + 1
    {
      ChainSuccessor(list, Pos());
      ListIterator(list, nodePtr.next)
    }

    /**
     * getPrevNodePtr: walk from the head to `node`; the cell before it,
     * null when `node` is the head, the last cell when `node` is absent.
     */
    method GetPrevNodePtr(node: Cell?) returns (prev: Cell?)
      requires list.Chain()
      ensures forall k :: 0 <= k < |list.cells| && list.cells[k] == node ==>
                prev == (if k == 0 then null else list.cells[k - 1])
      ensures node !in list.cells ==>
                prev == (if list.cells == [] then null else list.cells[|list.cells| - 1])
    {
      var current := list.head;
      prev := null;
      ghost var k := 0;
      while current != null
        invariant k <= |list.cells|
        invariant current == (if k < |list.cells| then list.cells[k] else null)
        invariant prev == (if k == 0 then null else list.cells[k - 1])
        invariant forall j :: 0 <= j < k ==> list.cells[j] != node
        decreases |list.cells| - k
      {
        if current == node {
          break;
        }
        prev := current;
        current := current.next;
        k := k + 1;
      }
    }
  }

  /** In a chain, the successor of the k-th cell sits at position k + 1. */
  lemma ChainSuccessor(list: List, k: nat)
    requires list.Chain() && k < |list.cells|
    ensures list.cells[k].next == null || list.cells[k].next in list.cells
    ensures IndexOf<Cell?>(list.cells, list.cells[k].next) == k + 1
  {
    if k + 1 < |list.cells| {
      IndexOfDistinct<Cell?>(list.cells, k + 1);
    }
  }

  /** begin: a cursor at the head. */
  function Begin(list: List): (it: ListIterator)
    requires list.Chain()
    reads list, list.cells
    ensures it.list == list && it.Valid() && it.Pos() == 0
  {
    ListIterator(list, list.head)
  }

  /** end: the cursor past the last cell. */
  function End(list: List): (it: ListIterator)
    requires list.Chain()
    reads list, list.cells
    ensures it.list == list && it.Valid() && it.Pos() == |list.cells|
  {
    ListIterator(list, null)
  }

  /** getListSize: the number of cells, read without changing the list. */
  function GetListSize(list: List): (n: int)
    reads list, list.cells
    ensures list.Chain() ==> n == |list.cells|
  {
    list.length
  }

  /**
   * erase: unlink the cell under `iter`, patching head, tail and length;
   * the result is a cursor at the cell that followed it.
   */
  method Erase(iter: ListIterator) returns (r: ListIterator)
    requires iter.Valid() && iter.list.Valid() && iter.nodePtr != null
    modifies iter.list, iter.list.cells
    ensures iter.list.Valid()
    ensures iter.list.cells == old(iter.list.cells[..iter.Pos()] + iter.list.cells[iter.Pos() + 1..])
    ensures iter.list.length == old(iter.list.length) - 1
    ensures iter.list.head == if old(iter.nodePtr == iter.list.head) then old(iter.nodePtr.next) else old(iter.list.head)
    ensures iter.list.tail == if old(iter.nodePtr == iter.list.tail)
                              then (if old(iter.Pos()) == 0 then null else old(iter.list.cells[iter.Pos() - 1]))
                              else old(iter.list.tail)
    ensures r.list == iter.list && r.nodePtr == old(iter.nodePtr.next)
    ensures r.Valid() && r.Pos() == old(iter.Pos())
  {
    var list := iter.list;
    var toDelete := iter.nodePtr;
    ghost var s := list.cells;
    ghost var k := iter.Pos();
    ghost var succ: Cell? := if k + 1 < |s| then s[k + 1] else null;
    assert toDelete.next == succ;
    var prev := iter.GetPrevNodePtr(toDelete);
    assert prev == (if k == 0 then null else s[k - 1]);
    if toDelete == list.head {
      list.head := toDelete.next;
    }
    if toDelete == list.tail {
      list.tail := prev;
    }
    if prev != null {
      prev.next := toDelete.next;
    }
    list.length := list.length - 1;
    r := ListIterator(list, toDelete.next);
    list.cells := s[..k] + s[k + 1..];
    UnlinkKeepsValid(list, s, k);
    if k + 1 < |s| {
      IndexOfDistinct<Cell?>(list.cells, k);
    }
  }

  /** Unlinking the k-th cell of a chain, with head, tail and length patched, leaves a well-formed list. */
  lemma UnlinkKeepsValid(list: List, s: seq<Cell>, k: nat)
    requires Distinct(s) && k < |s|
    requires list.cells == s[..k] + s[k + 1..] && list.length == |s| - 1
    requires list.head == if k == 0 then (if |s| > 1 then s[1] else null) else s[0]
    requires list.tail == if k == |s| - 1 then (if k == 0 then null else s[k - 1]) else s[|s| - 1]
    requires forall i :: 0 <= i < |s| - 1 && i != k - 1 ==> s[i].next == s[i + 1]
    requires k > 0 ==> s[k - 1].next == (if k + 1 < |s| then s[k + 1] else null)
    requires k < |s| - 1 ==> s[|s| - 1].next == null
    ensures list.Valid()
  {
    var t := list.cells;
    assert forall i :: 0 <= i < |t| ==> t[i] == (if i < k then s[i] else s[i + 1]);
  }

  /** clean: erase the first cell until none is left. */
  method Clean(list: List)
    requires list.Valid()
    modifies list, list.cells
    ensures list.Valid() && list.cells == []
    ensures list.head == null && list.tail == null && list.length == 0
  {
    var current := Begin(list);
    var e := End(list);
    while !current.Equal(e)
      invariant list.Valid() && current == ListIterator(list, list.head)
      invariant e == ListIterator(list, null)
      invariant forall i :: 0 <= i < |list.cells| ==> list.cells[i] in old(list.cells)
      decreases |list.cells|
    {
      var i := current;
      current := current.Next();
      var _ := Erase(i);
    }
  }

  /**
   * copy: a new list whose i-th payload is `cloneF` of the i-th payload of
   * `list`, built from fresh cells; `list` is only read.
   */
  method Copy(list: List, cloneF: Payload -> Payload) returns (newList: List)
    requires list.Chain()
    ensures fresh(newList) && newList.Valid()
    ensures |newList.cells| == |list.cells|
    ensures forall i :: 0 <= i < |list.cells| ==> newList.cells[i].data == cloneF(list.cells[i].data)
    ensures forall i :: 0 <= i < |newList.cells| ==> fresh(newList.cells[i])
  {
    newList := new List();
    var b := Begin(list);
    var e := End(list);
    while !b.Equal(e)
      invariant b.Valid() && b.list == list
      invariant fresh(newList) && newList.Valid()
      invariant |newList.cells| == b.Pos()
      invariant forall i :: 0 <= i < |newList.cells| ==> newList.cells[i].data == cloneF(list.cells[i].data)
      invariant forall i :: 0 <= i < |newList.cells| ==> fresh(newList.cells[i])
      decreases |list.cells| - b.Pos()
    {
      var cell := b.Deref();
      newList.PushBack(cloneF(cell.data));
      b := b.Next();
    }
  }

  /** Every cell holds an identifier node. */
  ghost predicate AllIdents(cells: seq<Cell>)
  {
    forall c :: c in cells ==> c.data.PtrVal?
  }

  /** The identifier nodes held by `cells`, in order. */
  ghost function Idents(cells: seq<Cell>): (xs: seq<Ident>)
    requires AllIdents(cells)
    ensures |xs| == |cells|
  {
    if cells == [] then [] else Idents(cells[..|cells| - 1]) + [cells[|cells| - 1].data.ptrValue]
  }

  /** The i-th identifier is the payload of the i-th cell. */
  lemma {:induction false} IdentsAt(cells: seq<Cell>, i: nat)
    requires AllIdents(cells) && i < |cells|
    ensures Idents(cells)[i] == cells[i].data.ptrValue
  {
    if i < |cells| - 1 {
      assert cells[..|cells| - 1][i] == cells[i];
      IdentsAt(cells[..|cells| - 1], i);
    }
  }

  /**
   * The list's render hook: the cell's payload must be an identifier node;
   * its name is appended with the same separator policy as the standard
   * list's hook.
   */
  method AppendElement(node: Cell, firstElement: bool, result: string)
    returns (firstOut: bool, resultOut: string)
    requires node.data.PtrVal?
    ensures !firstOut
    ensures firstElement ==> resultOut == result + node.data.ptrValue.name
    ensures !firstElement ==> resultOut == result + "." + node.data.ptrValue.name
    ensures result <= resultOut
    ensures forall xs: seq<Ident> :: result == Rendering.Join(xs) && firstElement == (xs == [])
              ==> resultOut == Rendering.Join(xs + [node.data.ptrValue])
  {
    firstOut, resultOut := StdListTrait.AppendElement(node.data.ptrValue, firstElement, result);
  }

  /**
   * push_front as written, on an empty list and on a two-cell list: the
   * first leaves `tail` null beside a non-null head, the second leaves it
   * at the middle cell.
   */
  method PushFrontTailCounterexamples() returns (one: List, three: List)
    ensures |one.cells| == 1 && one.head != null && one.tail == null && !one.Valid()
    ensures |three.cells| == 3 && three.tail == three.cells[1] && three.tail != three.cells[2]
    ensures !three.Valid()
  {
    one := new List();
    one.PushFront(IntVal(1));
    three := new List();
    three.PushBack(IntVal(2));
    three.PushBack(IntVal(3));
    three.PushFront(IntVal(1));
  }

  /** reverse applied twice restores the order, the head and the tail. */
  method ReverseTwice(list: List)
    requires list.Valid()
    modifies list, list.cells
    ensures list.Valid() && list.cells == old(list.cells)
    ensures list.head == old(list.head) && list.tail == old(list.tail)
    ensures list.length == old(list.length)
  {
    ghost var s := list.cells;
    list.Reverse();
    ReverseMirror(s);
    assert forall i :: 0 <= i < |list.cells| ==> list.cells[i] in s;
    list.Reverse();
    ReverseInvolutive(s);
  }
}
