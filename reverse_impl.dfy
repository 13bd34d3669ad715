/**
 * Three ways of rendering a list tail-to-head through its iterator and its
 * render hook: an explicit stack, an auxiliary list filled at the front,
 * and recursion that renders an element only after everything behind it.
 * Each is proved equal to `ReversedRendering` of the list's identifiers.
 * None of them has a modifies clause, so the list and its cells are left
 * as they were.
 */
module ReverseImpl {
  import opened Nodes
  import opened Seqs
  import opened Rendering
  import opened ListTools

  /** reverse_impl_1: push every cell on a stack, then pop and render. */
  method ReverseImpl1(stream: List) returns (result: string)
    requires stream.Chain() && AllIdents(stream.cells)
    ensures result == ReversedRendering(Idents(stream.cells))
  {
    var b := Begin(stream);
    var e := End(stream);
    // the stack, its top at the end of the sequence
    var elems: seq<Cell> := [];
    while !b.Equal(e)
      invariant b.Valid() && b.list == stream
      invariant elems == stream.cells[..b.Pos()]
      decreases |stream.cells| - b.Pos()
    {
      elems := elems + [b.Deref()];
      b := b.Next();
    }
    // every cell is on the stack and the tail is on top
    assert elems == stream.cells;
    ghost var xs := Idents(stream.cells);
    result := "";
    var first := true;
    while elems != []
      invariant |elems| <= |xs| && elems == stream.cells[..|elems|]
      invariant result == Join(Reverse(xs[|elems|..]))
      invariant first == (|elems| == |xs|)
      decreases |elems|
    {
      var top := |elems| - 1;
      ReverseDropOne(xs, top);
      IdentsAt(stream.cells, top);
      JoinSnoc(Reverse(xs[top + 1..]), xs[top]);
      first, result := AppendElement(elems[top], first, result);
      elems := elems[..top];
    }
    assert xs[0..] == xs;
  }

  /** reverse_impl_2: push every cell at the front of a second list, then render that list. */
  method ReverseImpl2(stream: List) returns (result: string)
    requires stream.Chain() && AllIdents(stream.cells)
    ensures result == ReversedRendering(Idents(stream.cells))
  {
    var b := Begin(stream);
    var e := End(stream);
    var elems: seq<Cell> := [];
    while !b.Equal(e)
      invariant b.Valid() && b.list == stream
      invariant elems == Reverse(stream.cells[..b.Pos()])
      decreases |stream.cells| - b.Pos()
    {
      ReversePrefixExtend(stream.cells, b.Pos());
      elems := [b.Deref()] + elems;
      b := b.Next();
    }
    // the second list holds the cells tail-to-head
    assert stream.cells[..|stream.cells|] == stream.cells;
    ghost var xs := Idents(stream.cells);
    ghost var rx := Reverse(xs);
    assert elems == Reverse(stream.cells);
    result := "";
    var first := true;
    for i := 0 to |elems|
      invariant result == Join(rx[..i])
      invariant first == (i == 0)
    {
      ReverseAt(stream.cells, i);
      ReverseAt(xs, i);
      IdentsAt(stream.cells, |xs| - 1 - i);
      assert elems[i].data.ptrValue == rx[i];
      ghost var before := result;
      first, result := AppendElement(elems[i], first, result);
      JoinPrefixStep(rx, i, i == 0, before, result);
    }
    assert rx[..|rx|] == rx;
  }

  /**
   * recursive_reverse_impl_helper: render everything behind `i` first, then
   * the cell under `i`. The elements still to come, tail-to-head, are
   * `pending`; with none the flag and the result pass through unchanged.
   */
  method RecursiveReverseImplHelper(list: List, first: bool, i: ListIterator, result: string)
    returns (firstOut: bool, resultOut: string)
    requires list.Chain() && AllIdents(list.cells) && i.Valid() && i.list == list
    ensures var pending := Reverse(Idents(list.cells)[i.Pos()..]);
            firstOut == (first && pending == []) && resultOut == Continued(first, result, pending)
    decreases |list.cells| - i.Pos()
  {
    var e := End(list);
    if i.Equal(e) {
      return first, result;
    }
    var j := i;
    j := j.Next();
    var laterFirst, laterResult := RecursiveReverseImplHelper(list, first, j, result);
    firstOut, resultOut := AppendElement(i.Deref(), laterFirst, laterResult);
    ghost var xs := Idents(list.cells);
    ghost var p := i.Pos();
    assert j.Pos() == p + 1;
    ReverseDropOne(xs, p);
    IdentsAt(list.cells, p);
    AppendAfterPending(first, result, Reverse(xs[p + 1..]), laterFirst, laterResult,
                       xs[p], resultOut);
  }

  /** reverse_impl_3: the recursive helper from the head with an empty result. */
  method ReverseImpl3(stream: List) returns (result: string)
    requires stream.Chain() && AllIdents(stream.cells)
    ensures result == ReversedRendering(Idents(stream.cells))
  {
    var b := Begin(stream);
    result := "";
    var first := true;
    first, result := RecursiveReverseImplHelper(stream, first, b, result);
    ghost var xs := Idents(stream.cells);
    assert xs[0..] == xs;
  }

  /** All three strategies agree on every list of identifiers. */
  method RenderersAgree(stream: List) returns (r1: string, r2: string, r3: string)
    requires stream.Chain() && AllIdents(stream.cells)
    ensures r1 == r2 && r2 == r3
    ensures r1 == ReversedRendering(Idents(stream.cells))
  {
    r1 := ReverseImpl1(stream);
    r2 := ReverseImpl2(stream);
    r3 := ReverseImpl3(stream);
  }

  /** Five names pushed at the back render as the five names tail-to-head. */
  method FiveNamesScenario() returns (r1: string, r2: string, r3: string)
    ensures r1 == "milosz.monika.patryk.bolek.delak"
    ensures r2 == r1 && r3 == r1
  {
    var list := new List();
    list.PushBack(PtrVal(Ident("delak")));
    list.PushBack(PtrVal(Ident("bolek")));
    list.PushBack(PtrVal(Ident("patryk")));
    list.PushBack(PtrVal(Ident("monika")));
    list.PushBack(PtrVal(Ident("milosz")));
    forall k | 0 <= k < 5 {
      IdentsAt(list.cells, k);
    }
    assert Idents(list.cells)
        == [Ident("delak"), Ident("bolek"), Ident("patryk"), Ident("monika"), Ident("milosz")];
    ReversedRenderingExamples();
    r1, r2, r3 := RenderersAgree(list);
  }
}
