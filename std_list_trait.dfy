/**
 * The render hook of the node trait for a standard list of identifier
 * nodes: one element is written into the accumulating result, preceded by
 * a "." unless it is the first one.
 */
module StdListTrait {
  import opened Nodes
  import Rendering

  /**
   * `firstElement` and `result` are in/out references in the source; here
   * they are passed in and their new values returned.
   */
  method AppendElement(node: Ident, firstElement: bool, result: string)
    returns (firstOut: bool, resultOut: string)
    ensures !firstOut
    ensures firstElement ==> resultOut == result + node.name
    ensures !firstElement ==> resultOut == result + "." + node.name
    ensures result <= resultOut
    ensures forall xs: seq<Ident> :: result == Rendering.Join(xs) && firstElement == (xs == [])
              ==> resultOut == Rendering.Join(xs + [node])
  {
    resultOut := result;
    if !firstElement {
      resultOut := resultOut + ".";
    }
    resultOut := resultOut + node.name;
    firstOut := false;
    forall xs: seq<Ident> | result == Rendering.Join(xs) && firstElement == (xs == [])
      ensures resultOut == Rendering.Join(xs + [node])
    {
      Rendering.JoinSnoc(xs, node);
    }
  }
}
