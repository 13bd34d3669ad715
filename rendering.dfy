/**
 * Identifier nodes and the rendering every reversal strategy must produce:
 * the element names joined by "." in tail-to-head order, with no leading
 * or trailing separator and "" for no elements.
 */
module Nodes {

  /** An identifier node, reduced to the name it carries. */
  datatype Ident = Ident(name: string)
}

module Rendering {
  import opened Nodes
  import opened Seqs

  /** The names of `xs` in order, separated by ".". */
  function Join(xs: seq<Ident>): string
  {
    if xs == [] then ""
    else if |xs| == 1 then xs[0].name
    else Join(xs[..|xs| - 1]) + "." + xs[|xs| - 1].name
  }

  /** The rendering of a container whose head-to-tail elements are `xs`. */
  function ReversedRendering(xs: seq<Ident>): string
  {
    Join(Reverse(xs))
  }

  /** Sum of the lengths of the names. */
  function TotalLength(xs: seq<Ident>): nat
  {
    if xs == [] then 0 else TotalLength(xs[..|xs| - 1]) + |xs[|xs| - 1].name|
  }

  /** Appending one name: just the name for the first one, otherwise a separator and the name. */
  lemma JoinSnoc(xs: seq<Ident>, x: Ident)
    ensures Join(xs + [x]) == if xs == [] then x.name else Join(xs) + "." + x.name
  {
    assert (xs + [x])[..|xs|] == xs;
  }

  /**
   * One render-hook step on the i-th name extends the dot-join of the
   * first i names to the dot-join of the first i + 1.
   */
  lemma JoinPrefixStep(ys: seq<Ident>, i: nat, first: bool, result: string, result': string)
    requires i < |ys| && result == Join(ys[..i]) && first == (i == 0)
    requires first ==> result' == result + ys[i].name
    requires !first ==> result' == result + "." + ys[i].name
    ensures result' == Join(ys[..i + 1])
  {
    assert ys[..i + 1][..i] == ys[..i];
  }

  /** Exactly one separator between consecutive names and none elsewhere. */
  lemma {:induction false} JoinLength(xs: seq<Ident>)
    requires |xs| >= 1
    ensures |Join(xs)| == TotalLength(xs) + |xs| - 1
  {
    if |xs| > 1 {
      JoinLength(xs[..|xs| - 1]);
    }
  }

  /** Joining is also a right fold: the first name, a separator, then the rest. */
  lemma {:induction false} JoinCons(x: Ident, xs: seq<Ident>)
    requires |xs| >= 1
    ensures Join([x] + xs) == x.name + "." + Join(xs)
  {
    var ys := [x] + xs;
    if |xs| == 1 {
      assert ys[..|ys| - 1] == [x];
    } else {
      assert ys[..|ys| - 1] == [x] + xs[..|xs| - 1];
      JoinCons(x, xs[..|xs| - 1]);
    }
  }

  /** The rendering begins with the first name and ends with the last one. */
  lemma {:induction false} JoinEnds(xs: seq<Ident>)
    requires |xs| >= 1
    ensures xs[0].name <= Join(xs)
    ensures Join(xs)[|Join(xs)| - |xs[|xs| - 1].name|..] == xs[|xs| - 1].name
  {
    if |xs| > 1 {
      JoinEnds(xs[..|xs| - 1]);
      var init := Join(xs[..|xs| - 1]);
      assert Join(xs) == init + ("." + xs[|xs| - 1].name);
    }
  }

  /**
   * What the render hook leaves in the result after `pending` has been
   * rendered into it: nothing changes for no elements; otherwise a
   * separator unless the result was still at its first element, then the
   * dot-join of `pending`.
   */
  function Continued(first: bool, result: string, pending: seq<Ident>): string
  {
    if pending == [] then result
    else (if first then result else result + ".") + Join(pending)
  }

  /**
   * Threading the first-flag and the result: if rendering `pending` into
   * (`first`, `result`) gave (`f`, `r`), then appending `x` after it as the
   * render hook does gives the rendering of `pending + [x]`.
   */
  lemma AppendAfterPending(first: bool, result: string, pending: seq<Ident>, f: bool, r: string,
                           x: Ident, r': string)
    requires f == (first && pending == []) && r == Continued(first, result, pending)
    requires f ==> r' == r + x.name
    requires !f ==> r' == r + "." + x.name
    ensures r' == Continued(first, result, pending + [x])
  {
    if pending != [] {
      assert (pending + [x])[..|pending|] == pending;
    }
  }

  /** The element at the tail is rendered first. */
  lemma ReversedRenderingSnoc(xs: seq<Ident>, x: Ident)
    requires |xs| >= 1
    ensures ReversedRendering(xs + [x]) == x.name + "." + ReversedRendering(xs)
  {
    ReverseMirror(xs + [x]);
    ReverseMirror(xs);
    assert Reverse(xs + [x]) == [x] + Reverse(xs);
    JoinCons(x, Reverse(xs));
  }

  /** The element at the head is rendered last. */
  lemma ReversedRenderingCons(x: Ident, xs: seq<Ident>)
    requires |xs| >= 1
    ensures ReversedRendering([x] + xs) == ReversedRendering(xs) + "." + x.name
  {
    assert ([x] + xs)[1..] == xs;
  }

  /** The renderings the list's reversal tests expect. */
  lemma ReversedRenderingExamples()
    ensures ReversedRendering([Ident("")]) == ""
    ensures ReversedRendering([Ident("delak")]) == "delak"
    ensures ReversedRendering([Ident("delak"), Ident("bolek")]) == "bolek.delak"
    ensures ReversedRendering([Ident("delak"), Ident("bolek"), Ident("patryk"),
                               Ident("monika"), Ident("milosz")])
            == "milosz.monika.patryk.bolek.delak"
    ensures ReversedRendering([]) == ""
  {
    FiveNamesRendering(Ident("delak"), Ident("bolek"), Ident("patryk"), Ident("monika"), Ident("milosz"));
  }

  /** Five elements render as their names from the fifth back to the first. */
  lemma FiveRendering(d: Ident, b: Ident, p: Ident, m: Ident, z: Ident)
    ensures ReversedRendering([d, b, p, m, z])
            == z.name + "." + m.name + "." + p.name + "." + b.name + "." + d.name
  {
    ReverseMirror([d]);
    ReversedRenderingSnoc([d], b);
    assert [d] + [b] == [d, b];
    ReversedRenderingSnoc([d, b], p);
    assert [d, b] + [p] == [d, b, p];
    ReversedRenderingSnoc([d, b, p], m);
    assert [d, b, p] + [m] == [d, b, p, m];
    ReversedRenderingSnoc([d, b, p, m], z);
    assert [d, b, p, m] + [z] == [d, b, p, m, z];
  }

  /**
   * The five names of the test driver, rendered tail-to-head. The names come
   * in as parameters fixed by `requires` rather than as literals, because
   * literal arguments let the verifier unfold `Join` and `Reverse` without
   * bound, which makes the proof far more expensive.
   */
  lemma FiveNamesRendering(d: Ident, b: Ident, p: Ident, m: Ident, z: Ident)
    requires d.name == "delak" && b.name == "bolek" && p.name == "patryk"
    requires m.name == "monika" && z.name == "milosz"
    ensures ReversedRendering([d, b, p, m, z]) == "milosz.monika.patryk.bolek.delak"
  {
    FiveRendering(d, b, p, m, z);
  }
}
