/** Chat components and the `ChatComponents.joining` collectors. A component
    is kept opaque apart from its own text and its list of child ("extra")
    components; formatting and click events are not modelled. */
module ChatComponents {

  datatype Component = Component(text: string, extras: seq<Component>)

  /** `new TextComponent(s)`: a component with text `s` and no extras. */
  function Text(s: string): Component
  {
    Component(s, [])
  }

  /** `c.addExtra(e)`: `e` becomes the last child of `c`. */
  function AddExtra(c: Component, e: Component): Component
  {
    c.(extras := c.extras + [e])
  }

  /** `joining(delimiter)` on a sequential stream: the reduction starts from
      `new TextComponent("")` and, for every element in encounter order,
      adds the delimiter and then the element as extras. */
  function Joining(delimiter: Component, elements: seq<Component>): (r: Component)
    ensures r.text == ""
    ensures |r.extras| == 2 * |elements|
    ensures forall k :: 0 <= k < |r.extras| ==> r.extras[k] == if k % 2 == 0 then delimiter else elements[k / 2]
    decreases |elements|
  {
    if elements == [] then Text("")
    else
      var n := |elements| - 1;
      AddExtra(AddExtra(Joining(delimiter, elements[..n]), delimiter), elements[n])
  }

  /** `joining(String delimiter)`: joining with `new TextComponent(delimiter)`. */
  function JoiningText(delimiter: string, elements: seq<Component>): (r: Component)
    ensures r.text == "" && |r.extras| == 2 * |elements|
    ensures forall k :: 0 <= k < |r.extras| && k % 2 == 0 ==> r.extras[k] == Text(delimiter)
    ensures forall i :: 0 <= i < |elements| ==> r.extras[2 * i + 1] == elements[i]
  {
    var r := Joining(Text(delimiter), elements);
    assert forall i :: 0 <= i < |elements| ==> r.extras[2 * i + 1] == elements[(2 * i + 1) / 2];
    r
  }

  /** `joining()` on a sequential stream: the elements, in encounter order,
      as the extras of an empty text component. */
  function Concatenating(elements: seq<Component>): (r: Component)
    ensures r.text == "" && r.extras == elements
    decreases |elements|
  {
    if elements == [] then Text("")
    else
      var n := |elements| - 1;
      AddExtra(Concatenating(elements[..n]), elements[n])
  }

  /** e1, d, e2, d, ..., d, en: the elements with the delimiter between
      consecutive ones. */
  function Interleave(es: seq<Component>, d: Component): (r: seq<Component>)
    ensures |r| == if es == [] then 0 else 2 * |es| - 1
    decreases |es|
  {
    if |es| <= 1 then es
    else Interleave(es[..|es| - 1], d) + [d, es[|es| - 1]]
  }

  /** The elements sit at the even positions, in order, and the delimiter at
      the odd ones. */
  lemma {:induction false} InterleaveAt(es: seq<Component>, d: Component)
    ensures forall k :: 0 <= k < |Interleave(es, d)| ==> Interleave(es, d)[k] == if k % 2 == 0 then es[k / 2] else d
    decreases |es|
  {
    if |es| > 1 {
      var n := |es| - 1;
      var front := Interleave(es[..n], d);
      InterleaveAt(es[..n], d);
      var r := Interleave(es, d);
      assert r == front + [d, es[n]];
      forall k | 0 <= k < |r|
        ensures r[k] == if k % 2 == 0 then es[k / 2] else d
      {
        if k < |front| {
          assert r[k] == front[k];
          if k % 2 == 0 {
            assert es[..n][k / 2] == es[k / 2];
          }
        } else if k == |front| {
          assert k == 2 * (n - 1) + 1 && k % 2 == 1;
          assert r[k] == d;
        } else {
          assert k == 2 * n && k % 2 == 0 && k / 2 == n;
          assert r[k] == es[n];
        }
      }
    } else if |es| == 1 {
      assert Interleave(es, d) == es;
      forall k | 0 <= k < |Interleave(es, d)|
        ensures Interleave(es, d)[k] == if k % 2 == 0 then es[k / 2] else d
      {
        assert k == 0;
      }
    }
  }

  /** As written, `joining(delimiter)` puts the delimiter before every
      element, the first one included: the joined elements come after a
      leading delimiter. */
  lemma {:induction false} JoiningLeadsWithDelimiter(delimiter: Component, elements: seq<Component>)
    requires elements != []
    ensures Joining(delimiter, elements).extras == [delimiter] + Interleave(elements, delimiter)
    decreases |elements|
  {
    var n := |elements| - 1;
    var front := elements[..n];
    var e := elements[n];
    assert Joining(delimiter, elements).extras == Joining(delimiter, front).extras + [delimiter, e];
    if n == 0 {
      assert Joining(delimiter, front).extras == [];
      assert Interleave(elements, delimiter) == [e];
    } else {
      JoiningLeadsWithDelimiter(delimiter, front);
      assert Interleave(elements, delimiter) == Interleave(front, delimiter) + [delimiter, e];
      assert [delimiter] + Interleave(front, delimiter) + [delimiter, e]
        == [delimiter] + (Interleave(front, delimiter) + [delimiter, e]);
    }
  }

  /** The reduction `joining(delimiter)` evidently means: the delimiter goes
      in front of an element only when something was joined before it. */
  function JoiningIntended(delimiter: Component, elements: seq<Component>): (r: Component)
    ensures r.text == "" && r.extras == Interleave(elements, delimiter)
    decreases |elements|
  {
    if elements == [] then Text("")
    else
      var n := |elements| - 1;
      var a := JoiningIntended(delimiter, elements[..n]);
      AddExtra(if a.extras == [] then a else AddExtra(a, delimiter), elements[n])
  }

  /** Joining a concatenation of two streams puts the second stream's extras
      right after the first's. */
  lemma JoiningAppend(delimiter: Component, xs: seq<Component>, ys: seq<Component>)
    ensures Joining(delimiter, xs + ys).extras == Joining(delimiter, xs).extras + Joining(delimiter, ys).extras
  {
    var a := Joining(delimiter, xs + ys).extras;
    var b := Joining(delimiter, xs).extras + Joining(delimiter, ys).extras;
    assert |a| == |b|;
    forall k | 0 <= k < |a|
      ensures a[k] == b[k]
    {
      if k >= 2 * |xs| {
        assert (k - 2 * |xs|) % 2 == k % 2;
        assert (k - 2 * |xs|) / 2 == k / 2 - |xs|;
      }
    }
  }
}
