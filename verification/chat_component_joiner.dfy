/** `ChatComponentJoiner`: a StringJoiner-like builder of component arrays
    with a delimiter, an optional prefix and an optional suffix, and the
    collectors built on it. The underlying `ComponentBuilder` is seen as the
    plain list of its parts. A joiner is empty while its builder is null;
    the first `add` (or `merge` of a non-empty joiner) creates the builder,
    starting with the prefix when there is one. */
module ChatComponentJoiner {
  import opened JavaLang
  import opened ChatComponents

  /** A `ComponentBuilder`, as the list of its parts. */
  type Builder = seq<Component>

  /** `builder.append(c)`: `c` becomes the last part. */
  function Append(b: Builder, c: Component): Builder
  {
    b + [c]
  }

  /** `builder.getCursor()` right after an append: the index of the last part. */
  function Cursor(b: Builder): nat
    requires |b| > 0
  {
    |b| - 1
  }

  /** `builder.removeComponent(pos)`. */
  function RemoveComponent(b: Builder, pos: nat): Builder
    requires pos < |b|
  {
    b[..pos] + b[pos + 1..]
  }

  /** Appends each part in order, as the loops of `merge` and of the
      `joining()` combiner do. */
  function AppendAll(b: Builder, parts: seq<Component>): (r: Builder)
    ensures r == b + parts
    decreases |parts|
  {
    if parts == [] then b
    else AppendAll(Append(b, parts[0]), parts[1..])
  }

  datatype Joiner = Joiner(
    prefix: Nullable<Component>,
    delimiter: Component,
    suffix: Nullable<Component>,
    value: Nullable<Builder>,
    emptyValue: seq<Component>)

  /** The three-argument constructor. Only the delimiter must be non-null; a
      null prefix or suffix is accepted and simply left out. The empty value
      starts as the prefix (if any) followed by the suffix (if any). */
  function New(delimiter: Nullable<Component>, prefix: Nullable<Component>, suffix: Nullable<Component>): (r: Result<Joiner>)
    ensures r.Throw? <==> delimiter.Null?
    ensures r.Throw? ==> r.exception == NullPointerException
    ensures r.Ok? ==> r.value == Joiner(prefix, delimiter.deref, suffix, Null, Elements(prefix) + Elements(suffix))
  {
    if delimiter.Null? then Throw(NullPointerException)
    else
      var none: seq<Component> := [];
      var withPrefix := if prefix.Ref? then [prefix.deref] else none;
      var empty :=
        if suffix.Null? then withPrefix
        else if |withPrefix| > 0 then [withPrefix[0], suffix.deref]
        else [suffix.deref];
      Ok(Joiner(prefix, delimiter.deref, suffix, Null, empty))
  }

  /** The one-argument constructor: no prefix, no suffix, so an empty joiner
      creates the empty array. */
  function NewWithDelimiter(delimiter: Nullable<Component>): (r: Result<Joiner>)
    ensures r.Throw? <==> delimiter.Null?
    ensures r.Throw? ==> r.exception == NullPointerException
    ensures r.Ok? ==> r.value.delimiter == delimiter.deref && r.value.prefix.Null? && r.value.suffix.Null?
    ensures r.Ok? ==> r.value.value.Null? && r.value.emptyValue == []
  {
    New(delimiter, Null, Null)
  }

  /** What `create` returns, and the joiner as `create` leaves it. */
  datatype Created = Created(result: seq<Component>, after: Joiner)

  /** Two joiners differ at most in their builders. */
  predicate SameSettings(a: Joiner, b: Joiner)
  {
    a.prefix == b.prefix && a.delimiter == b.delimiter && a.suffix == b.suffix && a.emptyValue == b.emptyValue
  }

  /** `create()`: the empty value while nothing has been added; otherwise the
      builder's parts followed by the suffix. The suffix is appended to the
      builder and then removed again at the cursor, which leaves the joiner
      exactly as it was. */
  function Create(j: Joiner): (r: Created)
    ensures r.after == j
    ensures j.value.Null? ==> r.result == j.emptyValue
    ensures j.value.Ref? ==> r.result == j.value.deref + Elements(j.suffix)
  {
    match j.value
    case Null => Created(j.emptyValue, j)
    case Ref(b) =>
      if j.suffix.Null? then Created(b, j)
      else
        var withSuffix := Append(b, j.suffix.deref);
        var restored := RemoveComponent(withSuffix, Cursor(withSuffix));
        assert restored == b;
        Created(withSuffix, j.(value := Ref(restored)))
  }

  /** `setEmptyValue(v)`: replaces what an empty joiner creates; once
      something has been added it makes no difference to `create`. */
  function SetEmptyValue(j: Joiner, v: Nullable<seq<Component>>): (r: Result<Joiner>)
    ensures r.Throw? <==> v.Null?
    ensures r.Throw? ==> r.exception == NullPointerException
    ensures r.Ok? ==> r.value.value == j.value
    ensures r.Ok? ==> r.value.prefix == j.prefix && r.value.delimiter == j.delimiter && r.value.suffix == j.suffix
    ensures r.Ok? && j.value.Null? ==> Create(r.value).result == v.deref
    ensures r.Ok? && j.value.Ref? ==> Create(r.value).result == Create(j).result
  {
    if v.Null? then Throw(NullPointerException)
    else Ok(j.(emptyValue := v.deref))
  }

  /** `prepareBuilder()`: on a non-empty joiner appends the delimiter; on an
      empty one creates the builder, holding the prefix if there is one. */
  function PrepareBuilder(j: Joiner): (r: Joiner)
    ensures r.value.Ref?
    ensures SameSettings(r, j)
    ensures j.value.Ref? ==> r.value.deref == j.value.deref + [j.delimiter]
    ensures j.value.Null? ==> r.value.deref == Elements(j.prefix)
  {
    match j.value
    case Ref(b) => j.(value := Ref(Append(b, j.delimiter)))
    case Null => j.(value := Ref(if j.prefix.Ref? then Append([], j.prefix.deref) else []))
  }

  /** `add(e)`: the first element follows the prefix; every later one follows
      a delimiter. */
  function Add(j: Joiner, e: Component): (r: Joiner)
    ensures SameSettings(r, j) && r.value.Ref?
    ensures j.value.Null? ==> r.value.deref == Elements(j.prefix) + [e]
    ensures j.value.Ref? ==> r.value.deref == j.value.deref + [j.delimiter, e]
  {
    var p := PrepareBuilder(j);
    p.(value := Ref(Append(p.value.deref, e)))
  }

  /** Adds the elements in order. */
  function AddAll(j: Joiner, es: seq<Component>): (r: Joiner)
    ensures SameSettings(r, j)
    ensures es != [] ==> r.value.Ref?
    decreases |es|
  {
    if es == [] then j
    else Add(AddAll(j, es[..|es| - 1]), es[|es| - 1])
  }

  /** The parts of a builder after the first one: what `merge` copies. */
  function SkipFirst(parts: Builder): Builder
  {
    if parts == [] then [] else parts[1..]
  }

  /** `merge(other)` as written: a null other is a NullPointerException and
      merging a joiner into itself an IllegalArgumentException (`sameObject`
      stands for the reference comparison `other == this`). An empty other
      changes nothing. Otherwise the builder is prepared (delimiter, or prefix
      if this joiner was empty) and every part of other's builder except the
      one at index 0 is appended; other's suffix is never included. */
  function Merge(j: Joiner, other: Nullable<Joiner>, sameObject: bool): (r: Result<Joiner>)
    ensures other.Null? ==> r == Throw(NullPointerException)
    ensures other.Ref? && sameObject ==> r == Throw(IllegalArgumentException)
    ensures other.Ref? && !sameObject && other.deref.value.Null? ==> r == Ok(j)
    ensures other.Ref? && !sameObject && other.deref.value.Ref? ==>
      r.Ok? && SameSettings(r.value, j) && r.value.value.Ref?
    ensures other.Ref? && !sameObject && other.deref.value.Ref? && j.value.Ref? ==>
      r.value.value.deref == j.value.deref + [j.delimiter] + SkipFirst(other.deref.value.deref)
    ensures other.Ref? && !sameObject && other.deref.value.Ref? && j.value.Null? ==>
      r.value.value.deref == Elements(j.prefix) + SkipFirst(other.deref.value.deref)
  {
    if other.Null? then Throw(NullPointerException)
    else if sameObject then Throw(IllegalArgumentException)
    else if other.deref.value.Null? then Ok(j)
    else
      var p := PrepareBuilder(j);
      Ok(p.(value := Ref(AppendAll(p.value.deref, SkipFirst(other.deref.value.deref)))))
  }

  /** The parts of a joiner's builder that it added itself: everything after
      the prefix, or everything when it has no prefix. */
  function OwnParts(o: Joiner): Builder
    requires o.value.Ref?
  {
    if o.prefix.Ref? then SkipFirst(o.value.deref) else o.value.deref
  }

  /** `merge(other)` as its comment says it should behave: skip other's
      prefix, and only when other has one. */
  function MergeIntended(j: Joiner, other: Nullable<Joiner>, sameObject: bool): (r: Result<Joiner>)
    ensures other.Null? ==> r == Throw(NullPointerException)
    ensures other.Ref? && sameObject ==> r == Throw(IllegalArgumentException)
    ensures other.Ref? && !sameObject && other.deref.value.Null? ==> r == Ok(j)
    ensures other.Ref? && !sameObject && other.deref.value.Ref? ==>
      r.Ok? && SameSettings(r.value, j) && r.value.value.Ref?
    ensures other.Ref? && !sameObject && other.deref.value.Ref? && j.value.Ref? ==>
      r.value.value.deref == j.value.deref + [j.delimiter] + OwnParts(other.deref)
    ensures other.Ref? && !sameObject && other.deref.value.Ref? && j.value.Null? ==>
      r.value.value.deref == Elements(j.prefix) + OwnParts(other.deref)
  {
    if other.Null? then Throw(NullPointerException)
    else if sameObject then Throw(IllegalArgumentException)
    else if other.deref.value.Null? then Ok(j)
    else
      var p := PrepareBuilder(j);
      Ok(p.(value := Ref(AppendAll(p.value.deref, OwnParts(other.deref)))))
  }

  lemma {:induction false} InterleaveAppend(xs: seq<Component>, ys: seq<Component>, d: Component)
    requires xs != [] && ys != []
    ensures Interleave(xs + ys, d) == Interleave(xs, d) + [d] + Interleave(ys, d)
    decreases |ys|
  {
    var n := |ys| - 1;
    assert (xs + ys)[..|xs + ys| - 1] == xs + ys[..n];
    assert (xs + ys)[|xs + ys| - 1] == ys[n];
    if n == 0 {
      assert xs + ys[..n] == xs;
    } else {
      InterleaveAppend(xs, ys[..n], d);
    }
  }

  /** Adding e1..en to a fresh joiner builds prefix, e1, d, e2, ..., d, en. */
  lemma {:induction false} AddAllFromEmpty(j: Joiner, es: seq<Component>)
    requires j.value.Null? && es != []
    ensures AddAll(j, es) == j.(value := Ref(Elements(j.prefix) + Interleave(es, j.delimiter)))
    decreases |es|
  {
    var n := |es| - 1;
    if n == 0 {
      assert es[..n] == [];
      assert AddAll(j, es) == Add(j, es[0]);
      assert Interleave(es, j.delimiter) == es == [es[0]];
      assert Add(j, es[0]) == j.(value := Ref(Elements(j.prefix) + [es[0]]));
    } else {
      AddAllFromEmpty(j, es[..n]);
      var before := AddAll(j, es[..n]);
      assert AddAll(j, es) == Add(before, es[n]);
      var p := Elements(j.prefix);
      var front := Interleave(es[..n], j.delimiter);
      assert Interleave(es, j.delimiter) == front + [j.delimiter, es[n]];
      assert Add(before, es[n]).value.deref == p + front + [j.delimiter, es[n]];
      assert p + front + [j.delimiter, es[n]] == p + (front + [j.delimiter, es[n]]);
    }
  }

  /** The `joining(delimiter, prefix, suffix)` collector on a sequential
      stream: a fresh joiner, every element added in encounter order, then
      `create`. Nothing added gives prefix and suffix; otherwise the
      elements, delimited, between them. */
  function Collect(delimiter: Component, prefix: Nullable<Component>, suffix: Nullable<Component>, es: seq<Component>): (r: seq<Component>)
    ensures es == [] ==> r == Elements(prefix) + Elements(suffix)
    ensures es != [] ==> r == Elements(prefix) + Interleave(es, delimiter) + Elements(suffix)
  {
    var j := New(Ref(delimiter), prefix, suffix).value;
    if es != [] then AddAllFromEmpty(j, es); Create(AddAll(j, es)).result
    else Create(AddAll(j, es)).result
  }

  /** A nullable string as the component the `String` collectors make of it. */
  function TextOf(s: Nullable<string>): Nullable<Component>
  {
    match s
    case Null => Null
    case Ref(x) => Ref(Text(x))
  }

  /** `joining(String delimiter, String prefix, String suffix)`: the strings
      become text components (a null prefix or suffix stays absent). */
  function CollectText(delimiter: string, prefix: Nullable<string>, suffix: Nullable<string>, es: seq<Component>): (r: seq<Component>)
    ensures es == [] ==> r == Elements(TextOf(prefix)) + Elements(TextOf(suffix))
    ensures es != [] ==> r == Elements(TextOf(prefix)) + Interleave(es, Text(delimiter)) + Elements(TextOf(suffix))
  {
    Collect(Text(delimiter), TextOf(prefix), TextOf(suffix), es)
  }

  /** `joining(String delimiter)` and `joining(BaseComponent delimiter)`: no
      prefix and no suffix, so just the delimited elements. */
  function CollectDelimited(delimiter: Component, es: seq<Component>): (r: seq<Component>)
    ensures r == Interleave(es, delimiter)
  {
    var r := Collect(delimiter, Null, Null, es);
    assert r == [] + Interleave(es, delimiter) + [];
    r
  }

  /** The `joining()` collector's accumulation: each element appended to a
      fresh builder, in encounter order. */
  function Concatenate(es: seq<Component>): (r: Builder)
    ensures r == es
    decreases |es|
  {
    if es == [] then [] else Append(Concatenate(es[..|es| - 1]), es[|es| - 1])
  }

  /** The `joining()` collector's combiner: every part of the second builder
      appended to the first. */
  method CombineBuilders(r1: Builder, r2: Builder) returns (r: Builder)
    ensures r == r1 + r2
  {
    r := r1;
    var i := 0;
    while i < |r2|
      invariant 0 <= i <= |r2|
      invariant r == r1 + r2[..i]
    {
      r := Append(r, r2[i]);
      i := i + 1;
      assert r2[..i] == r2[..i - 1] + [r2[i - 1]];
    }
    assert r2[..|r2|] == r2;
  }

  /** Creating twice in a row gives the same array, and from then on the
      joiner is as it was. */
  lemma CreateTwice(j: Joiner)
    ensures Create(Create(j).after) == Create(j)
  {
  }

  /** Once an element has been added, the empty value is never returned
      again, whatever is added or set afterwards. */
  lemma AddedJoinerIgnoresEmptyValue(j: Joiner, e: Component, es: seq<Component>, v: seq<Component>)
    ensures var k := AddAll(Add(j, e), es);
      && k.value.Ref?
      && Create(SetEmptyValue(k, Ref(v)).value).result == k.value.deref + Elements(k.suffix)
  {
    var k := AddAll(Add(j, e), es);
    assert k == Add(j, e).(value := k.value);
  }

  /** A fresh joiner creates its prefix followed by its suffix. */
  lemma FreshJoinerCreatesPrefixAndSuffix(delimiter: Component, prefix: Nullable<Component>, suffix: Nullable<Component>)
    ensures Create(New(Ref(delimiter), prefix, suffix).value).result == Elements(prefix) + Elements(suffix)
  {
  }

  /** The parts a joiner built from a non-empty stream added itself are the
      delimited elements. */
  lemma OwnPartsFromEmpty(j: Joiner, es: seq<Component>)
    requires j.value.Null? && es != []
    ensures AddAll(j, es).value.Ref? && OwnParts(AddAll(j, es)) == Interleave(es, j.delimiter)
  {
    AddAllFromEmpty(j, es);
  }

  /** The intended merge makes the collector's combiner sound: merging the
      joiners of two halves of a stream equals joining the whole stream. */
  lemma {:induction false} MergeIntendedCombines(delimiter: Component, prefix: Nullable<Component>, suffix: Nullable<Component>, xs: seq<Component>, ys: seq<Component>)
    ensures var j := New(Ref(delimiter), prefix, suffix).value;
      MergeIntended(AddAll(j, xs), Ref(AddAll(j, ys)), false) == Ok(AddAll(j, xs + ys))
  {
    var j := New(Ref(delimiter), prefix, suffix).value;
    if ys == [] {
      assert xs + ys == xs;
    } else if xs == [] {
      assert xs + ys == ys;
      MergeIntoEmpty(j, ys);
    } else {
      MergeIntoNonEmpty(j, xs, ys);
    }
  }

  lemma MergeIntoEmpty(j: Joiner, ys: seq<Component>)
    requires j.value.Null? && ys != []
    ensures MergeIntended(j, Ref(AddAll(j, ys)), false) == Ok(AddAll(j, ys))
  {
    OwnPartsFromEmpty(j, ys);
    AddAllFromEmpty(j, ys);
  }

  lemma MergeIntoNonEmpty(j: Joiner, xs: seq<Component>, ys: seq<Component>)
    requires j.value.Null? && xs != [] && ys != []
    ensures MergeIntended(AddAll(j, xs), Ref(AddAll(j, ys)), false) == Ok(AddAll(j, xs + ys))
  {
    var p, d := Elements(j.prefix), j.delimiter;
    var ix, iy := Interleave(xs, d), Interleave(ys, d);
    assert AddAll(j, xs) == j.(value := Ref(p + ix)) by {
      AddAllFromEmpty(j, xs);
    }
    assert AddAll(j, ys).value.Ref? && OwnParts(AddAll(j, ys)) == iy by {
      OwnPartsFromEmpty(j, ys);
    }
    assert AddAll(j, xs + ys) == j.(value := Ref(p + (ix + [d] + iy))) by {
      AddAllFromEmpty(j, xs + ys);
      InterleaveAppend(xs, ys, d);
    }
    MergeParts(j, AddAll(j, xs), AddAll(j, ys), AddAll(j, xs + ys), p, ix, iy);
  }

  /** Merging a joiner holding `p + front` with one whose own parts are
      `back` gives `p + front`, the delimiter, then `back`. */
  lemma MergeParts(j: Joiner, left: Joiner, right: Joiner, whole: Joiner, p: Builder, front: Builder, back: Builder)
    requires left == j.(value := Ref(p + front))
    requires right.value.Ref? && OwnParts(right) == back
    requires whole == j.(value := Ref(p + (front + [j.delimiter] + back)))
    ensures MergeIntended(left, Ref(right), false) == Ok(whole)
  {
    assert p + front + [j.delimiter] + back == p + (front + [j.delimiter] + back);
  }

  /** As written, merge is only right when the joiners have a prefix: then
      part 0 of the other builder is that prefix. */
  lemma {:induction false} MergeWithPrefixCombines(delimiter: Component, prefix: Component, suffix: Nullable<Component>, xs: seq<Component>, ys: seq<Component>)
    ensures var j := New(Ref(delimiter), Ref(prefix), suffix).value;
      Merge(AddAll(j, xs), Ref(AddAll(j, ys)), false) == Ok(AddAll(j, xs + ys))
  {
    var j := New(Ref(delimiter), Ref(prefix), suffix).value;
    MergeIntendedCombines(delimiter, Ref(prefix), suffix, xs, ys);
  }

  /** As written, merge loses the first element of a joiner without prefix:
      merging [b] into [a] gives [a, d] where joining [a, b] gives [a, d, b]. */
  lemma MergeWithoutPrefixDropsFirst(delimiter: Component, a: Component, b: Component)
    ensures var j := New(Ref(delimiter), Null, Null).value;
      && Merge(AddAll(j, [a]), Ref(AddAll(j, [b])), false) == Ok(j.(value := Ref([a, delimiter])))
      && AddAll(j, [a, b]) == j.(value := Ref([a, delimiter, b]))
      && Merge(AddAll(j, [a]), Ref(AddAll(j, [b])), false) != Ok(AddAll(j, [a] + [b]))
  {
    var j := New(Ref(delimiter), Null, Null).value;
    AddAllFromEmpty(j, [a]);
    AddAllFromEmpty(j, [b]);
    AddAllFromEmpty(j, [a, b]);
    assert Interleave([a], delimiter) == [a];
    assert Interleave([b], delimiter) == [b];
    assert [a, b][..1] == [a];
    assert Interleave([a, b], delimiter) == [a, delimiter, b];
    assert SkipFirst([b]) == [];
    assert j.prefix == Null && Elements(j.prefix) == [];
    assert Elements(j.prefix) + Interleave([a], delimiter) == [a];
    assert Elements(j.prefix) + Interleave([b], delimiter) == [b];
    assert Elements(j.prefix) + Interleave([a, b], delimiter) == [a, delimiter, b];
    var left := AddAll(j, [a]);
    assert left == j.(value := Ref([a]));
    assert AddAll(j, [b]).value == Ref([b]);
    assert [a] + [delimiter] == [a, delimiter];
    assert PrepareBuilder(left).value == Ref([a, delimiter]);
    assert AddAll(j, [a, b]) == j.(value := Ref([] + [a, delimiter, b]));
    assert [] + [a, delimiter, b] == [a, delimiter, b];
    assert [a] + [b] == [a, b];
    assert [a, delimiter] != [a, delimiter, b];
  }
}
