/** Small concrete streams and what the parse makes of them, with a visitor
    that accepts everything unless stated otherwise. Keys and values are
    single bytes: `a` is 97, `b` 98, `k` 107, `x` 120, `y` 121, and the
    values `1` and `2` are the bytes 49 and 50. */
module Examples {

  import opened Options
  import opened Keys
  import opened Tokens
  import opened Visitors
  import opened Deserializer
  import opened Grammar

  const a: Key := [97]
  const b: Key := [98]
  const k: Key := [107]
  const x: Key := [120]
  const y: Key := [121]
  const one: Value := [49]
  const two: Value := [50]

  /** Visitors that accept every call except an attribute keyed `b`, and
      except the child tag `x`, respectively. */
  const refuseB: Oracle := Oracle((h, key, value) => key != b, (h, key) => true)
  const refuseX: Oracle := Oracle((h, key, value) => true, (h, key) => key != x)

  /** Two attributes in increasing order at the root: both reported, in order. */
  lemma SortedAttributes()
    ensures Parse([Attr(a, one), Attr(b, two)], AcceptAll())
         == Accepted(2, [VisitAttribute(a, one), VisitAttribute(b, two)])
  {
    var ts, v := [Attr(a, one), Attr(b, two)], AcceptAll();
    var h1 := [VisitAttribute(a, one)];
    var h2 := [VisitAttribute(a, one), VisitAttribute(b, two)];
    assert [] + h1 == h1 && h1 + [VisitAttribute(b, two)] == h2;
    assert AcceptAttributes(ts, 2, v, None, b, h2) == Accepted(2, h2);
    assert Less(a, b);
    assert AcceptAttributes(ts, 1, v, None, a, h1) == Accepted(2, h2);
    assert Less([], a);
  }

  /** The same two attributes out of order: abort, and the second is never reported. */
  lemma UnsortedAttributes()
    ensures Parse([Attr(b, two), Attr(a, one)], AcceptAll()) == Aborted(2, [VisitAttribute(b, two)])
  {
    var ts, v := [Attr(b, two), Attr(a, one)], AcceptAll();
    var h1 := [VisitAttribute(b, two)];
    assert [] + h1 == h1;
    assert !Less(b, a);
    assert AcceptAttributes(ts, 1, v, None, b, h1) == Aborted(2, h1);
    assert Less([], b);
  }

  /** A repeated key aborts too: the order is strict. */
  lemma RepeatedKey()
    ensures Parse([Attr(a, one), Attr(a, two)], AcceptAll()) == Aborted(2, [VisitAttribute(a, one)])
  {
    var ts, v := [Attr(a, one), Attr(a, two)], AcceptAll();
    var h1 := [VisitAttribute(a, one)];
    assert [] + h1 == h1;
    LessIrreflexive(a);
    assert AcceptAttributes(ts, 1, v, None, a, h1) == Aborted(2, h1);
    assert Less([], a);
  }

  /** An attribute with the empty key is never accepted first: the cursor's
      last key starts out as the empty key itself. */
  lemma EmptyKeyFirst()
    ensures Parse([Attr([], one)], AcceptAll()) == Aborted(1, [])
  {
    assert !Less([], []);
  }

  /** A child with one attribute, closed by its own key. */
  lemma OneChild()
    ensures Parse([Open(x), Attr(k, one), Close(x)], AcceptAll())
         == Accepted(3, [StartChildren, VisitChild(x), VisitAttribute(k, one)])
  {
    var ts, v := [Open(x), Attr(k, one), Close(x)], AcceptAll();
    var h1 := [StartChildren];
    var h2 := [StartChildren, VisitChild(x)];
    var h3 := [StartChildren, VisitChild(x), VisitAttribute(k, one)];
    assert [] + h1 == h1 && h1 + [VisitChild(x)] == h2 && h2 + [VisitAttribute(k, one)] == h3;
    assert AcceptAttributes(ts, 2, v, Some(x), k, h3) == Accepted(3, h3);
    assert Less([], k);
    assert AcceptAttributes(ts, 1, v, Some(x), [], h2) == Accepted(3, h3);
    assert AcceptChild(ts, 1, x, v, h1) == Accepted(3, h3);
    assert ChildrenLoop(ts, 3, v, None, h3) == Accepted(3, h3);
    assert AcceptChildren(ts, 1, x, v, None, h1) == Accepted(3, h3);
  }

  /** A close tag with another key aborts. */
  lemma MismatchedClose()
    ensures Parse([Open(x), Close(y)], AcceptAll()) == Aborted(2, [StartChildren, VisitChild(x)])
  {
    var ts, v := [Open(x), Close(y)], AcceptAll();
    var h1 := [StartChildren];
    var h2 := [StartChildren, VisitChild(x)];
    assert [] + h1 == h1 && h1 + [VisitChild(x)] == h2;
    assert x != y;
    assert AcceptAttributes(ts, 1, v, Some(x), [], h2) == Aborted(2, h2);
    assert AcceptChild(ts, 1, x, v, h1) == Aborted(2, h2);
    assert AcceptChildren(ts, 1, x, v, None, h1) == Aborted(2, h2);
  }

  /** An attribute inside a child is that child's own, and is accepted. */
  lemma AttributeInsideChild()
    ensures Parse([Attr(a, one), Open(x), Attr(b, two), Close(x)], AcceptAll())
         == Accepted(4, [VisitAttribute(a, one), StartChildren, VisitChild(x), VisitAttribute(b, two)])
  {
    var ts, v := [Attr(a, one), Open(x), Attr(b, two), Close(x)], AcceptAll();
    var h1 := [VisitAttribute(a, one)];
    var h2 := [VisitAttribute(a, one), StartChildren];
    var h3 := [VisitAttribute(a, one), StartChildren, VisitChild(x)];
    var h4 := [VisitAttribute(a, one), StartChildren, VisitChild(x), VisitAttribute(b, two)];
    assert [] + h1 == h1 && h1 + [StartChildren] == h2 && h2 + [VisitChild(x)] == h3;
    assert h3 + [VisitAttribute(b, two)] == h4;
    assert AcceptAttributes(ts, 3, v, Some(x), b, h4) == Accepted(4, h4);
    assert Less([], b);
    assert AcceptAttributes(ts, 2, v, Some(x), [], h3) == Accepted(4, h4);
    assert AcceptChild(ts, 2, x, v, h2) == Accepted(4, h4);
    assert ChildrenLoop(ts, 4, v, None, h4) == Accepted(4, h4);
    assert AcceptChildren(ts, 2, x, v, None, h2) == Accepted(4, h4);
    assert AcceptAttributes(ts, 1, v, None, a, h1) == Accepted(4, h4);
    assert Less([], a);
  }

  /** Back at the root after a child, a further attribute aborts. */
  lemma AttributeAfterChild()
    ensures Parse([Attr(a, one), Open(x), Close(x), Attr(b, two)], AcceptAll())
         == Aborted(4, [VisitAttribute(a, one), StartChildren, VisitChild(x)])
  {
    var ts, v := [Attr(a, one), Open(x), Close(x), Attr(b, two)], AcceptAll();
    var h1 := [VisitAttribute(a, one)];
    var h2 := [VisitAttribute(a, one), StartChildren];
    var h3 := [VisitAttribute(a, one), StartChildren, VisitChild(x)];
    assert [] + h1 == h1 && h1 + [StartChildren] == h2 && h2 + [VisitChild(x)] == h3;
    assert AcceptAttributes(ts, 2, v, Some(x), [], h3) == Accepted(3, h3);
    assert AcceptChild(ts, 2, x, v, h2) == Accepted(3, h3);
    assert ChildrenLoop(ts, 3, v, None, h3) == Aborted(4, h3);
    assert AcceptChildren(ts, 2, x, v, None, h2) == Aborted(4, h3);
    assert AcceptAttributes(ts, 1, v, None, a, h1) == Aborted(4, h3);
    assert Less([], a);
  }

  /** The empty stream is the empty document. */
  lemma EmptyStream()
    ensures Parse([], AcceptAll()) == Accepted(0, [])
  {
  }

  /** A close tag at the root always aborts, and so does a stream that ends
      inside an open child. */
  lemma CloseAtRoot()
    ensures Parse([Close(x)], AcceptAll()) == Aborted(1, [])
    ensures Parse([Open(x)], AcceptAll()) == Aborted(1, [StartChildren, VisitChild(x)])
  {
    var ts, v := [Open(x)], AcceptAll();
    var h2 := [StartChildren, VisitChild(x)];
    assert [] + [StartChildren] == [StartChildren] && [StartChildren] + [VisitChild(x)] == h2;
    assert AcceptChild(ts, 1, x, v, [StartChildren]) == Aborted(1, h2);
    assert AcceptChildren(ts, 1, x, v, None, [StartChildren]) == Aborted(1, h2);
  }

  /** A visitor that refuses the attribute `b`: the parse aborts right after
      it, and the attribute after it is neither read nor reported. */
  lemma RefusedAttribute()
    ensures Parse([Attr(a, one), Attr(b, two), Attr(k, one)], refuseB)
         == Aborted(2, [VisitAttribute(a, one), VisitAttribute(b, two)])
  {
    var v := refuseB;
    var ts := [Attr(a, one), Attr(b, two), Attr(k, one)];
    var h1 := [VisitAttribute(a, one)];
    var h2 := [VisitAttribute(a, one), VisitAttribute(b, two)];
    assert [] + h1 == h1 && h1 + [VisitAttribute(b, two)] == h2;
    assert Less(a, b) && !v.visitAttribute(h1, b, two);
    assert AcceptAttributes(ts, 1, v, None, a, h1) == Aborted(2, h2);
    assert Less([], a) && a != b;
  }

  /** A visitor that refuses the child tag `x`: abort right after its `Open`. */
  lemma RefusedChild()
    ensures Parse([Open(x), Close(x)], refuseX) == Aborted(1, [StartChildren, VisitChild(x)])
  {
    var v := refuseX;
    var ts := [Open(x), Close(x)];
    var h2 := [StartChildren, VisitChild(x)];
    assert [] + [StartChildren] == [StartChildren] && [StartChildren] + [VisitChild(x)] == h2;
    assert AcceptChild(ts, 1, x, v, [StartChildren]) == Aborted(1, h2);
    assert AcceptChildren(ts, 1, x, v, None, [StartChildren]) == Aborted(1, h2);
  }

  /** The tree behind the stream of `AttributeInsideChild`. */
  lemma TreeOfAttributeInsideChild()
    ensures var n := Node([Attribute(a, one)], [Element(x, Node([Attribute(b, two)], []))]);
            WellFormed(n) && NodeTokens(n) == [Attr(a, one), Open(x), Attr(b, two), Close(x)]
  {
    var inner := Node([Attribute(b, two)], []);
    var e := Element(x, inner);
    var n := Node([Attribute(a, one)], [e]);
    assert Less([], a) && Less([], b);
    assert SortedAbove([Attribute(b, two)][1..], b);
    assert SortedAbove([Attribute(a, one)][1..], a);
    assert WellFormed(inner);
    assert ChildrenWellFormed([e]);
    assert AttrTokens([Attribute(b, two)]) == [Attr(b, two)];
    assert NodeTokens(inner) == [Attr(b, two)];
    assert ElementTokens(e) == [Open(x), Attr(b, two), Close(x)];
    assert [e][1..] == [];
    assert ChildrenTokens([e]) == ElementTokens(e) + ChildrenTokens([]);
    assert AttrTokens([Attribute(a, one)]) == [Attr(a, one)];
  }
}
