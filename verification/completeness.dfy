/** Whatever a cursor accepts is a well-formed tree: the tokens it consumed
    spell that tree (and then the node's close tag, if it has one), the visitor
    calls it made are exactly that tree's calls, and the visitor admitted each
    of them. Each lemma follows one cursor and builds the tree it read. */
module Completeness {

  import opened Options
  import opened Keys
  import opened Tokens
  import opened Visitors
  import opened Deserializer
  import opened Grammar
  import opened Consumption

  /** The attribute cursor accepted: it read a node and, unless at the root,
      the node's close tag. */
  lemma {:induction false} AttributesComplete(ts: seq<Token>, pos: nat, v: Oracle, outer: Option<Key>, low: Key, tr: History)
    returns (n: Node)
    requires pos <= |ts| && AcceptAttributes(ts, pos, v, outer, low, tr).Accepted?
    ensures SortedAbove(n.attrs, low) && ChildrenWellFormed(n.children)
    ensures At(ts, pos, NodeTokens(n) + CloseTokens(outer))
    ensures AcceptAttributes(ts, pos, v, outer, low, tr)
         == Accepted(pos + |NodeTokens(n)| + |CloseTokens(outer)|, tr + NodeEvents(n))
    ensures Admits(v, tr, NodeEvents(n))
    decreases |ts| - pos, 3
  {
    if pos < |ts| && ts[pos].Attr? {
      n := AttributeRead(ts, pos, v, outer, low, tr);
    } else if pos < |ts| && ts[pos].Open? {
      n := ChildrenRead(ts, pos, v, outer, low, tr);
    } else {
      n := Node([], []);
      NodeBoundary(ts, pos, v, outer, low, tr);
    }
  }

  /** An accepted attribute, then the rest of the node. */
  lemma {:induction false} AttributeRead(ts: seq<Token>, pos: nat, v: Oracle, outer: Option<Key>, low: Key, tr: History)
    returns (n: Node)
    requires pos < |ts| && ts[pos].Attr? && AcceptAttributes(ts, pos, v, outer, low, tr).Accepted?
    ensures SortedAbove(n.attrs, low) && ChildrenWellFormed(n.children)
    ensures At(ts, pos, NodeTokens(n) + CloseTokens(outer))
    ensures AcceptAttributes(ts, pos, v, outer, low, tr)
         == Accepted(pos + |NodeTokens(n)| + |CloseTokens(outer)|, tr + NodeEvents(n))
    ensures Admits(v, tr, NodeEvents(n))
    decreases |ts| - pos, 2
  {
    var k, x := ts[pos].key, ts[pos].value;
    assert Less(low, k) && v.visitAttribute(tr, k, x);
    AttributeStep(ts, pos, k, x, v, outer, low, tr);
    var m := AttributesComplete(ts, pos + 1, v, outer, k, tr + [VisitAttribute(k, x)]);
    n := Node([Attribute(k, x)] + m.attrs, m.children);
    ConsAttribute(ts, pos, k, x, m, v, outer, low, tr, AcceptAttributes(ts, pos, v, outer, low, tr));
  }

  /** The node's first `Open`: the children cursor takes over at that token. */
  lemma {:induction false} ChildrenRead(ts: seq<Token>, pos: nat, v: Oracle, outer: Option<Key>, low: Key, tr: History)
    returns (n: Node)
    requires pos < |ts| && ts[pos].Open? && AcceptAttributes(ts, pos, v, outer, low, tr).Accepted?
    ensures n.attrs == [] && ChildrenWellFormed(n.children)
    ensures At(ts, pos, NodeTokens(n) + CloseTokens(outer))
    ensures AcceptAttributes(ts, pos, v, outer, low, tr)
         == Accepted(pos + |NodeTokens(n)| + |CloseTokens(outer)|, tr + NodeEvents(n))
    ensures Admits(v, tr, NodeEvents(n))
    decreases |ts| - pos, 2
  {
    HandOff(ts, pos, ts[pos].key, v, outer, low, tr);
    var cs := ChildrenLoopComplete(ts, pos, v, outer, tr + [StartChildren]);
    n := Node([], cs);
    ChildrenOnly(ts, pos, cs, v, outer, tr, AcceptAttributes(ts, pos, v, outer, low, tr));
  }

  /** The attribute cursor accepts at a token that is neither an attribute nor
      an `Open`: the node ends there, empty. */
  lemma {:induction false} NodeBoundary(ts: seq<Token>, pos: nat, v: Oracle, outer: Option<Key>, low: Key, tr: History)
    requires pos <= |ts| && AcceptAttributes(ts, pos, v, outer, low, tr).Accepted?
    requires !(pos < |ts| && (ts[pos].Attr? || ts[pos].Open?))
    ensures At(ts, pos, NodeTokens(Node([], [])) + CloseTokens(outer))
    ensures AcceptAttributes(ts, pos, v, outer, low, tr)
         == Accepted(pos + |NodeTokens(Node([], []))| + |CloseTokens(outer)|, tr + NodeEvents(Node([], [])))
  {
    assert NodeTokens(Node([], [])) == [] by {
      assert AttrTokens([]) == [] && ChildrenTokens([]) == [];
    }
    assert NodeEvents(Node([], [])) == [] by {
      assert AttrEvents([]) == [];
    }
    assert [] + CloseTokens(outer) == CloseTokens(outer);
    assert tr + [] == tr;
    if pos < |ts| {
      AtSingle(ts, pos, ts[pos]);
    }
  }

  /** The children cursor accepted: it read a run of children and then the
      node's boundary. */
  lemma {:induction false} ChildrenLoopComplete(ts: seq<Token>, pos: nat, v: Oracle, outer: Option<Key>, tr: History)
    returns (cs: seq<Element>)
    requires pos <= |ts| && ChildrenLoop(ts, pos, v, outer, tr).Accepted?
    ensures ChildrenWellFormed(cs) && (pos < |ts| && ts[pos].Open? ==> |cs| > 0)
    ensures At(ts, pos, ChildrenTokens(cs) + CloseTokens(outer))
    ensures ChildrenLoop(ts, pos, v, outer, tr)
         == Accepted(pos + |ChildrenTokens(cs)| + |CloseTokens(outer)|, tr + ChildrenEvents(cs))
    ensures Admits(v, tr, ChildrenEvents(cs))
    decreases |ts| - pos, 1
  {
    if pos < |ts| && ts[pos].Open? {
      cs := ChildThenRest(ts, pos, v, outer, tr);
    } else {
      cs := [];
      LoopBoundary(ts, pos, v, outer, tr);
    }
  }

  /** One accepted child, then the rest of the children. */
  lemma {:induction false} ChildThenRest(ts: seq<Token>, pos: nat, v: Oracle, outer: Option<Key>, tr: History)
    returns (cs: seq<Element>)
    requires pos < |ts| && ts[pos].Open? && ChildrenLoop(ts, pos, v, outer, tr).Accepted?
    ensures ChildrenWellFormed(cs) && |cs| > 0
    ensures At(ts, pos, ChildrenTokens(cs) + CloseTokens(outer))
    ensures ChildrenLoop(ts, pos, v, outer, tr)
         == Accepted(pos + |ChildrenTokens(cs)| + |CloseTokens(outer)|, tr + ChildrenEvents(cs))
    ensures Admits(v, tr, ChildrenEvents(cs))
    decreases |ts| - pos, 0
  {
    var k := ts[pos].key;
    var e := ChildComplete(ts, pos + 1, k, v, tr);
    var next, h := pos + 1 + |NodeTokens(e.body)| + 1, tr + ElementEvents(e);
    ChildStep(ts, pos, k, v, outer, tr, next, h);
    var rest := ChildrenLoopComplete(ts, next, v, outer, h);
    cs := [e] + rest;
    ConsChild(ts, pos, e, rest, v, outer, tr, ChildrenLoop(ts, pos, v, outer, tr));
  }

  /** The children cursor accepts at a token that opens no further child: the
      node ends there, with no more children. */
  lemma {:induction false} LoopBoundary(ts: seq<Token>, pos: nat, v: Oracle, outer: Option<Key>, tr: History)
    requires pos <= |ts| && ChildrenLoop(ts, pos, v, outer, tr).Accepted?
    requires !(pos < |ts| && ts[pos].Open?)
    ensures At(ts, pos, ChildrenTokens([]) + CloseTokens(outer))
    ensures ChildrenLoop(ts, pos, v, outer, tr)
         == Accepted(pos + |ChildrenTokens([])| + |CloseTokens(outer)|, tr + ChildrenEvents([]))
  {
    assert ChildrenTokens([]) == [] && ChildrenEvents([]) == [];
    assert [] + CloseTokens(outer) == CloseTokens(outer);
    assert tr + [] == tr;
    if pos < |ts| {
      AtSingle(ts, pos, ts[pos]);
    }
  }

  /** `accept_child` accepted: the child's tag was admitted and its body read
      up to its close tag. */
  lemma {:induction false} ChildComplete(ts: seq<Token>, pos: nat, k: Key, v: Oracle, tr: History) returns (e: Element)
    requires pos <= |ts| && AcceptChild(ts, pos, k, v, tr).Accepted?
    ensures e.tag == k && ElementWellFormed(e)
    ensures At(ts, pos, NodeTokens(e.body) + [Close(k)])
    ensures AcceptChild(ts, pos, k, v, tr) == Accepted(pos + |NodeTokens(e.body)| + 1, tr + ElementEvents(e))
    ensures Admits(v, tr, ElementEvents(e))
    decreases |ts| - pos, 4
  {
    var b := AttributesComplete(ts, pos, v, Some(k), [], tr + [VisitChild(k)]);
    e := Element(k, b);
    AppendAssoc(tr, [VisitChild(k)], NodeEvents(b));
    AdmitsCons(v, tr, VisitChild(k), NodeEvents(b));
  }

  /** Gluing one attribute read at `pos` in front of the node read after it:
      `r`, the outcome after the rest, is the outcome after them all. */
  lemma {:induction false} ConsAttribute(ts: seq<Token>, pos: nat, k: Key, x: Value, m: Node, v: Oracle,
                                         outer: Option<Key>, low: Key, tr: History, r: Outcome)
    requires pos < |ts| && ts[pos] == Attr(k, x)
    requires At(ts, pos + 1, NodeTokens(m) + CloseTokens(outer))
    requires Less(low, k) && SortedAbove(m.attrs, k)
    requires v.visitAttribute(tr, k, x) && Admits(v, tr + [VisitAttribute(k, x)], NodeEvents(m))
    requires r == Accepted(pos + 1 + |NodeTokens(m)| + |CloseTokens(outer)|, tr + [VisitAttribute(k, x)] + NodeEvents(m))
    ensures var n := Node([Attribute(k, x)] + m.attrs, m.children);
            && SortedAbove(n.attrs, low)
            && At(ts, pos, NodeTokens(n) + CloseTokens(outer))
            && r == Accepted(pos + |NodeTokens(n)| + |CloseTokens(outer)|, tr + NodeEvents(n))
            && Admits(v, tr, NodeEvents(n))
  {
    var n := Node([Attribute(k, x)] + m.attrs, m.children);
    var ev := VisitAttribute(k, x);
    assert n.attrs[0].key == k && n.attrs[1..] == m.attrs;
    assert NodeTokens(n) == [Attr(k, x)] + NodeTokens(m) by {
      assert AttrTokens(n.attrs) == [Attr(k, x)] + AttrTokens(m.attrs);
      AppendAssoc([Attr(k, x)], AttrTokens(m.attrs), ChildrenTokens(m.children));
    }
    var tail := if |m.children| == 0 then [] else [StartChildren] + ChildrenEvents(m.children);
    assert NodeEvents(n) == [ev] + NodeEvents(m) by {
      assert AttrEvents(n.attrs) == [ev] + AttrEvents(m.attrs);
      AppendAssoc([ev], AttrEvents(m.attrs), tail);
    }
    AppendAssoc([Attr(k, x)], NodeTokens(m), CloseTokens(outer));
    AtAppend(ts, pos, [Attr(k, x)], NodeTokens(m) + CloseTokens(outer));
    AtSingle(ts, pos, Attr(k, x));
    AppendAssoc(tr, [ev], NodeEvents(m));
    AdmitsCons(v, tr, ev, NodeEvents(m));
  }

  /** A node with no attributes is its children: `r`, the outcome after the
      children cursor, is the outcome after the node. */
  lemma {:induction false} ChildrenOnly(ts: seq<Token>, pos: nat, cs: seq<Element>, v: Oracle, outer: Option<Key>,
                                        tr: History, r: Outcome)
    requires At(ts, pos, ChildrenTokens(cs) + CloseTokens(outer))
    requires Admits(v, tr + [StartChildren], ChildrenEvents(cs))
    requires r == Accepted(pos + |ChildrenTokens(cs)| + |CloseTokens(outer)|, tr + [StartChildren] + ChildrenEvents(cs))
    requires |cs| > 0
    ensures var n := Node([], cs);
            && At(ts, pos, NodeTokens(n) + CloseTokens(outer))
            && r == Accepted(pos + |NodeTokens(n)| + |CloseTokens(outer)|, tr + NodeEvents(n))
            && Admits(v, tr, NodeEvents(n))
  {
    var n := Node([], cs);
    assert NodeTokens(n) == ChildrenTokens(cs) by {
      assert AttrTokens([]) == [];
    }
    assert NodeEvents(n) == [StartChildren] + ChildrenEvents(cs) by {
      assert AttrEvents([]) == [];
    }
    AppendAssoc(tr, [StartChildren], ChildrenEvents(cs));
    AdmitsCons(v, tr, StartChildren, ChildrenEvents(cs));
  }

  lemma {:induction false} ConsWellFormed(e: Element, rest: seq<Element>)
    requires ElementWellFormed(e) && ChildrenWellFormed(rest)
    ensures ChildrenWellFormed([e] + rest)
  {
    var cs := [e] + rest;
    forall i | 0 <= i < |cs|
      ensures ElementWellFormed(cs[i])
    {
      if i > 0 {
        assert cs[i] == rest[i - 1];
      }
    }
  }

  /** Gluing one element read at `pos` in front of the children read after
      it: `r`, the outcome after the rest, is the outcome after them all. */
  lemma {:induction false} ConsChild(ts: seq<Token>, pos: nat, e: Element, rest: seq<Element>, v: Oracle,
                                     outer: Option<Key>, tr: History, r: Outcome)
    requires pos < |ts| && ts[pos] == Open(e.tag)
    requires ElementWellFormed(e) && Admits(v, tr, ElementEvents(e))
    requires At(ts, pos + 1, NodeTokens(e.body) + [Close(e.tag)])
    requires ChildrenWellFormed(rest) && Admits(v, tr + ElementEvents(e), ChildrenEvents(rest))
    requires At(ts, pos + 1 + |NodeTokens(e.body)| + 1, ChildrenTokens(rest) + CloseTokens(outer))
    requires r == Accepted(pos + 1 + |NodeTokens(e.body)| + 1 + |ChildrenTokens(rest)| + |CloseTokens(outer)|,
                           tr + ElementEvents(e) + ChildrenEvents(rest))
    ensures ChildrenWellFormed([e] + rest) && Admits(v, tr, ChildrenEvents([e] + rest))
    ensures At(ts, pos, ChildrenTokens([e] + rest) + CloseTokens(outer))
    ensures r == Accepted(pos + |ChildrenTokens([e] + rest)| + |CloseTokens(outer)|, tr + ChildrenEvents([e] + rest))
  {
    var cs := [e] + rest;
    assert cs[0] == e && cs[1..] == rest;
    var k := e.tag;
    var body := NodeTokens(e.body) + [Close(k)];
    var after := ChildrenTokens(rest) + CloseTokens(outer);
    assert ChildrenTokens(cs) == ElementTokens(e) + ChildrenTokens(rest);
    assert ChildrenTokens(cs) + CloseTokens(outer) == [Open(k)] + body + after by {
      AppendAssoc([Open(k)], NodeTokens(e.body), [Close(k)]);
      AppendAssoc(ElementTokens(e), ChildrenTokens(rest), CloseTokens(outer));
    }
    assert At(ts, pos, [Open(k)] + body) by {
      AtSingle(ts, pos, Open(k));
      AtAppend(ts, pos, [Open(k)], body);
    }
    AtAppend(ts, pos, [Open(k)] + body, after);
    ConsWellFormed(e, rest);
    assert ChildrenEvents(cs) == ElementEvents(e) + ChildrenEvents(rest);
    AppendAssoc(tr, ElementEvents(e), ChildrenEvents(rest));
    AdmitsAppend(v, tr, ElementEvents(e), ChildrenEvents(rest));
  }
}
