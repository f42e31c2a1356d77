/** How the cursors consume well-formed input: a sorted run of attributes, a
    child element, a run of children and a whole node are each read to their
    end, with exactly their visitor calls, before the next token is looked at;
    and what the token after a node then decides. */
module Consumption {

  import opened Options
  import opened Keys
  import opened Tokens
  import opened Visitors
  import opened Deserializer
  import opened Grammar

  /** At the first `Open`, the attribute cursor calls `start_children` and
      then behaves exactly as the children cursor does on any later `Open`. */
  lemma {:induction false} HandOff(ts: seq<Token>, pos: nat, k: Key, v: Oracle, outer: Option<Key>, low: Key, tr: History)
    requires pos < |ts| && ts[pos] == Open(k)
    ensures AcceptAttributes(ts, pos, v, outer, low, tr) == ChildrenLoop(ts, pos, v, outer, tr + [StartChildren])
  {
  }

  /** One attribute that passes the ordering check and the visitor. */
  lemma {:induction false} AttributeStep(ts: seq<Token>, pos: nat, k: Key, x: Value, v: Oracle, outer: Option<Key>, low: Key, tr: History)
    requires pos < |ts| && ts[pos] == Attr(k, x)
    requires Less(low, k) && v.visitAttribute(tr, k, x)
    ensures AcceptAttributes(ts, pos, v, outer, low, tr)
         == AcceptAttributes(ts, pos + 1, v, outer, k, tr + [VisitAttribute(k, x)])
  {
  }

  /** A run of attributes with strictly increasing keys, each admitted by the
      visitor, is read one after the other, each reported once and in order. */
  lemma {:induction false} AttributesConsumed(ts: seq<Token>, pos: nat, attrs: seq<Attribute>, v: Oracle,
                                              outer: Option<Key>, low: Key, tr: History)
    requires At(ts, pos, AttrTokens(attrs))
    requires SortedAbove(attrs, low) && Admits(v, tr, AttrEvents(attrs))
    ensures AcceptAttributes(ts, pos, v, outer, low, tr)
         == AcceptAttributes(ts, pos + |attrs|, v, outer, LastKey(attrs, low), tr + AttrEvents(attrs))
    decreases |attrs|
  {
    if |attrs| == 0 {
      assert tr + AttrEvents(attrs) == tr;
    } else {
      var a, rest := attrs[0], attrs[1..];
      var ev := VisitAttribute(a.key, a.value);
      assert ts[pos] == Attr(a.key, a.value) && At(ts, pos + 1, AttrTokens(rest)) by {
        AtAppend(ts, pos, [Attr(a.key, a.value)], AttrTokens(rest));
        AtSingle(ts, pos, Attr(a.key, a.value));
      }
      assert v.visitAttribute(tr, a.key, a.value) && Admits(v, tr + [ev], AttrEvents(rest)) by {
        AdmitsCons(v, tr, ev, AttrEvents(rest));
      }
      AttributeStep(ts, pos, a.key, a.value, v, outer, low, tr);
      AttributesConsumed(ts, pos + 1, rest, v, outer, a.key, tr + [ev]);
      assert LastKey(rest, a.key) == LastKey(attrs, low);
      assert AttrEvents(attrs) == [ev] + AttrEvents(rest);
      AppendAssoc(tr, [ev], AttrEvents(rest));
    }
  }

  /** After a sorted, admitted run of attributes, the next attribute `(k, x)`:
      if `k` is not strictly above the previous key (a duplicate or an
      out-of-order key) the parse aborts at once, before the visitor sees it;
      if the visitor rejects it, the parse aborts right after that call;
      otherwise it becomes the new last key. */
  lemma {:induction false} NextAttribute(ts: seq<Token>, pos: nat, attrs: seq<Attribute>, k: Key, x: Value, v: Oracle,
                      outer: Option<Key>, low: Key, tr: History)
    requires At(ts, pos, AttrTokens(attrs) + [Attr(k, x)])
    requires SortedAbove(attrs, low) && Admits(v, tr, AttrEvents(attrs))
    ensures var p := pos + |attrs| + 1;
            var h := tr + AttrEvents(attrs);
            var r := AcceptAttributes(ts, pos, v, outer, low, tr);
            && (!Less(LastKey(attrs, low), k) ==> r == Aborted(p, h))
            && (Less(LastKey(attrs, low), k) && !v.visitAttribute(h, k, x) ==>
                  r == Aborted(p, h + [VisitAttribute(k, x)]))
            && (Less(LastKey(attrs, low), k) && v.visitAttribute(h, k, x) ==>
                  r == AcceptAttributes(ts, p, v, outer, k, h + [VisitAttribute(k, x)]))
  {
    AtAppend(ts, pos, AttrTokens(attrs), [Attr(k, x)]);
    AtSingle(ts, pos + |attrs|, Attr(k, x));
    AttributesConsumed(ts, pos, attrs, v, outer, low, tr);
  }

  /** A fresh cursor's last key is empty and the check is `last_key >= key`,
      so a first attribute with the empty key aborts without a visitor call,
      and any other first key passes the ordering check. */
  lemma {:induction false} FirstAttribute(ts: seq<Token>, pos: nat, k: Key, x: Value, v: Oracle, outer: Option<Key>, tr: History)
    requires pos < |ts| && ts[pos] == Attr(k, x)
    ensures var r := AcceptAttributes(ts, pos, v, outer, [], tr);
            var h := tr + [VisitAttribute(k, x)];
            && (k == [] ==> r == Aborted(pos + 1, tr))
            && (k != [] && !v.visitAttribute(tr, k, x) ==> r == Aborted(pos + 1, h))
            && (k != [] && v.visitAttribute(tr, k, x) ==> r == AcceptAttributes(ts, pos + 1, v, outer, k, h))
  {
    EmptyIsLeast(k);
  }

  /** A well-formed child element whose calls the visitor admits is read up to
      and including its matching close tag, whatever follows it. */
  lemma {:induction false} ElementConsumed(ts: seq<Token>, pos: nat, e: Element, v: Oracle, tr: History)
    requires ElementWellFormed(e) && Admits(v, tr, ElementEvents(e))
    requires At(ts, pos, NodeTokens(e.body) + [Close(e.tag)])
    ensures AcceptChild(ts, pos, e.tag, v, tr) == Accepted(pos + |NodeTokens(e.body)| + 1, tr + ElementEvents(e))
    decreases e, 0, 0, 0
  {
    var end := pos + |NodeTokens(e.body)|;
    AdmitsCons(v, tr, VisitChild(e.tag), NodeEvents(e.body));
    AtAppend(ts, pos, NodeTokens(e.body), [Close(e.tag)]);
    AtSingle(ts, end, Close(e.tag));
    AfterNode(ts, pos, e.body, v, Some(e.tag), [], tr + [VisitChild(e.tag)]);
    AppendAssoc(tr, [VisitChild(e.tag)], NodeEvents(e.body));
  }

  /** What the token after a well-formed node decides. End of stream: success
      exactly at the root. `Close(k)`: success exactly when `k` is the
      enclosing open key, whichever cursor is reading. An attribute once the
      node has children: abort, whatever its key. In each case nothing after
      that token is read and the visitor saw exactly the node's calls. */
  lemma {:induction false} AfterNode(ts: seq<Token>, pos: nat, n: Node, v: Oracle, outer: Option<Key>, low: Key, tr: History)
    requires SortedAbove(n.attrs, low) && ChildrenWellFormed(n.children)
    requires Admits(v, tr, NodeEvents(n)) && At(ts, pos, NodeTokens(n))
    ensures var end := pos + |NodeTokens(n)|;
            var r := AcceptAttributes(ts, pos, v, outer, low, tr);
            var h := tr + NodeEvents(n);
            && (end == |ts| ==> r.pos == end && r.trace == h && (r.Accepted? <==> outer.None?))
            && (end < |ts| && ts[end].Close? ==>
                  r.pos == end + 1 && r.trace == h && (r.Accepted? <==> outer == Some(ts[end].key)))
            && (end < |ts| && ts[end].Attr? && |n.children| > 0 ==> r == Aborted(end + 1, h))
    decreases n, 4, 0, 0
  {
    NodeConsumed(ts, pos, n, v, outer, low, tr);
  }

  /** A well-formed node whose calls the visitor admits is read to its end;
      the parse then continues in attribute mode if the node has no children
      and in children mode if it has some. */
  lemma {:induction false} NodeConsumed(ts: seq<Token>, pos: nat, n: Node, v: Oracle, outer: Option<Key>, low: Key, tr: History)
    requires SortedAbove(n.attrs, low) && ChildrenWellFormed(n.children)
    requires Admits(v, tr, NodeEvents(n)) && At(ts, pos, NodeTokens(n))
    ensures |n.children| == 0 ==>
              AcceptAttributes(ts, pos, v, outer, low, tr)
              == AcceptAttributes(ts, pos + |NodeTokens(n)|, v, outer, LastKey(n.attrs, low), tr + NodeEvents(n))
    ensures |n.children| > 0 ==>
              AcceptAttributes(ts, pos, v, outer, low, tr)
              == ChildrenLoop(ts, pos + |NodeTokens(n)|, v, outer, tr + NodeEvents(n))
    decreases n, 3, 0, 1
  {
    if |n.children| == 0 {
      LeafConsumed(ts, pos, n, v, outer, low, tr);
    } else {
      InnerConsumed(ts, pos, n, v, outer, low, tr);
    }
  }

  /** A node's tokens are its attributes' then its children's, and so are its
      calls, with `start_children` between them when it has children. */
  lemma {:induction false} NodeParts(ts: seq<Token>, pos: nat, n: Node, v: Oracle, tr: History)
    requires Admits(v, tr, NodeEvents(n)) && At(ts, pos, NodeTokens(n))
    ensures At(ts, pos, AttrTokens(n.attrs)) && At(ts, pos + |n.attrs|, ChildrenTokens(n.children))
    ensures Admits(v, tr, AttrEvents(n.attrs))
    ensures |n.children| == 0 ==> Admits(v, tr + AttrEvents(n.attrs), [])
    ensures |n.children| > 0 ==> Admits(v, tr + AttrEvents(n.attrs), [StartChildren] + ChildrenEvents(n.children))
  {
    var tail := if |n.children| == 0 then [] else [StartChildren] + ChildrenEvents(n.children);
    AtAppend(ts, pos, AttrTokens(n.attrs), ChildrenTokens(n.children));
    AdmitsAppend(v, tr, AttrEvents(n.attrs), tail);
  }

  /** A node without children is its run of attributes. */
  lemma {:induction false} LeafConsumed(ts: seq<Token>, pos: nat, n: Node, v: Oracle, outer: Option<Key>, low: Key, tr: History)
    requires |n.children| == 0 && SortedAbove(n.attrs, low)
    requires Admits(v, tr, NodeEvents(n)) && At(ts, pos, NodeTokens(n))
    ensures AcceptAttributes(ts, pos, v, outer, low, tr)
         == AcceptAttributes(ts, pos + |NodeTokens(n)|, v, outer, LastKey(n.attrs, low), tr + NodeEvents(n))
  {
    NodeParts(ts, pos, n, v, tr);
    assert NodeTokens(n) == AttrTokens(n.attrs) by {
      assert ChildrenTokens(n.children) == [];
    }
    assert NodeEvents(n) == AttrEvents(n.attrs);
    AttributesConsumed(ts, pos, n.attrs, v, outer, low, tr);
  }

  /** The parts of a node with children, as `InnerConsumed` reads them. */
  lemma {:induction false} InnerParts(ts: seq<Token>, pos: nat, n: Node, v: Oracle, tr: History)
    requires |n.children| > 0 && Admits(v, tr, NodeEvents(n)) && At(ts, pos, NodeTokens(n))
    ensures At(ts, pos, AttrTokens(n.attrs)) && At(ts, pos + |n.attrs|, ChildrenTokens(n.children))
    ensures |NodeTokens(n)| == |n.attrs| + |ChildrenTokens(n.children)|
    ensures Admits(v, tr, AttrEvents(n.attrs))
    ensures Admits(v, tr + AttrEvents(n.attrs) + [StartChildren], ChildrenEvents(n.children))
    ensures tr + NodeEvents(n) == tr + AttrEvents(n.attrs) + [StartChildren] + ChildrenEvents(n.children)
  {
    var h1 := tr + AttrEvents(n.attrs);
    NodeParts(ts, pos, n, v, tr);
    AdmitsCons(v, h1, StartChildren, ChildrenEvents(n.children));
    AppendAssoc(h1, [StartChildren], ChildrenEvents(n.children));
    AppendAssoc(tr, AttrEvents(n.attrs), [StartChildren] + ChildrenEvents(n.children));
  }

  /** A node with children: its attributes, then its children, then the
      children cursor looks at what follows. */
  lemma {:induction false} InnerConsumed(ts: seq<Token>, pos: nat, n: Node, v: Oracle, outer: Option<Key>, low: Key, tr: History)
    requires |n.children| > 0 && SortedAbove(n.attrs, low) && ChildrenWellFormed(n.children)
    requires Admits(v, tr, NodeEvents(n)) && At(ts, pos, NodeTokens(n))
    ensures AcceptAttributes(ts, pos, v, outer, low, tr)
         == ChildrenLoop(ts, pos + |NodeTokens(n)|, v, outer, tr + NodeEvents(n))
    decreases n, 3, 0, 0
  {
    InnerParts(ts, pos, n, v, tr);
    AttributesConsumed(ts, pos, n.attrs, v, outer, low, tr);
    ChildrenRunConsumed(ts, pos + |n.attrs|, n, v, outer, LastKey(n.attrs, low), tr + AttrEvents(n.attrs));
  }

  /** Once a node's attributes are read, its children are read to their end. */
  lemma {:induction false} ChildrenRunConsumed(ts: seq<Token>, pos: nat, n: Node, v: Oracle, outer: Option<Key>, last: Key, tr: History)
    requires |n.children| > 0 && ChildrenWellFormed(n.children)
    requires Admits(v, tr + [StartChildren], ChildrenEvents(n.children)) && At(ts, pos, ChildrenTokens(n.children))
    ensures AcceptAttributes(ts, pos, v, outer, last, tr)
         == ChildrenLoop(ts, pos + |ChildrenTokens(n.children)|, v, outer, tr + [StartChildren] + ChildrenEvents(n.children))
    decreases n, 2, 0, 0
  {
    assert ts[pos] == Open(n.children[0].tag) by {
      ChildrenStart(n.children);
      AtHead(ts, pos, ChildrenTokens(n.children));
    }
    assert n.children[0..] == n.children;
    HandOff(ts, pos, n.children[0].tag, v, outer, last, tr);
    ChildrenConsumed(ts, pos, n, 0, v, outer, tr + [StartChildren]);
  }

  /** The children cursor on an `Open` whose child is accepted goes on right
      after that child. */
  lemma {:induction false} ChildStep(ts: seq<Token>, pos: nat, k: Key, v: Oracle, outer: Option<Key>, tr: History,
                  next: nat, h: History)
    requires pos < |ts| && ts[pos] == Open(k)
    requires AcceptChild(ts, pos + 1, k, v, tr) == Accepted(next, h)
    ensures next <= |ts| && ChildrenLoop(ts, pos, v, outer, tr) == ChildrenLoop(ts, next, v, outer, h)
  {
  }

  /** The children `i..` of a well-formed node, admitted by the visitor, are
      read one after the other, each completely before the next. */
  lemma {:induction false} ChildrenConsumed(ts: seq<Token>, pos: nat, n: Node, i: nat, v: Oracle, outer: Option<Key>, tr: History)
    requires i <= |n.children| && ChildrenWellFormed(n.children)
    requires Admits(v, tr, ChildrenEvents(n.children[i..])) && At(ts, pos, ChildrenTokens(n.children[i..]))
    ensures ChildrenLoop(ts, pos, v, outer, tr)
         == ChildrenLoop(ts, pos + |ChildrenTokens(n.children[i..])|, v, outer, tr + ChildrenEvents(n.children[i..]))
    decreases n, 1, |n.children| - i, 1
  {
    if i == |n.children| {
      assert n.children[i..] == [];
      assert tr + ChildrenEvents(n.children[i..]) == tr;
    } else {
      ChildThenRestConsumed(ts, pos, n, i, v, outer, tr);
    }
  }

  /** An element's tokens: its `Open`, its body and its `Close`, then what follows. */
  lemma {:induction false} ElementAt(ts: seq<Token>, pos: nat, c: Element, after: seq<Token>)
    requires At(ts, pos, ElementTokens(c) + after)
    ensures pos < |ts| && ts[pos] == Open(c.tag)
    ensures At(ts, pos + 1, NodeTokens(c.body) + [Close(c.tag)])
    ensures |ElementTokens(c)| == |NodeTokens(c.body)| + 2 && At(ts, pos + |ElementTokens(c)|, after)
  {
    AppendAssoc([Open(c.tag)], NodeTokens(c.body), [Close(c.tag)]);
    AtAppend(ts, pos, ElementTokens(c), after);
    AtAppend(ts, pos, [Open(c.tag)], NodeTokens(c.body) + [Close(c.tag)]);
    AtSingle(ts, pos, Open(c.tag));
  }

  /** Child `i`, read completely, then the children after it. */
  lemma {:induction false} ChildThenRestConsumed(ts: seq<Token>, pos: nat, n: Node, i: nat, v: Oracle, outer: Option<Key>,
                                                 tr: History)
    requires i < |n.children| && ChildrenWellFormed(n.children)
    requires Admits(v, tr, ChildrenEvents(n.children[i..])) && At(ts, pos, ChildrenTokens(n.children[i..]))
    ensures ChildrenLoop(ts, pos, v, outer, tr)
         == ChildrenLoop(ts, pos + |ChildrenTokens(n.children[i..])|, v, outer, tr + ChildrenEvents(n.children[i..]))
    decreases n, 1, |n.children| - i, 0
  {
    var c := n.children[i];
    var rest := n.children[i + 1..];
    var next := pos + |ElementTokens(c)|;
    var h := tr + ElementEvents(c);
    ChildrenStep(n.children, i);
    ElementAt(ts, pos, c, ChildrenTokens(rest));
    assert Admits(v, tr, ElementEvents(c)) && Admits(v, h, ChildrenEvents(rest)) by {
      AdmitsAppend(v, tr, ElementEvents(c), ChildrenEvents(rest));
    }
    assert ElementWellFormed(c);
    ElementConsumed(ts, pos + 1, c, v, tr);
    ChildStep(ts, pos, c.tag, v, outer, tr, next, h);
    ChildrenConsumed(ts, next, n, i + 1, v, outer, h);
    AppendAssoc(tr, ElementEvents(c), ChildrenEvents(rest));
  }

  /** An aborting child ends its parent with the very same outcome, on the
      first child as on any later one: nothing more is read at that level, and
      so, one level at a time, at none above it either. */
  lemma {:induction false} AbortPropagates(ts: seq<Token>, pos: nat, k: Key, v: Oracle, outer: Option<Key>, tr: History)
    requires pos < |ts| && ts[pos] == Open(k)
    requires AcceptChild(ts, pos + 1, k, v, tr).Aborted?
    ensures ChildrenLoop(ts, pos, v, outer, tr) == AcceptChild(ts, pos + 1, k, v, tr)
    ensures AcceptChildren(ts, pos + 1, k, v, outer, tr) == AcceptChild(ts, pos + 1, k, v, tr)
  {
  }
}
