/** The main theorem: a parse of a whole token stream succeeds exactly when the
    stream spells a well-formed tree whose visitor calls the visitor admits, and
    then the visitor saw exactly that tree's calls, in document order. */
module Correctness {

  import opened Options
  import opened Keys
  import opened Tokens
  import opened Visitors
  import opened Deserializer
  import opened Grammar
  import opened Consumption
  import opened Completeness

  /** A well-formed tree whose calls the visitor admits parses, and the visitor
      sees its calls and nothing else. */
  lemma {:induction false} TreeParses(ts: seq<Token>, n: Node, v: Oracle)
    requires WellFormed(n) && ts == NodeTokens(n) && Admits(v, [], NodeEvents(n))
    ensures Parse(ts, v) == Accepted(|ts|, NodeEvents(n))
  {
    AtIsSlice(ts, 0, ts);
    assert ts[0..|ts|] == ts;
    AfterNode(ts, 0, n, v, None, [], []);
    assert [] + NodeEvents(n) == NodeEvents(n);
  }

  /** A successful parse read a well-formed tree, the one its trace describes. */
  lemma {:induction false} ParsedTree(ts: seq<Token>, v: Oracle) returns (n: Node)
    requires Parse(ts, v).Accepted?
    ensures WellFormed(n) && ts == NodeTokens(n)
    ensures Parse(ts, v).trace == NodeEvents(n) && Admits(v, [], NodeEvents(n))
  {
    n := AttributesComplete(ts, 0, v, None, [], []);
    assert NodeTokens(n) + CloseTokens(None) == NodeTokens(n);
    AtIsSlice(ts, 0, NodeTokens(n));
    assert ts[0..|ts|] == ts;
    assert [] + NodeEvents(n) == NodeEvents(n);
  }

  /** Acceptance is exactly membership in the grammar, filtered by the visitor. */
  lemma {:induction false} ParseIsGrammar(ts: seq<Token>, v: Oracle)
    ensures Parse(ts, v).Accepted?
        <==> exists n :: WellFormed(n) && ts == NodeTokens(n) && Admits(v, [], NodeEvents(n))
  {
    if Parse(ts, v).Accepted? {
      var n := ParsedTree(ts, v);
    }
    if exists n :: WellFormed(n) && ts == NodeTokens(n) && Admits(v, [], NodeEvents(n)) {
      var n :| WellFormed(n) && ts == NodeTokens(n) && Admits(v, [], NodeEvents(n));
      TreeParses(ts, n, v);
    }
  }

  /** With a visitor that accepts every call, the parse accepts exactly the documents. */
  lemma {:induction false} PermissiveParseIsDocument(ts: seq<Token>, v: Oracle)
    requires Permissive(v)
    ensures Parse(ts, v).Accepted? <==> Document(ts)
  {
    if Parse(ts, v).Accepted? {
      var n := ParsedTree(ts, v);
    }
    if Document(ts) {
      var n :| WellFormed(n) && ts == NodeTokens(n);
      PermissiveAdmitsAll(v, [], NodeEvents(n));
      TreeParses(ts, n, v);
    }
  }

  /** Opens minus closes: zero on every document. */
  function Depth(ts: seq<Token>): int
  {
    if |ts| == 0 then 0
    else (match ts[0] case Open(_) => 1 case Close(_) => -1 case Attr(_, _) => 0) + Depth(ts[1..])
  }

  lemma {:induction false} DepthAppend(a: seq<Token>, b: seq<Token>)
    ensures Depth(a + b) == Depth(a) + Depth(b)
    decreases |a|
  {
    if |a| == 0 {
      assert a + b == b;
    } else {
      assert (a + b)[0] == a[0] && (a + b)[1..] == a[1..] + b;
      DepthAppend(a[1..], b);
    }
  }

  lemma {:induction false} AttrTokensFlat(attrs: seq<Attribute>)
    ensures Depth(AttrTokens(attrs)) == 0
    decreases |attrs|
  {
    if |attrs| > 0 {
      AttrTokensFlat(attrs[1..]);
      DepthAppend([Attr(attrs[0].key, attrs[0].value)], AttrTokens(attrs[1..]));
    }
  }

  lemma {:induction false} NodeBalanced(n: Node)
    ensures Depth(NodeTokens(n)) == 0
    decreases n, 1
  {
    AttrTokensFlat(n.attrs);
    ChildrenBalanced(n.children);
    DepthAppend(AttrTokens(n.attrs), ChildrenTokens(n.children));
  }

  lemma {:induction false} ChildrenBalanced(cs: seq<Element>)
    ensures Depth(ChildrenTokens(cs)) == 0
    decreases cs, 0
  {
    if |cs| > 0 {
      ElementBalanced(cs[0]);
      ChildrenBalanced(cs[1..]);
      DepthAppend(ElementTokens(cs[0]), ChildrenTokens(cs[1..]));
    }
  }

  lemma {:induction false} ElementBalanced(e: Element)
    ensures Depth(ElementTokens(e)) == 0
    decreases e, 2
  {
    NodeBalanced(e.body);
    DepthAppend([Open(e.tag)], NodeTokens(e.body));
    DepthAppend([Open(e.tag)] + NodeTokens(e.body), [Close(e.tag)]);
  }

  /** A stream with an element left open, or a close tag too many, never parses:
      end-of-stream inside an open node and a close tag at the root both abort. */
  lemma {:induction false} Unbalanced(ts: seq<Token>, v: Oracle)
    requires Depth(ts) != 0
    ensures Parse(ts, v).Aborted?
  {
    if Parse(ts, v).Accepted? {
      var n := ParsedTree(ts, v);
      NodeBalanced(n);
    }
  }
}
