/** The declarative side: the documents the deserializer is meant to accept,
    as trees, with the token sequence that spells each tree and the visitor
    calls a parse of it makes.

    A node is a run of attributes followed by its child elements; an element
    is a child node together with the key of the `Open`/`Close` pair around it.
    The root node has no surrounding pair. */
module Grammar {

  import opened Options
  import opened Keys
  import opened Tokens
  import opened Visitors

  datatype Attribute = Attribute(key: Key, value: Value)

  datatype Node = Node(attrs: seq<Attribute>, children: seq<Element>)

  datatype Element = Element(tag: Key, body: Node)

  /** The last attribute key of a run that started above `low`. */
  function LastKey(attrs: seq<Attribute>, low: Key): Key
  {
    if |attrs| == 0 then low else attrs[|attrs| - 1].key
  }

  /** Each key is strictly greater than the one before it, the first one than `low`. */
  predicate SortedAbove(attrs: seq<Attribute>, low: Key)
    decreases |attrs|
  {
    |attrs| == 0 || (Less(low, attrs[0].key) && SortedAbove(attrs[1..], attrs[0].key))
  }

  /** All keys are above `low` and any earlier key is below any later one. */
  ghost predicate StrictlyIncreasing(attrs: seq<Attribute>, low: Key)
  {
    && (forall i :: 0 <= i < |attrs| ==> Less(low, attrs[i].key))
    && (forall i, j :: 0 <= i < j < |attrs| ==> Less(attrs[i].key, attrs[j].key))
  }

  /** Comparing each key with its predecessor only, as the cursor does, is the
      same as requiring the whole run to be strictly increasing. */
  lemma {:induction false} SortedAboveIsStrictlyIncreasing(attrs: seq<Attribute>, low: Key)
    ensures SortedAbove(attrs, low) <==> StrictlyIncreasing(attrs, low)
    decreases |attrs|
  {
    if |attrs| > 0 {
      var rest := attrs[1..];
      SortedAboveIsStrictlyIncreasing(rest, attrs[0].key);
      if SortedAbove(attrs, low) {
        forall i | 0 <= i < |attrs|
          ensures Less(low, attrs[i].key)
        {
          if i > 0 {
            assert attrs[i] == rest[i - 1];
            LessTransitive(low, attrs[0].key, attrs[i].key);
          }
        }
        forall i, j | 0 <= i < j < |attrs|
          ensures Less(attrs[i].key, attrs[j].key)
        {
          assert attrs[j] == rest[j - 1];
          if i > 0 {
            assert attrs[i] == rest[i - 1];
          }
        }
      }
      if StrictlyIncreasing(attrs, low) {
        forall i | 0 <= i < |rest|
          ensures Less(attrs[0].key, rest[i].key)
        {
          assert rest[i] == attrs[i + 1];
        }
        forall i, j | 0 <= i < j < |rest|
          ensures Less(rest[i].key, rest[j].key)
        {
          assert rest[i] == attrs[i + 1] && rest[j] == attrs[j + 1];
        }
      }
    }
  }

  /** Attributes sorted from the empty key, and every child well formed. */
  predicate WellFormed(n: Node)
    decreases n, 1
  {
    SortedAbove(n.attrs, []) && ChildrenWellFormed(n.children)
  }

  predicate ChildrenWellFormed(cs: seq<Element>)
    decreases cs
  {
    forall i :: 0 <= i < |cs| ==> ElementWellFormed(cs[i])
  }

  predicate ElementWellFormed(e: Element)
    decreases e
  {
    WellFormed(e.body)
  }

  /** The tokens that spell a node, an element, a run of attributes or children. */
  function AttrTokens(attrs: seq<Attribute>): (ts: seq<Token>)
    ensures |ts| == |attrs|
    decreases |attrs|
  {
    if |attrs| == 0 then [] else [Attr(attrs[0].key, attrs[0].value)] + AttrTokens(attrs[1..])
  }

  function NodeTokens(n: Node): seq<Token>
    decreases n
  {
    AttrTokens(n.attrs) + ChildrenTokens(n.children)
  }

  function ChildrenTokens(cs: seq<Element>): seq<Token>
    decreases cs
  {
    if |cs| == 0 then [] else ElementTokens(cs[0]) + ChildrenTokens(cs[1..])
  }

  function ElementTokens(e: Element): seq<Token>
    decreases e
  {
    [Open(e.tag)] + NodeTokens(e.body) + [Close(e.tag)]
  }

  /** The token that ends a node: its close tag, or nothing at the root. */
  function CloseTokens(outer: Option<Key>): seq<Token>
  {
    match outer
    case None => []
    case Some(k) => [Close(k)]
  }

  /** The visitor calls a successful parse of a node, an element, a run of
      attributes or children makes. */
  function AttrEvents(attrs: seq<Attribute>): (evs: seq<Event>)
    ensures |evs| == |attrs|
    decreases |attrs|
  {
    if |attrs| == 0 then [] else [VisitAttribute(attrs[0].key, attrs[0].value)] + AttrEvents(attrs[1..])
  }

  function NodeEvents(n: Node): seq<Event>
    decreases n
  {
    AttrEvents(n.attrs) + (if |n.children| == 0 then [] else [StartChildren] + ChildrenEvents(n.children))
  }

  function ChildrenEvents(cs: seq<Element>): seq<Event>
    decreases cs
  {
    if |cs| == 0 then [] else ElementEvents(cs[0]) + ChildrenEvents(cs[1..])
  }

  function ElementEvents(e: Element): seq<Event>
    decreases e
  {
    [VisitChild(e.tag)] + NodeEvents(e.body)
  }

  /** A token sequence is a document when it spells a well-formed tree. */
  ghost predicate Document(ts: seq<Token>)
  {
    exists n :: WellFormed(n) && ts == NodeTokens(n)
  }

  // Splitting runs of children.

  lemma {:induction false} ChildrenStart(cs: seq<Element>)
    requires |cs| > 0
    ensures |ChildrenTokens(cs)| > 0 && ChildrenTokens(cs)[0] == Open(cs[0].tag)
  {
    assert ElementTokens(cs[0])[0] == Open(cs[0].tag);
  }

  lemma {:induction false} ChildrenStep(cs: seq<Element>, i: nat)
    requires i < |cs|
    ensures ChildrenTokens(cs[i..]) == ElementTokens(cs[i]) + ChildrenTokens(cs[i + 1..])
    ensures ChildrenEvents(cs[i..]) == ElementEvents(cs[i]) + ChildrenEvents(cs[i + 1..])
  {
    assert cs[i..][0] == cs[i];
    assert cs[i..][1..] == cs[i + 1..];
  }
}
