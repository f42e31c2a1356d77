/** The recursive-descent structural checker: the attribute cursor
    (`AttributeDeserializer::accept`) and the children cursor
    (`ChildrenDeserializer::accept` and `accept_child`).

    Each cursor is a pure function of the token sequence and the index of the
    next token to read. The lexer's `next()` returning `None` is reaching the
    end of the sequence. What a cursor returns is its `Option<()>` result
    (`Accepted` for `Some(())`, `Aborted` for `None`) together with how far it
    read and which visitor calls it made, so that "nothing more was read" and
    "the visitor never saw it" can be stated. */
module Deserializer {

  import opened Options
  import opened Keys
  import opened Tokens
  import opened Visitors

  /** `pos` is the number of tokens consumed when the cursor returned;
      `trace` is every visitor call made up to then, in order. */
  datatype Outcome =
    | Accepted(pos: nat, trace: History)
    | Aborted(pos: nat, trace: History)

  /** End of stream, shared by both cursors: success only at the root, where
      no open key encloses the node; inside an open node the input is truncated. */
  function AtEnd(pos: nat, outer: Option<Key>, tr: History): Outcome
  {
    if outer.None? then Accepted(pos, tr) else Aborted(pos, tr)
  }

  /** A `Close(key)` token, shared by both cursors: it ends the node only when
      an enclosing open key is present and equal to `key`. `pos` is already
      past the close token. */
  function AtClose(pos: nat, key: Key, outer: Option<Key>, tr: History): Outcome
  {
    if outer == Some(key) then Accepted(pos, tr) else Aborted(pos, tr)
  }

  /** `AttributeDeserializer::accept`: read the node's attributes, whose keys
      must strictly increase starting above `lastKey` (the empty key for a fresh
      cursor); hand over to the children cursor at the first `Open`. */
  function AcceptAttributes(ts: seq<Token>, pos: nat, v: Oracle, outer: Option<Key>,
                            lastKey: Key, tr: History): (r: Outcome)
    requires pos <= |ts|
    ensures pos <= r.pos <= |ts|
    ensures pos < |ts| ==> pos < r.pos
    ensures tr <= r.trace
    ensures r.Accepted? && outer.None? ==> r.pos == |ts|
    ensures r.Accepted? && outer.Some? ==> pos < r.pos && ts[r.pos - 1] == Close(outer.value)
    decreases |ts| - pos, 0
  {
    if pos == |ts| then AtEnd(pos, outer, tr)
    else match ts[pos]
      case Attr(key, value) =>
        if !Less(lastKey, key) then Aborted(pos + 1, tr)
        else
          var tr' := tr + [VisitAttribute(key, value)];
          if !v.visitAttribute(tr, key, value) then Aborted(pos + 1, tr')
          else AcceptAttributes(ts, pos + 1, v, outer, key, tr')
      case Open(key) =>
        AcceptChildren(ts, pos + 1, key, v, outer, tr + [StartChildren])
      case Close(key) =>
        AtClose(pos + 1, key, outer, tr)
  }

  /** `ChildrenDeserializer::accept`: the `Open(first)` token has just been
      read by the attribute cursor; parse that child, then the rest. */
  function AcceptChildren(ts: seq<Token>, pos: nat, first: Key, v: Oracle, outer: Option<Key>,
                          tr: History): (r: Outcome)
    requires pos <= |ts|
    ensures pos <= r.pos <= |ts|
    ensures tr <= r.trace
    ensures r.Accepted? && outer.None? ==> r.pos == |ts|
    ensures r.Accepted? && outer.Some? ==> pos < r.pos && ts[r.pos - 1] == Close(outer.value)
    decreases |ts| - pos, 3
  {
    var c := AcceptChild(ts, pos, first, v, tr);
    if c.Aborted? then c else ChildrenLoop(ts, c.pos, v, outer, c.trace)
  }

  /** The loop of `ChildrenDeserializer::accept`: only `Open` tokens (each a
      further child) may follow until the node's boundary. */
  function ChildrenLoop(ts: seq<Token>, pos: nat, v: Oracle, outer: Option<Key>,
                        tr: History): (r: Outcome)
    requires pos <= |ts|
    ensures pos <= r.pos <= |ts|
    ensures pos < |ts| ==> pos < r.pos
    ensures tr <= r.trace
    ensures r.Accepted? && outer.None? ==> r.pos == |ts|
    ensures r.Accepted? && outer.Some? ==> pos < r.pos && ts[r.pos - 1] == Close(outer.value)
    decreases |ts| - pos, 2
  {
    if pos == |ts| then AtEnd(pos, outer, tr)
    else match ts[pos]
      case Attr(_, _) =>
        Aborted(pos + 1, tr)
      case Open(key) =>
        var c := AcceptChild(ts, pos + 1, key, v, tr);
        if c.Aborted? then c else ChildrenLoop(ts, c.pos, v, outer, c.trace)
      case Close(key) =>
        AtClose(pos + 1, key, outer, tr)
  }

  /** `accept_child`: ask the children visitor for the child tagged `key`, then
      parse the child's body with a fresh attribute cursor that `key` closes. */
  function AcceptChild(ts: seq<Token>, pos: nat, key: Key, v: Oracle, tr: History): (r: Outcome)
    requires pos <= |ts|
    ensures pos <= r.pos <= |ts|
    ensures tr + [VisitChild(key)] <= r.trace
    ensures r.Accepted? ==> pos < r.pos && ts[r.pos - 1] == Close(key)
    decreases |ts| - pos, 1
  {
    var tr' := tr + [VisitChild(key)];
    if !v.visitChild(tr, key) then Aborted(pos, tr')
    else AcceptAttributes(ts, pos, v, Some(key), [], tr')
  }

  /** A whole document: a fresh attribute cursor at the root, with no
      enclosing open key. It succeeds only having read every token. */
  function Parse(ts: seq<Token>, v: Oracle): (r: Outcome)
    ensures r.pos <= |ts|
    ensures r.Accepted? ==> r.pos == |ts|
    ensures 0 < |ts| ==> 0 < r.pos
  {
    AcceptAttributes(ts, 0, v, None, [], [])
  }
}
