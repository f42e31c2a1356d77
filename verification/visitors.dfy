/** The consumer side: the `AttributeVisitor` / `ChildrenVisitor` pair.

    A visitor is modelled by what the deserializer can observe of it: the
    calls made to it, in order (an event trace), and its answer to each call.
    The answer may depend on everything the visitors have been told so far, so
    the oracle receives the whole history of earlier calls. `start_children`
    cannot fail (it only turns the attribute visitor into a children visitor);
    it is recorded so the trace shows where a node's children begin. */
module Visitors {

  import opened Keys
  import opened Tokens

  /** One call into a visitor. */
  datatype Event =
    | VisitAttribute(key: Key, value: Value)
    | StartChildren
    | VisitChild(key: Key)

  /** Every visitor call made so far in one parse, oldest first. */
  type History = seq<Event>

  /** The visitors' answers: `visitAttribute` returning false is
      `visit_attribute` returning `None`; `visitChild` returning false is
      `visit_child` refusing the tag (returning `None`). */
  datatype Oracle = Oracle(
    visitAttribute: (History, Key, Value) -> bool,
    visitChild: (History, Key) -> bool)

  /** The visitors, having seen `h`, answer the call `e` with success. */
  predicate Allows(v: Oracle, h: History, e: Event)
  {
    match e
    case VisitAttribute(k, x) => v.visitAttribute(h, k, x)
    case StartChildren => true
    case VisitChild(k) => v.visitChild(h, k)
  }

  /** Every call of `evs`, made one after the other after `h`, succeeds. */
  predicate Admits(v: Oracle, h: History, evs: seq<Event>)
    decreases |evs|
  {
    |evs| == 0 || (Allows(v, h, evs[0]) && Admits(v, h + [evs[0]], evs[1..]))
  }

  /** A visitor pair that accepts every attribute and every child tag. */
  ghost predicate Permissive(v: Oracle)
  {
    && (forall h, k, x :: v.visitAttribute(h, k, x))
    && (forall h, k :: v.visitChild(h, k))
  }

  /** The visitor pair that never rejects anything. */
  function AcceptAll(): (v: Oracle)
    ensures Permissive(v)
  {
    Oracle((h, k, x) => true, (h, k) => true)
  }

  lemma {:induction false} AdmitsAppend(v: Oracle, h: History, a: seq<Event>, b: seq<Event>)
    ensures Admits(v, h, a + b) <==> Admits(v, h, a) && Admits(v, h + a, b)
    decreases |a|
  {
    if |a| == 0 {
      assert a + b == b;
      assert h + a == h;
    } else {
      assert (a + b)[0] == a[0];
      assert (a + b)[1..] == a[1..] + b;
      assert h + [a[0]] + a[1..] == h + a;
      AdmitsAppend(v, h + [a[0]], a[1..], b);
    }
  }

  lemma {:induction false} AdmitsCons(v: Oracle, h: History, e: Event, rest: seq<Event>)
    ensures Admits(v, h, [e] + rest) <==> Allows(v, h, e) && Admits(v, h + [e], rest)
  {
    assert ([e] + rest)[0] == e;
    assert ([e] + rest)[1..] == rest;
  }

  /** A permissive visitor pair admits any sequence of calls. */
  lemma {:induction false} PermissiveAdmitsAll(v: Oracle, h: History, evs: seq<Event>)
    requires Permissive(v)
    ensures Admits(v, h, evs)
    decreases |evs|
  {
    if |evs| > 0 {
      PermissiveAdmitsAll(v, h + [evs[0]], evs[1..]);
    }
  }
}
