/** Nothing past the point where a cursor stops is ever read: two token streams
    that agree on the tokens a cursor consumed, and that either both end there
    or both go on, give that cursor the same outcome. In particular an abort
    (an out-of-order key, a refused call, a stray token) reads no further
    token at any level. */
module Locality {

  import opened Options
  import opened Keys
  import opened Tokens
  import opened Visitors
  import opened Deserializer

  /** `ts` and `ts'` have the same first `n` tokens, and the stream ends right
      after them in both or in neither. */
  ghost predicate SameUpTo(ts: seq<Token>, ts': seq<Token>, n: nat)
  {
    && n <= |ts| && n <= |ts'|
    && (forall i :: 0 <= i < n ==> ts[i] == ts'[i])
    && (n == |ts| <==> n == |ts'|)
  }

  lemma {:induction false} SameUpToShorter(ts: seq<Token>, ts': seq<Token>, m: nat, n: nat)
    requires SameUpTo(ts, ts', n) && m <= n
    ensures SameUpTo(ts, ts', m)
  {
  }

  lemma {:induction false} AttributesLocal(ts: seq<Token>, ts': seq<Token>, pos: nat, v: Oracle,
                                           outer: Option<Key>, low: Key, tr: History)
    requires pos <= |ts| && SameUpTo(ts, ts', AcceptAttributes(ts, pos, v, outer, low, tr).pos)
    ensures pos <= |ts'|
    ensures AcceptAttributes(ts', pos, v, outer, low, tr) == AcceptAttributes(ts, pos, v, outer, low, tr)
    decreases |ts| - pos, 1
  {
    if pos < |ts| {
      assert ts'[pos] == ts[pos];
      match ts[pos]
      case Attr(k, x) =>
        AttributeLocal(ts, ts', pos, v, outer, low, tr);
      case Open(k) =>
        ChildrenLocal(ts, ts', pos + 1, k, v, outer, tr + [StartChildren]);
      case Close(_) =>
    }
  }

  /** The attribute cursor on an attribute. */
  lemma {:induction false} AttributeLocal(ts: seq<Token>, ts': seq<Token>, pos: nat, v: Oracle,
                                          outer: Option<Key>, low: Key, tr: History)
    requires pos < |ts| && ts[pos].Attr? && SameUpTo(ts, ts', AcceptAttributes(ts, pos, v, outer, low, tr).pos)
    ensures pos < |ts'| && ts'[pos] == ts[pos]
    ensures AcceptAttributes(ts', pos, v, outer, low, tr) == AcceptAttributes(ts, pos, v, outer, low, tr)
    decreases |ts| - pos, 0
  {
    var k, x := ts[pos].key, ts[pos].value;
    if Less(low, k) && v.visitAttribute(tr, k, x) {
      AttributesLocal(ts, ts', pos + 1, v, outer, k, tr + [VisitAttribute(k, x)]);
    }
  }

  lemma {:induction false} ChildrenLocal(ts: seq<Token>, ts': seq<Token>, pos: nat, first: Key, v: Oracle,
                                         outer: Option<Key>, tr: History)
    requires pos <= |ts| && SameUpTo(ts, ts', AcceptChildren(ts, pos, first, v, outer, tr).pos)
    ensures pos <= |ts'|
    ensures AcceptChildren(ts', pos, first, v, outer, tr) == AcceptChildren(ts, pos, first, v, outer, tr)
    decreases |ts| - pos, 5
  {
    var c := AcceptChild(ts, pos, first, v, tr);
    SameUpToShorter(ts, ts', c.pos, AcceptChildren(ts, pos, first, v, outer, tr).pos);
    ChildLocal(ts, ts', pos, first, v, tr);
    if c.Accepted? {
      LoopLocal(ts, ts', c.pos, v, outer, c.trace);
    }
  }

  lemma {:induction false} LoopLocal(ts: seq<Token>, ts': seq<Token>, pos: nat, v: Oracle,
                                     outer: Option<Key>, tr: History)
    requires pos <= |ts| && SameUpTo(ts, ts', ChildrenLoop(ts, pos, v, outer, tr).pos)
    ensures pos <= |ts'|
    ensures ChildrenLoop(ts', pos, v, outer, tr) == ChildrenLoop(ts, pos, v, outer, tr)
    decreases |ts| - pos, 4
  {
    if pos < |ts| {
      assert ts'[pos] == ts[pos];
      if ts[pos].Open? {
        LoopOpenLocal(ts, ts', pos, v, outer, tr);
      }
    }
  }

  /** The children cursor on an `Open`: the child, then the rest. */
  lemma {:induction false} LoopOpenLocal(ts: seq<Token>, ts': seq<Token>, pos: nat, v: Oracle,
                                         outer: Option<Key>, tr: History)
    requires pos < |ts| && ts[pos].Open? && SameUpTo(ts, ts', ChildrenLoop(ts, pos, v, outer, tr).pos)
    ensures pos < |ts'| && ts'[pos] == ts[pos]
    ensures ChildrenLoop(ts', pos, v, outer, tr) == ChildrenLoop(ts, pos, v, outer, tr)
    decreases |ts| - pos, 3
  {
    var k := ts[pos].key;
    var c := AcceptChild(ts, pos + 1, k, v, tr);
    SameUpToShorter(ts, ts', c.pos, ChildrenLoop(ts, pos, v, outer, tr).pos);
    ChildLocal(ts, ts', pos + 1, k, v, tr);
    if c.Accepted? {
      LoopLocal(ts, ts', c.pos, v, outer, c.trace);
    }
  }

  lemma {:induction false} ChildLocal(ts: seq<Token>, ts': seq<Token>, pos: nat, key: Key, v: Oracle,
                                      tr: History)
    requires pos <= |ts| && SameUpTo(ts, ts', AcceptChild(ts, pos, key, v, tr).pos)
    ensures pos <= |ts'|
    ensures AcceptChild(ts', pos, key, v, tr) == AcceptChild(ts, pos, key, v, tr)
    decreases |ts| - pos, 2
  {
    if v.visitChild(tr, key) {
      AttributesLocal(ts, ts', pos, v, Some(key), [], tr + [VisitChild(key)]);
    }
  }

  /** A whole parse reads its stream only up to where it stopped. */
  lemma {:induction false} ParseLocal(ts: seq<Token>, ts': seq<Token>, v: Oracle)
    requires SameUpTo(ts, ts', Parse(ts, v).pos)
    ensures Parse(ts', v) == Parse(ts, v)
  {
    AttributesLocal(ts, ts', 0, v, None, [], []);
  }
}
