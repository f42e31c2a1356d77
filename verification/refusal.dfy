/** What the visitors are told, whatever the input: every call a cursor makes
    is admitted, except possibly the very last one. When the visitor refuses a
    call (`visit_attribute` or `visit_child` returning `None`) the whole parse
    aborts on the spot: no further call is made, and the last token read is
    the one the refused call was about, and nothing after that token is read,
    at any level: not even whether the stream ends there. */
module Refusal {

  import opened Options
  import opened Keys
  import opened Tokens
  import opened Visitors
  import opened Deserializer
  import opened Locality

  /** The call `e` is the one made for token `t`. */
  predicate Reports(t: Token, e: Event)
  {
    match e
    case VisitAttribute(k, x) => t == Attr(k, x)
    case StartChildren => false
    case VisitChild(k) => t == Open(k)
  }

  /** The calls `r` added to `tr` were all admitted; or all but the last were,
      the visitor refused the last, and `r` aborted right after the token of
      that call. */
  ghost predicate AdmittedUntilRefusal(ts: seq<Token>, v: Oracle, tr: History, r: Outcome)
  {
    && tr <= r.trace
    && (|| Admits(v, tr, r.trace[|tr|..])
        || (&& r.Aborted? && |r.trace| > |tr| && 0 < r.pos <= |ts|
            && Admits(v, tr, r.trace[|tr|..|r.trace| - 1])
            && !Allows(v, r.trace[..|r.trace| - 1], r.trace[|r.trace| - 1])
            && Reports(ts[r.pos - 1], r.trace[|r.trace| - 1])))
  }

  /** Dropping a known prefix `p + a` of `s` from a slice that starts after `p`. */
  lemma {:induction false} SliceAfter<T>(s: seq<T>, p: seq<T>, a: seq<T>, j: nat)
    requires p + a <= s && |p + a| <= j <= |s|
    ensures s[|p|..j] == a + s[|p + a|..j]
  {
    var l, r := s[|p|..j], a + s[|p + a|..j];
    assert |l| == |r|;
    forall i | 0 <= i < |l|
      ensures l[i] == r[i]
    {
      if i < |a| {
        assert l[i] == s[|p| + i] == (p + a)[|p| + i];
      }
    }
  }

  /** Calls admitted after `tr + a`, up to `j`, are admitted after `tr` when
      the calls `a` are. */
  lemma {:induction false} AdmittedSlice(v: Oracle, tr: History, a: seq<Event>, s: seq<Event>, j: nat)
    requires tr + a <= s && |tr + a| <= j <= |s|
    requires Admits(v, tr, a) && Admits(v, tr + a, s[|tr + a|..j])
    ensures Admits(v, tr, s[|tr|..j])
  {
    SliceAfter(s, tr, a, j);
    AdmitsAppend(v, tr, a, s[|tr + a|..j]);
  }

  lemma {:induction false} PrefixOfLonger<T>(p: seq<T>, a: seq<T>, s: seq<T>)
    requires p + a <= s
    ensures p <= s
  {
    assert forall i | 0 <= i < |p| :: s[i] == (p + a)[i] == p[i];
  }

  /** Admitted calls in front of an outcome keep it admitted-until-refusal. */
  lemma {:induction false} AdmittedBefore(ts: seq<Token>, v: Oracle, tr: History, a: seq<Event>, r: Outcome)
    requires Admits(v, tr, a) && AdmittedUntilRefusal(ts, v, tr + a, r)
    ensures AdmittedUntilRefusal(ts, v, tr, r)
  {
    var s, h := r.trace, tr + a;
    PrefixOfLonger(tr, a, s);
    if Admits(v, h, s[|h|..]) {
      assert s[|h|..] == s[|h|..|s|];
      AdmittedSlice(v, tr, a, s, |s|);
      assert s[|tr|..] == s[|tr|..|s|];
    } else {
      AdmittedSlice(v, tr, a, s, |s| - 1);
    }
  }

  /** A cursor that made no call. */
  lemma {:induction false} NothingCalled(ts: seq<Token>, v: Oracle, tr: History, r: Outcome)
    requires r.trace == tr
    ensures AdmittedUntilRefusal(ts, v, tr, r)
  {
    assert r.trace[|tr|..] == [];
  }

  /** A cursor whose one call `ev`, about the token just before where it
      stopped, was refused. */
  lemma {:induction false} RefusedNow(ts: seq<Token>, v: Oracle, tr: History, ev: Event, r: Outcome)
    requires r.Aborted? && r.trace == tr + [ev] && 0 < r.pos <= |ts|
    requires !Allows(v, tr, ev) && Reports(ts[r.pos - 1], ev)
    ensures AdmittedUntilRefusal(ts, v, tr, r)
  {
    assert r.trace[..|r.trace| - 1] == tr;
    assert r.trace[|tr|..|r.trace| - 1] == [];
  }

  lemma {:induction false} AttributesAnswered(ts: seq<Token>, pos: nat, v: Oracle, outer: Option<Key>,
                                              low: Key, tr: History)
    requires pos <= |ts|
    ensures AdmittedUntilRefusal(ts, v, tr, AcceptAttributes(ts, pos, v, outer, low, tr))
    decreases |ts| - pos, 5
  {
    var r := AcceptAttributes(ts, pos, v, outer, low, tr);
    if pos < |ts| && ts[pos].Attr? {
      AttributeAnswered(ts, pos, v, outer, low, tr);
    } else if pos < |ts| && ts[pos].Open? {
      OpenAnswered(ts, pos, v, outer, low, tr);
    } else {
      NothingCalled(ts, v, tr, r);
    }
  }

  lemma {:induction false} AttributeAnswered(ts: seq<Token>, pos: nat, v: Oracle, outer: Option<Key>,
                                             low: Key, tr: History)
    requires pos < |ts| && ts[pos].Attr?
    ensures AdmittedUntilRefusal(ts, v, tr, AcceptAttributes(ts, pos, v, outer, low, tr))
    decreases |ts| - pos, 4
  {
    var r := AcceptAttributes(ts, pos, v, outer, low, tr);
    var k, x := ts[pos].key, ts[pos].value;
    var ev := VisitAttribute(k, x);
    if !Less(low, k) {
      NothingCalled(ts, v, tr, r);
    } else if !v.visitAttribute(tr, k, x) {
      RefusedNow(ts, v, tr, ev, r);
    } else {
      AttributesAnswered(ts, pos + 1, v, outer, k, tr + [ev]);
      AdmittedBefore(ts, v, tr, [ev], r);
    }
  }

  lemma {:induction false} OpenAnswered(ts: seq<Token>, pos: nat, v: Oracle, outer: Option<Key>,
                                        low: Key, tr: History)
    requires pos < |ts| && ts[pos].Open?
    ensures AdmittedUntilRefusal(ts, v, tr, AcceptAttributes(ts, pos, v, outer, low, tr))
    decreases |ts| - pos, 4
  {
    ChildrenAnswered(ts, pos + 1, ts[pos].key, v, outer, tr + [StartChildren]);
    AdmittedBefore(ts, v, tr, [StartChildren], AcceptAttributes(ts, pos, v, outer, low, tr));
  }

  lemma {:induction false} ChildrenAnswered(ts: seq<Token>, pos: nat, first: Key, v: Oracle,
                                            outer: Option<Key>, tr: History)
    requires 0 < pos <= |ts| && ts[pos - 1] == Open(first)
    ensures AdmittedUntilRefusal(ts, v, tr, AcceptChildren(ts, pos, first, v, outer, tr))
    decreases |ts| - pos, 7
  {
    var c := AcceptChild(ts, pos, first, v, tr);
    ChildAnswered(ts, pos, first, v, tr);
    if c.Accepted? {
      LoopAnswered(ts, c.pos, v, outer, c.trace);
      assert tr + c.trace[|tr|..] == c.trace;
      AdmittedBefore(ts, v, tr, c.trace[|tr|..], AcceptChildren(ts, pos, first, v, outer, tr));
    }
  }

  lemma {:induction false} LoopAnswered(ts: seq<Token>, pos: nat, v: Oracle, outer: Option<Key>, tr: History)
    requires pos <= |ts|
    ensures AdmittedUntilRefusal(ts, v, tr, ChildrenLoop(ts, pos, v, outer, tr))
    decreases |ts| - pos, 3
  {
    var r := ChildrenLoop(ts, pos, v, outer, tr);
    if pos < |ts| && ts[pos].Open? {
      var k := ts[pos].key;
      var c := AcceptChild(ts, pos + 1, k, v, tr);
      ChildAnswered(ts, pos + 1, k, v, tr);
      if c.Accepted? {
        LoopAnswered(ts, c.pos, v, outer, c.trace);
        assert tr + c.trace[|tr|..] == c.trace;
        AdmittedBefore(ts, v, tr, c.trace[|tr|..], r);
      }
    } else {
      NothingCalled(ts, v, tr, r);
    }
  }

  lemma {:induction false} ChildAnswered(ts: seq<Token>, pos: nat, key: Key, v: Oracle, tr: History)
    requires 0 < pos <= |ts| && ts[pos - 1] == Open(key)
    ensures AdmittedUntilRefusal(ts, v, tr, AcceptChild(ts, pos, key, v, tr))
    decreases |ts| - pos, 6
  {
    var r := AcceptChild(ts, pos, key, v, tr);
    var ev := VisitChild(key);
    if v.visitChild(tr, key) {
      AttributesAnswered(ts, pos, v, Some(key), [], tr + [ev]);
      AdmittedBefore(ts, v, tr, [ev], r);
    } else {
      RefusedNow(ts, v, tr, ev, r);
    }
  }

  /** A refused call ends the whole parse: it aborts, the refused call is the
      last one the visitors see, every call before it was admitted, and the
      parse stopped right after the token the call was about. */
  lemma {:induction false} ParseAnswered(ts: seq<Token>, v: Oracle)
    ensures AdmittedUntilRefusal(ts, v, [], Parse(ts, v))
  {
    AttributesAnswered(ts, 0, v, None, [], []);
  }

  /** The last call of `s`, one of those made after `tr`, was refused. */
  predicate RefusedLast(v: Oracle, tr: History, s: History)
  {
    |s| > |tr| && !Allows(v, s[..|s| - 1], s[|s| - 1])
  }

  /** `ts'` starts with the first `n` tokens of `ts`; what follows may differ,
      and either stream may end right there. */
  ghost predicate Agree(ts: seq<Token>, ts': seq<Token>, n: nat)
  {
    n <= |ts| && n <= |ts'| && forall i :: 0 <= i < n ==> ts[i] == ts'[i]
  }

  /** The last of a run of admitted calls was admitted. */
  lemma {:induction false} AdmitsLast(v: Oracle, h: History, evs: seq<Event>)
    requires |evs| > 0 && Admits(v, h, evs)
    ensures Allows(v, h + evs[..|evs| - 1], evs[|evs| - 1])
  {
    var n := |evs|;
    assert evs == evs[..n - 1] + [evs[n - 1]];
    AdmitsAppend(v, h, evs[..n - 1], [evs[n - 1]]);
    AdmitsCons(v, h + evs[..n - 1], evs[n - 1], []);
  }

  /** A refused call comes after every call of an admitted stretch. */
  lemma {:induction false} RefusedLater(v: Oracle, tr: History, h: History, s: History)
    requires tr <= h <= s && |h| > |tr| && Admits(v, tr, h[|tr|..]) && RefusedLast(v, tr, s)
    ensures RefusedLast(v, h, s)
  {
    var evs := h[|tr|..];
    AdmitsLast(v, tr, evs);
    assert tr + evs[..|evs| - 1] == h[..|h| - 1];
    assert evs[|evs| - 1] == h[|h| - 1];
    assert s[..|h| - 1] == h[..|h| - 1] && s[|h| - 1] == h[|h| - 1];
  }

  /** An allowed call is not the refused last one. */
  lemma {:induction false} AllowedNotLast(v: Oracle, tr: History, ev: Event, s: History)
    requires tr + [ev] <= s && Allows(v, tr, ev) && RefusedLast(v, tr, s)
    ensures RefusedLast(v, tr + [ev], s)
  {
    assert s[..|tr|] == tr && s[|tr|] == ev;
  }

  lemma {:induction false} AttributesUnread(ts: seq<Token>, ts': seq<Token>, pos: nat, v: Oracle, outer: Option<Key>,
                                            low: Key, tr: History)
    requires pos <= |ts|
    requires var r := AcceptAttributes(ts, pos, v, outer, low, tr); RefusedLast(v, tr, r.trace) && Agree(ts, ts', r.pos)
    ensures pos <= |ts'|
    ensures AcceptAttributes(ts', pos, v, outer, low, tr) == AcceptAttributes(ts, pos, v, outer, low, tr)
    decreases |ts| - pos, 5
  {
    if pos < |ts| && ts[pos].Attr? {
      AttributeUnread(ts, ts', pos, v, outer, low, tr);
    } else if pos < |ts| && ts[pos].Open? {
      OpenUnread(ts, ts', pos, v, outer, low, tr);
    } else {
      assert false;
    }
  }

  lemma {:induction false} AttributeUnread(ts: seq<Token>, ts': seq<Token>, pos: nat, v: Oracle, outer: Option<Key>,
                                           low: Key, tr: History)
    requires pos < |ts| && ts[pos].Attr?
    requires var r := AcceptAttributes(ts, pos, v, outer, low, tr); RefusedLast(v, tr, r.trace) && Agree(ts, ts', r.pos)
    ensures pos < |ts'| && ts'[pos] == ts[pos]
    ensures AcceptAttributes(ts', pos, v, outer, low, tr) == AcceptAttributes(ts, pos, v, outer, low, tr)
    decreases |ts| - pos, 4
  {
    var r := AcceptAttributes(ts, pos, v, outer, low, tr);
    var k, x := ts[pos].key, ts[pos].value;
    var ev := VisitAttribute(k, x);
    assert ts'[pos] == ts[pos];
    if !Less(low, k) {
      assert false;
    } else if v.visitAttribute(tr, k, x) {
      AllowedNotLast(v, tr, ev, r.trace);
      AttributesUnread(ts, ts', pos + 1, v, outer, k, tr + [ev]);
    }
  }

  lemma {:induction false} OpenUnread(ts: seq<Token>, ts': seq<Token>, pos: nat, v: Oracle, outer: Option<Key>,
                                      low: Key, tr: History)
    requires pos < |ts| && ts[pos].Open?
    requires var r := AcceptAttributes(ts, pos, v, outer, low, tr); RefusedLast(v, tr, r.trace) && Agree(ts, ts', r.pos)
    ensures pos < |ts'| && ts'[pos] == ts[pos]
    ensures AcceptAttributes(ts', pos, v, outer, low, tr) == AcceptAttributes(ts, pos, v, outer, low, tr)
    decreases |ts| - pos, 4
  {
    var r := AcceptAttributes(ts, pos, v, outer, low, tr);
    assert ts'[pos] == ts[pos];
    AllowedNotLast(v, tr, StartChildren, r.trace);
    ChildrenUnread(ts, ts', pos + 1, ts[pos].key, v, outer, tr + [StartChildren]);
  }

  lemma {:induction false} ChildrenUnread(ts: seq<Token>, ts': seq<Token>, pos: nat, first: Key, v: Oracle,
                                          outer: Option<Key>, tr: History)
    requires 0 < pos <= |ts| && ts[pos - 1] == Open(first)
    requires var r := AcceptChildren(ts, pos, first, v, outer, tr); RefusedLast(v, tr, r.trace) && Agree(ts, ts', r.pos)
    ensures pos <= |ts'|
    ensures AcceptChildren(ts', pos, first, v, outer, tr) == AcceptChildren(ts, pos, first, v, outer, tr)
    decreases |ts| - pos, 7
  {
    if AcceptChild(ts, pos, first, v, tr).Aborted? {
      ChildUnread(ts, ts', pos, first, v, tr);
    } else {
      ChildThenLoopUnread(ts, ts', pos, first, v, outer, tr);
    }
  }

  lemma {:induction false} LoopUnread(ts: seq<Token>, ts': seq<Token>, pos: nat, v: Oracle, outer: Option<Key>,
                                      tr: History)
    requires pos <= |ts|
    requires var r := ChildrenLoop(ts, pos, v, outer, tr); RefusedLast(v, tr, r.trace) && Agree(ts, ts', r.pos)
    ensures pos <= |ts'|
    ensures ChildrenLoop(ts', pos, v, outer, tr) == ChildrenLoop(ts, pos, v, outer, tr)
    decreases |ts| - pos, 3
  {
    if pos < |ts| && ts[pos].Open? {
      LoopOpenUnread(ts, ts', pos, v, outer, tr);
    } else {
      assert false;
    }
  }

  lemma {:induction false} LoopOpenUnread(ts: seq<Token>, ts': seq<Token>, pos: nat, v: Oracle, outer: Option<Key>,
                                          tr: History)
    requires pos < |ts| && ts[pos].Open?
    requires var r := ChildrenLoop(ts, pos, v, outer, tr); RefusedLast(v, tr, r.trace) && Agree(ts, ts', r.pos)
    ensures pos < |ts'| && ts'[pos] == ts[pos]
    ensures ChildrenLoop(ts', pos, v, outer, tr) == ChildrenLoop(ts, pos, v, outer, tr)
    decreases |ts| - pos, 2
  {
    var k := ts[pos].key;
    assert ts'[pos] == ts[pos];
    if AcceptChild(ts, pos + 1, k, v, tr).Aborted? {
      ChildUnread(ts, ts', pos + 1, k, v, tr);
    } else {
      ChildThenLoopUnread(ts, ts', pos + 1, k, v, outer, tr);
    }
  }

  /** An accepted child, then the children loop, which ends on the refusal:
      the refusal comes after the child's calls, so the loop reads a token
      after the child and the child's outcome does not depend on where the
      stream ends. */
  lemma {:induction false} ChildThenLoopUnread(ts: seq<Token>, ts': seq<Token>, pos: nat, key: Key, v: Oracle,
                                               outer: Option<Key>, tr: History)
    requires 0 < pos <= |ts| && ts[pos - 1] == Open(key) && AcceptChild(ts, pos, key, v, tr).Accepted?
    requires var c := AcceptChild(ts, pos, key, v, tr);
             var r := ChildrenLoop(ts, c.pos, v, outer, c.trace);
             RefusedLast(v, tr, r.trace) && Agree(ts, ts', r.pos)
    ensures var c := AcceptChild(ts, pos, key, v, tr);
            && pos <= |ts'| && AcceptChild(ts', pos, key, v, tr) == c
            && c.pos <= |ts'| && ChildrenLoop(ts', c.pos, v, outer, c.trace) == ChildrenLoop(ts, c.pos, v, outer, c.trace)
    decreases |ts| - pos, 1
  {
    var c := AcceptChild(ts, pos, key, v, tr);
    var r := ChildrenLoop(ts, c.pos, v, outer, c.trace);
    ChildAnswered(ts, pos, key, v, tr);
    RefusedLater(v, tr, c.trace, r.trace);
    assert c.pos < |ts|;
    assert SameUpTo(ts, ts', c.pos);
    ChildLocal(ts, ts', pos, key, v, tr);
    LoopUnread(ts, ts', c.pos, v, outer, c.trace);
  }

  lemma {:induction false} ChildUnread(ts: seq<Token>, ts': seq<Token>, pos: nat, key: Key, v: Oracle, tr: History)
    requires pos <= |ts|
    requires var r := AcceptChild(ts, pos, key, v, tr); RefusedLast(v, tr, r.trace) && Agree(ts, ts', r.pos)
    ensures pos <= |ts'|
    ensures AcceptChild(ts', pos, key, v, tr) == AcceptChild(ts, pos, key, v, tr)
    decreases |ts| - pos, 6
  {
    var r := AcceptChild(ts, pos, key, v, tr);
    var ev := VisitChild(key);
    if v.visitChild(tr, key) {
      AllowedNotLast(v, tr, ev, r.trace);
      AttributesUnread(ts, ts', pos, v, Some(key), [], tr + [ev]);
    }
  }

  /** Changing anything after the refused token, even where the stream ends,
      changes nothing: the parse never reads past that token. */
  lemma {:induction false} RefusalStopsReading(ts: seq<Token>, ts': seq<Token>, v: Oracle)
    requires var r := Parse(ts, v); |r.trace| > 0 && !Allows(v, r.trace[..|r.trace| - 1], r.trace[|r.trace| - 1])
    requires var p := Parse(ts, v).pos; p <= |ts'| && ts'[..p] == ts[..p]
    ensures Parse(ts, v).Aborted? && 0 < Parse(ts, v).pos
    ensures Parse(ts', v) == Parse(ts, v)
  {
    var r := Parse(ts, v);
    ParseAnswered(ts, v);
    assert r.trace[0..] == r.trace;
    assert !Admits(v, [], r.trace) by {
      assert r.trace == r.trace[..|r.trace| - 1] + [r.trace[|r.trace| - 1]];
      AdmitsAppend(v, [], r.trace[..|r.trace| - 1], [r.trace[|r.trace| - 1]]);
      AdmitsCons(v, [] + r.trace[..|r.trace| - 1], r.trace[|r.trace| - 1], []);
      assert [] + r.trace[..|r.trace| - 1] == r.trace[..|r.trace| - 1];
    }
    forall i | 0 <= i < r.pos
      ensures ts[i] == ts'[i]
    {
      assert ts[i] == ts[..r.pos][i] && ts'[i] == ts'[..r.pos][i];
    }
    AttributesUnread(ts, ts', 0, v, None, [], []);
  }
}
