/** The option type the source uses for success (`Some(())`) and for keys that
    may be absent (the enclosing open key). */
module Options {

  datatype Option<+T> = None | Some(value: T)
}

/** The tokens the lexer hands to the deserializer. End-of-stream is not a
    token: it is reaching the end of the token sequence. */
module Tokens {

  import opened Keys

  /** An attribute value: opaque bytes. */
  type Value = seq<Byte>

  datatype Token =
    | Attr(key: Key, value: Value)
    | Open(key: Key)
    | Close(key: Key)

  /** `seg` occurs in `s` starting at index `pos`. */
  ghost predicate At<T>(s: seq<T>, pos: nat, seg: seq<T>)
  {
    pos + |seg| <= |s| && Matches(s, pos, seg)
  }

  /** The elements of `seg` are those of `s` from `pos` on, checked one at a time. */
  ghost predicate Matches<T>(s: seq<T>, pos: nat, seg: seq<T>)
    decreases |seg|
  {
    |seg| == 0 || (pos < |s| && s[pos] == seg[0] && Matches(s, pos + 1, seg[1..]))
  }

  lemma {:induction false} AtIsSlice<T>(s: seq<T>, pos: nat, seg: seq<T>)
    ensures At(s, pos, seg) <==> pos + |seg| <= |s| && s[pos..pos + |seg|] == seg
    decreases |seg|
  {
    if |seg| > 0 {
      AtIsSlice(s, pos + 1, seg[1..]);
      if pos + |seg| <= |s| && s[pos..pos + |seg|] == seg {
        assert s[pos + 1..pos + |seg|] == s[pos..pos + |seg|][1..];
      }
      if At(s, pos, seg) {
        assert s[pos..pos + |seg|] == [s[pos]] + s[pos + 1..pos + |seg|];
      }
    }
  }

  lemma {:induction false} AtAppend<T>(s: seq<T>, pos: nat, a: seq<T>, b: seq<T>)
    ensures At(s, pos, a + b) <==> At(s, pos, a) && At(s, pos + |a|, b)
    decreases |a|
  {
    if |a| == 0 {
      assert a + b == b;
    } else {
      assert (a + b)[0] == a[0];
      assert (a + b)[1..] == a[1..] + b;
      AtAppend(s, pos + 1, a[1..], b);
    }
  }

  lemma {:induction false} AtSingle<T>(s: seq<T>, pos: nat, t: T)
    ensures At(s, pos, [t]) <==> pos < |s| && s[pos] == t
  {
    assert [t][1..] == [];
    assert Matches(s, pos + 1, []);
  }

  lemma {:induction false} AtHead<T>(s: seq<T>, pos: nat, seg: seq<T>)
    requires At(s, pos, seg) && |seg| > 0
    ensures pos < |s| && s[pos] == seg[0]
  {
  }

  lemma {:induction false} AppendAssoc<T>(a: seq<T>, b: seq<T>, c: seq<T>)
    ensures a + b + c == a + (b + c)
  {
  }

}
