/** Attribute and tag keys: opaque byte strings, ordered the way Rust orders
    `Vec<u8>` and `[u8]` (lexicographically, a proper prefix first). */
module Keys {

  /** One byte (`u8`). */
  type Byte = b: int | 0 <= b < 0x100

  /** A key as it appears in an attribute, an open tag or a close tag. */
  type Key = seq<Byte>

  /** `a < b` on byte slices, as the standard library's `Ord` for slices defines it:
      compare byte by byte; at the first difference the smaller byte wins;
      if one runs out first, the shorter one is smaller. */
  predicate Less(a: Key, b: Key)
    decreases |a|
  {
    if |a| == 0 then |b| > 0
    else |b| > 0 && (a[0] < b[0] || (a[0] == b[0] && Less(a[1..], b[1..])))
  }

  /** `a` and `b` agree before index `i`, and there `a` ends while `b` goes on,
      or `a`'s byte is the smaller one. */
  ghost predicate LessAt(a: Key, b: Key, i: nat)
  {
    i <= |a| && i < |b| && a[..i] == b[..i] && (i == |a| || a[i] < b[i])
  }

  /** The textbook definition of lexicographic order, independent of `Less`. */
  ghost predicate Lexicographic(a: Key, b: Key)
  {
    exists i: nat :: LessAt(a, b, i)
  }

  /** `Less` is exactly lexicographic order. */
  lemma {:induction false} LessIsLexicographic(a: Key, b: Key)
    ensures Less(a, b) <==> Lexicographic(a, b)
    decreases |a|
  {
    if |a| == 0 {
      if |b| > 0 {
        assert LessAt(a, b, 0);
      }
    } else if |b| == 0 {
    } else {
      var a', b' := a[1..], b[1..];
      LessIsLexicographic(a', b');
      if a[0] < b[0] {
        assert LessAt(a, b, 0);
      } else if Lexicographic(a, b) {
        var i: nat :| LessAt(a, b, i);
        assert i > 0;
        assert a[0] == a[..i][0] == b[..i][0] == b[0];
        assert a'[..i - 1] == a[..i][1..] == b[..i][1..] == b'[..i - 1];
        assert LessAt(a', b', i - 1);
      } else if a[0] == b[0] && Less(a', b') {
        var j: nat :| LessAt(a', b', j);
        assert a[..j + 1] == [a[0]] + a'[..j];
        assert b[..j + 1] == [b[0]] + b'[..j];
        assert LessAt(a, b, j + 1);
      }
    }
  }

  lemma {:induction false} LessIrreflexive(a: Key)
    ensures !Less(a, a)
    decreases |a|
  {
    if |a| > 0 {
      LessIrreflexive(a[1..]);
    }
  }

  lemma {:induction false} LessTransitive(a: Key, b: Key, c: Key)
    requires Less(a, b) && Less(b, c)
    ensures Less(a, c)
    decreases |a|
  {
    if |a| > 0 && a[0] == b[0] && b[0] == c[0] {
      LessTransitive(a[1..], b[1..], c[1..]);
    }
  }

  /** Any two different keys are ordered one way or the other. */
  lemma {:induction false} LessTotal(a: Key, b: Key)
    ensures a == b || Less(a, b) || Less(b, a)
    decreases |a|
  {
    if |a| > 0 && |b| > 0 && a[0] == b[0] {
      LessTotal(a[1..], b[1..]);
      if a[1..] == b[1..] {
        assert a == [a[0]] + a[1..] && b == [b[0]] + b[1..];
      }
    }
  }

  /** Because `Less` is a strict total order, `!Less(last, key)` is exactly the
      source's `last_key >= key`: `key` equals `last` or comes before it. */
  lemma {:induction false} NotLessIsGreaterOrEqual(last: Key, key: Key)
    ensures !Less(last, key) <==> (key == last || Less(key, last))
  {
    LessTotal(last, key);
    if Less(key, last) && Less(last, key) {
      LessTransitive(key, last, key);
      LessIrreflexive(key);
    }
    if key == last {
      LessIrreflexive(key);
    }
  }

  /** The empty key is below every other key and below nothing else. */
  lemma {:induction false} EmptyIsLeast(k: Key)
    ensures Less([], k) <==> k != []
  {
  }
}
