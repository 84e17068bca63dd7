// Byte strings, the order a byte-keyed B-tree iterates them in, and the zero-escaping that both key
// codecs of the repository share.
module Bytes {

  type Byte = b: int | 0 <= b < 256

  /** The two strings differ at some position inside both, and the first difference is in favour of `a`.
      Unlike the lexicographic order itself this relation survives appending anything to either side. */
  predicate Diverges(a: seq<Byte>, b: seq<Byte>) {
    exists k :: 0 <= k < |a| && DivergesAt(a, b, k)
  }

  predicate DivergesAt(a: seq<Byte>, b: seq<Byte>, k: int) {
    0 <= k < |a| && k < |b| && a[..k] == b[..k] && a[k] < b[k]
  }

  /** Lexicographic order on byte strings: the order of `Vec<u8>`. */
  predicate Less(a: seq<Byte>, b: seq<Byte>) {
    Diverges(a, b) || a < b
  }

  lemma {:induction false} DivergesAppend(p: seq<Byte>, a: seq<Byte>, b: seq<Byte>, x: seq<Byte>, y: seq<Byte>)
    requires Diverges(a, b)
    ensures Diverges(p + a + x, p + b + y)
  {
    var k :| 0 <= k < |a| && DivergesAt(a, b, k);
    var l, r := p + a + x, p + b + y;
    assert l[..|p| + k] == p + a[..k];
    assert r[..|p| + k] == p + b[..k];
    assert DivergesAt(l, r, |p| + k);
  }

  lemma {:induction false} LessIrreflexive(a: seq<Byte>)
    ensures !Less(a, a)
  {
  }

  lemma {:induction false} LessTotal(a: seq<Byte>, b: seq<Byte>)
    ensures a == b || Less(a, b) || Less(b, a)
  {
    if a == [] || b == [] {
    } else if a[0] < b[0] {
      assert DivergesAt(a, b, 0);
    } else if b[0] < a[0] {
      assert DivergesAt(b, a, 0);
    } else {
      LessTotal(a[1..], b[1..]);
      assert a == [a[0]] + a[1..] && b == [b[0]] + b[1..];
      if Diverges(a[1..], b[1..]) {
        DivergesAppend([a[0]], a[1..], b[1..], [], []);
        assert [a[0]] + a[1..] + [] == a && [b[0]] + b[1..] + [] == b;
      } else if Diverges(b[1..], a[1..]) {
        DivergesAppend([a[0]], b[1..], a[1..], [], []);
        assert [a[0]] + a[1..] + [] == a && [b[0]] + b[1..] + [] == b;
      }
    }
  }

  lemma {:induction false} LessTransitive(a: seq<Byte>, b: seq<Byte>, c: seq<Byte>)
    requires Less(a, b) && Less(b, c)
    ensures Less(a, c)
  {
    if Diverges(a, b) {
      var j :| 0 <= j < |a| && DivergesAt(a, b, j);
      if Diverges(b, c) {
        var k :| 0 <= k < |b| && DivergesAt(b, c, k);
        var m := if j < k then j else k;
        assert a[..j][..m] == b[..j][..m] && b[..k][..m] == c[..k][..m];
        assert a[..m] == b[..m] == c[..m];
        if j < k { assert b[..k][j] == c[..k][j]; }
        if k < j { assert a[..j][k] == b[..j][k]; }
        assert DivergesAt(a, c, m);
      } else {
        assert c[..j] == b[..j] && c[j] == b[j];
        assert DivergesAt(a, c, j);
      }
    } else if Diverges(b, c) {
      var k :| 0 <= k < |b| && DivergesAt(b, c, k);
      if k < |a| {
        assert a[..k] == b[..k] && a[k] == b[k];
        assert DivergesAt(a, c, k);
      } else {
        assert c[..k][..|a|] == b[..k][..|a|] == a;
        assert c[..|a|] == a;
      }
    }
  }

  lemma {:induction false} LessAsymmetric(a: seq<Byte>, b: seq<Byte>)
    requires Less(a, b)
    ensures !Less(b, a)
  {
    if Less(b, a) {
      LessTransitive(a, b, a);
      assert false;
    }
  }

  /** Two strings of one length are ordered by a divergence. */
  lemma {:induction false} LessSameLength(a: seq<Byte>, b: seq<Byte>)
    requires Less(a, b) && |a| == |b|
    ensures Diverges(a, b)
  {
  }

  // ---------------------------------------------------------------------------------------------
  // Zero-escaping: a zero byte is written as the pair 0, 255, and the string is closed by 0, 0.
  // ---------------------------------------------------------------------------------------------

  function EscapeByte(b: Byte): seq<Byte> {
    if b == 0 then [0, 255] else [b]
  }

  function Escape(s: seq<Byte>): seq<Byte> {
    if s == [] then [] else EscapeByte(s[0]) + Escape(s[1..])
  }

  function Escaped(s: seq<Byte>): seq<Byte> {
    Escape(s) + [0, 0]
  }

  lemma {:induction false} ConcatAssociative<T>(a: seq<T>, b: seq<T>, c: seq<T>)
    ensures (a + b) + c == a + (b + c)
  {
  }

  lemma {:induction false} EscapeConcat(a: seq<Byte>, b: seq<Byte>)
    ensures Escape(a + b) == Escape(a) + Escape(b)
  {
    if a == [] {
      assert a + b == b;
    } else {
      EscapeConcat(a[1..], b);
      assert (a + b)[0] == a[0] && (a + b)[1..] == a[1..] + b;
      ConcatAssociative(EscapeByte(a[0]), Escape(a[1..]), Escape(b));
    }
  }

  lemma {:induction false} EscapedSplit(s: seq<Byte>, k: nat)
    requires k < |s|
    ensures Escaped(s) == Escape(s[..k]) + EscapeByte(s[k]) + Escaped(s[k + 1..])
  {
    assert s == s[..k] + s[k..] && s[k..][1..] == s[k + 1..];
    EscapeConcat(s[..k], s[k..]);
  }

  /** Escaped strings are prefix-free and ordered as their originals are: whatever follows them, the
      encodings differ inside both. */
  lemma {:induction false} EscapedDiverges(a: seq<Byte>, b: seq<Byte>)
    requires Less(a, b)
    ensures Diverges(Escaped(a), Escaped(b))
  {
    if Diverges(a, b) {
      var k :| 0 <= k < |a| && DivergesAt(a, b, k);
      EscapedSplit(a, k);
      EscapedSplit(b, k);
      EscapeByteDiverges(a[k], b[k]);
      DivergesAppend(Escape(a[..k]), EscapeByte(a[k]), EscapeByte(b[k]), Escaped(a[k + 1..]), Escaped(b[k + 1..]));
    } else {
      EscapedSplit(b, |a|);
      assert b[..|a|] == a;
      assert DivergesAt([0, 0], EscapeByte(b[|a|]), 0) || DivergesAt([0, 0], EscapeByte(b[|a|]), 1);
      DivergesAppend(Escape(a), [0, 0], EscapeByte(b[|a|]), [], Escaped(b[|a| + 1..]));
      assert Escape(a) + [0, 0] + [] == Escaped(a);
    }
  }

  lemma {:induction false} EscapeByteDiverges(a: Byte, b: Byte)
    requires a < b
    ensures Diverges(EscapeByte(a), EscapeByte(b))
  {
    assert DivergesAt(EscapeByte(a), EscapeByte(b), 0);
  }
}
