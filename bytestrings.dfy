/**
 * Go strings are byte sequences; this module models them as such, together
 * with the handful of `strings` and `bytes` library functions the tree engine
 * relies on (Split, Fields, TrimLeft, Repeat, IndexByte and string `<`).
 */
module ByteStrings {

  type byte = b: int | 0 <= b < 256
  type Bytes = seq<byte>

  const NUL: byte := 0
  const TAB: byte := 9
  const LF: byte := 10
  const SP: byte := 32
  const ZERO: byte := 48  // the character '0'

  /** The bytes of a string literal whose characters are all below 256. */
  function Ascii(s: string): Bytes
  {
    seq(|s|, i requires 0 <= i < |s| => (s[i] as int) % 256)
  }

  /** bytes.IndexByte: the position of the first `b` in `s`, or -1 when there is none. */
  function IndexByte(s: Bytes, b: byte): (r: int)
    ensures -1 <= r < |s|
    ensures r == -1 <==> b !in s
    ensures r >= 0 ==> s[r] == b && b !in s[..r]
    decreases |s|
  {
    if |s| == 0 then -1
    else if s[0] == b then 0
    else
      var k := IndexByte(s[1..], b);
      if k < 0 then -1
      else
        assert s[..k + 1] == [s[0]] + s[1..][..k];
        k + 1
  }

  /** strings.Join(pieces, "\n"). */
  function JoinLines(pieces: seq<Bytes>): Bytes
    requires |pieces| >= 1
    decreases |pieces|
  {
    if |pieces| == 1 then pieces[0] else pieces[0] + [LF] + JoinLines(pieces[1..])
  }

  /** strings.Split(s, "\n"): the pieces between line feeds, one more than there are line feeds. */
  function SplitLines(s: Bytes): (pieces: seq<Bytes>)
    ensures |pieces| >= 1
    ensures forall i :: 0 <= i < |pieces| ==> LF !in pieces[i]
    decreases |s|
  {
    var k := IndexByte(s, LF);
    if k < 0 then [s]
    else
      var rest := SplitLines(s[k + 1..]);
      var pieces := [s[..k]] + rest;
      assert forall i :: 1 <= i < |pieces| ==> pieces[i] == rest[i - 1];
      pieces
  }

  /** Joining the pieces with line feeds gives the text back. */
  lemma {:induction false} JoinSplitLines(s: Bytes)
    ensures JoinLines(SplitLines(s)) == s
    decreases |s|
  {
    var k := IndexByte(s, LF);
    if k >= 0 {
      var tail := s[k + 1..];
      SplitLinesStep(s);
      JoinSplitLines(tail);
      CutAt(s, k);
    }
  }

  /** `s` is what lies before position `k`, the byte there, and what follows. */
  lemma CutAt(s: Bytes, k: nat)
    requires k < |s|
    ensures s == s[..k] + [s[k]] + s[k + 1..]
  {
  }

  /** At the first line feed of `s`, the split takes the text before it and continues after it. */
  lemma SplitLinesStep(s: Bytes)
    requires LF in s
    ensures var k := IndexByte(s, LF);
      && SplitLines(s) == [s[..k]] + SplitLines(s[k + 1..])
      && JoinLines(SplitLines(s)) == s[..k] + [LF] + JoinLines(SplitLines(s[k + 1..]))
  {
    SplitLinesFirst(s);
    var k := IndexByte(s, LF);
    assert SplitLines(s)[1..] == SplitLines(s[k + 1..]);
  }

  lemma SplitLinesFirst(s: Bytes)
    requires LF in s
    ensures SplitLines(s) == [s[..IndexByte(s, LF)]] + SplitLines(s[IndexByte(s, LF) + 1..])
  {
  }

  /** A line without a line feed, followed by one, is split off as the first piece. */
  lemma SplitLinesCons(line: Bytes, rest: Bytes)
    requires LF !in line
    ensures SplitLines(line + [LF] + rest) == [line] + SplitLines(rest)
  {
    var s := line + [LF] + rest;
    var k := IndexByte(s, LF);
    assert s[..|line|] == line;
    assert s[|line|] == LF;
    assert s[k + 1..] == rest;
  }

  /** Splitting at a line feed splits the two sides independently. */
  lemma {:induction false} SplitLinesAppend(a: Bytes, b: Bytes)
    ensures SplitLines(a + [LF] + b) == SplitLines(a) + SplitLines(b)
    decreases |a|
  {
    if LF !in a {
      SplitLinesCons(a, b);
    } else {
      var k := IndexByte(a, LF);
      var s := a + [LF] + b;
      var tail := a[k + 1..];
      FirstLineFeedKept(a, b);
      SplitLinesFirst(s);
      SplitLinesFirst(a);
      assert SplitLines(s) == [a[..k]] + SplitLines(tail + [LF] + b);
      assert SplitLines(a) == [a[..k]] + SplitLines(tail);
      SplitLinesAppend(tail, b);
      assert SplitLines(s) == [a[..k]] + (SplitLines(tail) + SplitLines(b));
      ConsAssociative(a[..k], SplitLines(tail), SplitLines(b));
    }
  }

  lemma ConsAssociative(x: Bytes, p: seq<Bytes>, q: seq<Bytes>)
    ensures [x] + (p + q) == ([x] + p) + q
  {
  }

  /** Appending after `a` leaves the first line feed of `a`, and what comes before it, in place. */
  lemma FirstLineFeedKept(a: Bytes, b: Bytes)
    requires LF in a
    ensures var k := IndexByte(a, LF);
      var s := a + [LF] + b;
      && IndexByte(s, LF) == k
      && s[..k] == a[..k]
      && s[k + 1..] == a[k + 1..] + [LF] + b
  {
    var k := IndexByte(a, LF);
    var s := a + [LF] + b;
    IndexBytePrefix(a, [LF] + b, LF);
    assert s == a + ([LF] + b);
    assert s[..k] == a[..k];
    assert s[k + 1..] == a[k + 1..] + [LF] + b;
  }

  /** The first `b` of `a` is still the first one after something is appended. */
  lemma IndexBytePrefix(a: Bytes, c: Bytes, b: byte)
    requires b in a
    ensures IndexByte(a + c, b) == IndexByte(a, b)
  {
    var k := IndexByte(a, b);
    var k' := IndexByte(a + c, b);
    assert (a + c)[k] == b;
    assert (a + c)[..k] == a[..k];
  }

  /** A prefix without `b` shifts the position of the first `b` by its length. */
  lemma IndexByteSkip(a: Bytes, c: Bytes, b: byte)
    requires b !in a && b in c
    ensures IndexByte(a + c, b) == |a| + IndexByte(c, b)
  {
    var k := IndexByte(c, b);
    var s := a + c;
    assert s[..|a| + k] == a + c[..k];
    FirstIndex(s, b, |a| + k);
  }

  /** A position holding `b` with no `b` before it is the one IndexByte finds. */
  lemma FirstIndex(s: Bytes, b: byte, m: nat)
    requires m < |s| && s[m] == b && b !in s[..m]
    ensures IndexByte(s, b) == m
  {
  }

  /** The whitespace bytes of strings.Fields (ASCII: tab, LF, VT, FF, CR and space). */
  predicate IsSpace(b: byte)
  {
    b == 9 || b == 10 || b == 11 || b == 12 || b == 13 || b == 32
  }

  predicate NoSpace(s: Bytes)
  {
    forall i :: 0 <= i < |s| ==> !IsSpace(s[i])
  }

  /** A field: a non-empty run of non-space bytes. */
  predicate IsToken(s: Bytes)
  {
    |s| > 0 && NoSpace(s)
  }

  /** The length of the run of non-space bytes that starts `s`. */
  function TokenLength(s: Bytes): (n: nat)
    ensures n <= |s|
    ensures NoSpace(s[..n])
    ensures n < |s| ==> IsSpace(s[n])
    decreases |s|
  {
    if |s| == 0 || IsSpace(s[0]) then 0
    else
      var n := TokenLength(s[1..]);
      assert s[..n + 1] == [s[0]] + s[1..][..n];
      n + 1
  }

  /** strings.Fields: the maximal runs of non-space bytes, in order. */
  function Fields(s: Bytes): (fields: seq<Bytes>)
    ensures forall i :: 0 <= i < |fields| ==> IsToken(fields[i])
    decreases |s|
  {
    if |s| == 0 then []
    else if IsSpace(s[0]) then Fields(s[1..])
    else
      var n := TokenLength(s);
      [s[..n]] + Fields(s[n..])
  }

  /** A token followed by whitespace (or by nothing) is the first field. */
  lemma FieldsCons(t: Bytes, rest: Bytes)
    requires IsToken(t)
    requires rest == [] || IsSpace(rest[0])
    ensures Fields(t + rest) == [t] + Fields(rest)
  {
    var s := t + rest;
    TokenLengthOfToken(t, rest);
    assert s[..|t|] == t;
    assert s[|t|..] == rest;
    if rest != [] {
      assert Fields(rest) == Fields(rest[1..]);
    }
  }

  lemma {:induction false} TokenLengthOfToken(t: Bytes, rest: Bytes)
    requires NoSpace(t)
    requires rest == [] || IsSpace(rest[0])
    ensures TokenLength(t + rest) == |t|
    decreases |t|
  {
    var s := t + rest;
    if |t| > 0 {
      assert s[1..] == t[1..] + rest;
      TokenLengthOfToken(t[1..], rest);
    }
  }

  /** A token and the single whitespace byte after it are split off as the first field. */
  lemma FieldsConsSpace(t: Bytes, w: byte, rest: Bytes)
    requires IsToken(t) && IsSpace(w)
    ensures Fields(t + ([w] + rest)) == [t] + Fields(rest)
  {
    FieldsCons(t, [w] + rest);
    assert ([w] + rest)[1..] == rest;
  }

  /** The fields of `a SP b SP c TAB d` are exactly a, b, c and d. */
  lemma FieldsOfFour(a: Bytes, b: Bytes, c: Bytes, d: Bytes)
    requires IsToken(a) && IsToken(b) && IsToken(c) && IsToken(d)
    ensures Fields(a + [SP] + b + [SP] + c + [TAB] + d) == [a, b, c, d]
  {
    var s3 := c + ([TAB] + d);
    var s2 := b + ([SP] + s3);
    Regroup(a, b, c, d);
    FieldsConsSpace(a, SP, s2);
    FieldsOfThree(b, c, d);
  }

  lemma FieldsOfThree(b: Bytes, c: Bytes, d: Bytes)
    requires IsToken(b) && IsToken(c) && IsToken(d)
    ensures Fields(b + ([SP] + (c + ([TAB] + d)))) == [b, c, d]
  {
    FieldsConsSpace(b, SP, c + ([TAB] + d));
    FieldsOfTwo(c, d);
  }

  lemma FieldsOfTwo(c: Bytes, d: Bytes)
    requires IsToken(c) && IsToken(d)
    ensures Fields(c + ([TAB] + d)) == [c, d]
  {
    FieldsConsSpace(c, TAB, d);
    FieldsCons(d, []);
    assert d + [] == d;
  }

  lemma Regroup(a: Bytes, b: Bytes, c: Bytes, d: Bytes)
    ensures a + [SP] + b + [SP] + c + [TAB] + d == a + ([SP] + (b + ([SP] + (c + ([TAB] + d)))))
  {
  }

  /** strings.Repeat("0", n). */
  function Zeros(n: nat): (z: Bytes)
    ensures |z| == n
    ensures forall i :: 0 <= i < n ==> z[i] == ZERO
  {
    seq(n, _ => ZERO)
  }

  /** strings.TrimLeft(s, "0"): `s` without its leading '0' bytes. */
  function TrimZeros(s: Bytes): (r: Bytes)
    ensures |r| <= |s|
    ensures s == Zeros(|s| - |r|) + r
    ensures |r| > 0 ==> r[0] != ZERO
    decreases |s|
  {
    if |s| > 0 && s[0] == ZERO then
      var r := TrimZeros(s[1..]);
      assert Zeros(|s| - |r|) == [ZERO] + Zeros(|s| - 1 - |r|);
      r
    else
      assert Zeros(0) == [];
      s
  }

  /** Go's string `<`: byte-wise lexicographic order, a proper prefix coming first. */
  predicate Less(a: Bytes, b: Bytes)
    decreases |a|
  {
    |b| > 0 && (|a| == 0 || a[0] < b[0] || (a[0] == b[0] && Less(a[1..], b[1..])))
  }

  lemma {:induction false} LessIrreflexive(a: Bytes)
    ensures !Less(a, a)
    decreases |a|
  {
    if |a| > 0 {
      LessIrreflexive(a[1..]);
    }
  }

  lemma {:induction false} LessTransitive(a: Bytes, b: Bytes, c: Bytes)
    requires Less(a, b) && Less(b, c)
    ensures Less(a, c)
    decreases |a|
  {
    if |a| > 0 && a[0] == b[0] && b[0] == c[0] {
      LessTransitive(a[1..], b[1..], c[1..]);
    }
  }

  lemma {:induction false} LessTotal(a: Bytes, b: Bytes)
    ensures a == b || Less(a, b) || Less(b, a)
    decreases |a|
  {
    if |a| > 0 && |b| > 0 && a[0] == b[0] {
      LessTotal(a[1..], b[1..]);
      if a[1..] == b[1..] {
        assert a == [a[0]] + a[1..] && b == [b[0]] + b[1..];
      }
    }
  }

  lemma {:induction false} LessAsymmetric(a: Bytes, b: Bytes)
    requires Less(a, b)
    ensures !Less(b, a)
    decreases |a|
  {
    if |a| > 0 && a[0] == b[0] {
      LessAsymmetric(a[1..], b[1..]);
    }
  }
}
