/** Byte-sequence helpers the connection handler relies on: whitespace
    trimming (Go's `bytes.TrimSpace`), splitting at the first space
    (`strings.SplitN(s, " ", 2)`) and upper-casing (`strings.ToUpper`).

    Simplification: only ASCII is modelled. Whitespace is the six ASCII
    space bytes and upper-casing maps `a`..`z` to `A`..`Z`; the Unicode
    behaviour of the Go library on non-ASCII input is not modelled. */
module Bytes {
  import opened Wrappers

  /** One octet of the connection's byte stream. */
  newtype byte = b: int | 0 <= b < 256

  const TAB: byte := 9
  const LF: byte := 10
  const CR: byte := 13
  const SP: byte := 32
  const CRLF: seq<byte> := [CR, LF]

  /** The byte a character literal stands for; the model only ever applies
      this to ASCII text, other characters become `?`. */
  function ByteOf(c: char): byte {
    if c as int < 256 then c as int as byte else 63
  }

  /** An ASCII string literal as the bytes Go would write for it. */
  function Ascii(s: string): (r: seq<byte>)
    ensures |r| == |s|
    ensures forall i :: 0 <= i < |s| ==> r[i] == ByteOf(s[i])
  {
    seq(|s|, i requires 0 <= i < |s| => ByteOf(s[i]))
  }

  /** Literals may be built up piece by piece. */
  lemma AsciiConcat(a: string, b: string)
    ensures Ascii(a + b) == Ascii(a) + Ascii(b)
  {
  }

  /** A character a literal does not contain is not among its bytes. */
  lemma AsciiOmits(s: string, c: char)
    requires c !in s && c as int < 256 && c != '?'
    ensures ByteOf(c) !in Ascii(s)
  {
    forall i | 0 <= i < |s| ensures Ascii(s)[i] != ByteOf(c) {
      assert s[i] != c;
    }
  }

  /** Concatenation is associative; stated once so that proofs can name
      the regrouping instead of searching for it. */
  lemma AppendAssoc<T>(x: seq<T>, y: seq<T>, z: seq<T>)
    ensures x + (y + z) == (x + y) + z
  {
  }

  /** A common first part keeps a prefix a prefix. */
  lemma PrefixOfPrefix<T>(x: seq<T>, y: seq<T>, z: seq<T>)
    requires y <= z
    ensures x + y <= x + z
  {
    assert (x + z)[..|x + y|] == x + z[..|y|];
  }

  /** The two halves of an append, recovered by slicing. */
  lemma SplitAt<T>(x: seq<T>, y: seq<T>)
    ensures (x + y)[..|x|] == x && (x + y)[|x|..] == y
  {
  }

  /** Cutting a concatenation inside its second part. */
  lemma SliceOfAppend<T>(x: seq<T>, y: seq<T>, k: nat)
    requires k <= |y|
    ensures (x + y)[..|x| + k] == x + y[..k]
    ensures (x + y)[|x| + k..] == y[k..]
  {
  }

  // ---------------------------------------------------------------------
  // Searching

  /** Position of the first occurrence of `b` in `s`, if any. */
  function IndexOf(s: seq<byte>, b: byte): (r: Option<nat>)
    ensures r.Some? ==> r.value < |s| && s[r.value] == b
    ensures r.Some? ==> forall k :: 0 <= k < r.value ==> s[k] != b
    ensures r.None? <==> b !in s
  {
    if |s| == 0 then None
    else if s[0] == b then Some(0)
    else
      match IndexOf(s[1..], b)
      case None => None
      case Some(i) => Some(i + 1)
  }

  /** The first occurrence is found wherever the input is cut around it. */
  lemma IndexOfSplit(a: seq<byte>, b: byte, c: seq<byte>)
    requires b !in a
    ensures IndexOf(a + [b] + c, b) == Some(|a|)
  {
    var s := a + [b] + c;
    assert s[|a|] == b;
    assert forall k :: 0 <= k < |a| ==> s[k] == a[k];
  }

  // ---------------------------------------------------------------------
  // Whitespace trimming

  /** ASCII whitespace as Go's `bytes.TrimSpace` sees it on ASCII input:
      tab, line feed, vertical tab, form feed, carriage return, space. */
  predicate IsSpace(b: byte) {
    b == TAB || b == LF || b == 11 || b == 12 || b == CR || b == SP
  }

  predicate AllSpace(s: seq<byte>) {
    forall i :: 0 <= i < |s| ==> IsSpace(s[i])
  }

  /** Neither the first nor the last byte is whitespace. */
  predicate Tight(s: seq<byte>) {
    |s| == 0 || (!IsSpace(s[0]) && !IsSpace(s[|s| - 1]))
  }

  /** `s` with its leading whitespace removed: a suffix of `s` after a run
      of whitespace that starts with a non-space byte. */
  function TrimLeft(s: seq<byte>): (r: seq<byte>)
    ensures |r| <= |s| && r == s[|s| - |r|..]
    ensures AllSpace(s[..|s| - |r|])
    ensures |r| == 0 || !IsSpace(r[0])
  {
    if |s| > 0 && IsSpace(s[0]) then TrimLeft(s[1..]) else s
  }

  /** `s` with its trailing whitespace removed: a prefix of `s` before a run
      of whitespace that ends with a non-space byte. */
  function TrimRight(s: seq<byte>): (r: seq<byte>)
    ensures |r| <= |s| && r == s[..|r|]
    ensures AllSpace(s[|r|..])
    ensures |r| == 0 || !IsSpace(r[|r| - 1])
  {
    if |s| > 0 && IsSpace(s[|s| - 1]) then TrimRight(s[..|s| - 1]) else s
  }

  /** Go's `bytes.TrimSpace` on ASCII input. */
  function Trim(s: seq<byte>): seq<byte> {
    TrimRight(TrimLeft(s))
  }

  /** `s[i..j]` is what remains of `s` once the whitespace before `i` and
      after `j` is cut off and nothing more. */
  ghost predicate TrimmedAt(s: seq<byte>, i: nat, j: nat) {
    && i <= j <= |s|
    && AllSpace(s[..i])
    && AllSpace(s[j..])
    && Tight(s[i..j])
  }

  /** Where the trimmed line starts inside the untrimmed one. */
  function TrimStart(s: seq<byte>): nat {
    |s| - |TrimLeft(s)|
  }

  /** Trim removes exactly the surrounding whitespace: its result is the
      slice of the input at a cut that TrimmedAt accepts. */
  lemma TrimIsTrimmedAt(s: seq<byte>)
    ensures TrimStart(s) + |Trim(s)| <= |s|
    ensures TrimmedAt(s, TrimStart(s), TrimStart(s) + |Trim(s)|)
    ensures Trim(s) == s[TrimStart(s)..TrimStart(s) + |Trim(s)|]
  {
    TrimmedAtOfParts(s, TrimStart(s), TrimLeft(s), Trim(s));
  }

  /** Stripping a leading run of whitespace and then a trailing one leaves
      a tight slice of the input. */
  lemma TrimmedAtOfParts(s: seq<byte>, i: nat, l: seq<byte>, r: seq<byte>)
    requires i <= |s| && l == s[i..] && AllSpace(s[..i]) && (|l| == 0 || !IsSpace(l[0]))
    requires |r| <= |l| && r == l[..|r|] && AllSpace(l[|r|..]) && (|r| == 0 || !IsSpace(r[|r| - 1]))
    ensures TrimmedAt(s, i, i + |r|) && r == s[i..i + |r|]
  {
    assert s[i..i + |r|] == l[..|r|];
    assert s[i + |r|..] == l[|r|..];
    if |r| > 0 {
      assert !IsSpace(r[0]) by {
        if |r| < |l| { assert r[0] == l[0]; } else { assert r == l; }
      }
    }
  }

  /** Two runs of whitespace make one. */
  lemma AllSpaceConcat(a: seq<byte>, b: seq<byte>)
    requires AllSpace(a) && AllSpace(b)
    ensures AllSpace(a + b)
  {
    forall k | 0 <= k < |a + b| ensures IsSpace((a + b)[k]) {
      if k >= |a| { assert (a + b)[k] == b[k - |a|]; }
    }
  }

  /** TrimLeft stops at the first non-space byte. */
  lemma {:induction false} TrimLeftAt(s: seq<byte>, i: nat)
    requires i < |s| && AllSpace(s[..i]) && !IsSpace(s[i])
    ensures TrimLeft(s) == s[i..]
  {
    if i > 0 {
      assert IsSpace(s[..i][0]);
      assert s[1..][..i - 1] == s[1..i];
      TrimLeftAt(s[1..], i - 1);
      assert s[1..][i - 1..] == s[i..];
    }
  }

  /** TrimRight stops after the last non-space byte. */
  lemma {:induction false} TrimRightAt(s: seq<byte>, j: nat)
    requires 0 < j <= |s| && AllSpace(s[j..]) && !IsSpace(s[j - 1])
    ensures TrimRight(s) == s[..j]
  {
    if j < |s| {
      var last := |s| - 1;
      assert IsSpace(s[j..][last - j]);
      var s' := s[..last];
      assert s'[j..] == s[j..last];
      TrimRightAt(s', j);
      assert s'[..j] == s[..j];
    }
  }

  /** A line of nothing but whitespace trims to nothing. */
  lemma {:induction false} TrimLeftAllSpace(s: seq<byte>)
    requires AllSpace(s)
    ensures TrimLeft(s) == []
  {
    if |s| > 0 {
      TrimLeftAllSpace(s[1..]);
    }
  }

  /** Any cut that TrimmedAt accepts yields exactly Trim's result, so the
      trimmed line is uniquely determined by the untrimmed one. */
  lemma {:induction false} TrimmedAtIsTrim(s: seq<byte>, i: nat, j: nat)
    requires TrimmedAt(s, i, j)
    ensures Trim(s) == s[i..j]
  {
    if i < j {
      TrimmedAtInner(s, i, j);
    } else {
      TrimmedAtBlank(s, i);
    }
  }

  /** A non-empty cut: TrimLeft stops at `i` and TrimRight at `j`. */
  lemma TrimmedAtInner(s: seq<byte>, i: nat, j: nat)
    requires TrimmedAt(s, i, j) && i < j
    ensures Trim(s) == s[i..j]
  {
    var l := s[i..];
    var k := j - i;
    assert !IsSpace(s[i]) by { assert s[i..j][0] == s[i]; }
    TrimLeftAt(s, i);
    assert l[k..] == s[j..];
    assert !IsSpace(l[k - 1]) by { assert l[k - 1] == s[i..j][k - 1]; }
    TrimRightAt(l, k);
    assert l[..k] == s[i..j];
  }

  /** An empty cut: the line is all whitespace and trims to nothing. */
  lemma TrimmedAtBlank(s: seq<byte>, i: nat)
    requires TrimmedAt(s, i, i)
    ensures Trim(s) == []
  {
    assert s == s[..i] + s[i..];
    AllSpaceConcat(s[..i], s[i..]);
    TrimLeftAllSpace(s);
  }

  lemma TrimmedAtIsSlice(t: seq<byte>, i: nat, j: nat, x: seq<byte>)
    requires TrimmedAt(t, i, j) && t[i..j] == x
    ensures Trim(t) == x
  {
    TrimmedAtIsTrim(t, i, j);
  }

  /** The cut at which `s` trims, as plain positions. */
  lemma TrimCut(s: seq<byte>) returns (i: nat, j: nat)
    ensures TrimmedAt(s, i, j) && Trim(s) == s[i..j]
  {
    TrimIsTrimmedAt(s);
    i, j := TrimStart(s), TrimStart(s) + |Trim(s)|;
  }

  /** A cut of `s` is still a cut once whitespace surrounds `s`, so the
      surrounded line trims to the same slice. */
  lemma TrimmedAtWiden(p: seq<byte>, s: seq<byte>, q: seq<byte>, i: nat, j: nat)
    requires AllSpace(p) && AllSpace(q) && TrimmedAt(s, i, j)
    ensures Trim(p + s + q) == s[i..j]
  {
    var t := p + s + q;
    assert t[..|p| + i] == p + s[..i];
    assert t[|p| + j..] == s[j..] + q;
    assert t[|p| + i..|p| + j] == s[i..j];
    AllSpaceConcat(p, s[..i]);
    AllSpaceConcat(s[j..], q);
    TrimmedAtIsSlice(t, |p| + i, |p| + j, s[i..j]);
  }

  /** Whitespace added around a line does not change the trimmed line. */
  lemma TrimAbsorbsSpace(p: seq<byte>, s: seq<byte>, q: seq<byte>)
    requires AllSpace(p) && AllSpace(q)
    ensures Trim(p + s + q) == Trim(s)
  {
    var i, j := TrimCut(s);
    TrimmedAtWiden(p, s, q, i, j);
  }

  /** Trimming twice is trimming once. */
  lemma TrimIdempotent(s: seq<byte>)
    ensures Trim(Trim(s)) == Trim(s)
  {
    var r := Trim(s);
    TrimIsTrimmedAt(s);
    assert r[..0] == [] && r[|r|..] == [] && r[0..|r|] == r;
    TrimmedAtIsTrim(r, 0, |r|);
  }

  // ---------------------------------------------------------------------
  // Splitting at the first space

  /** `strings.SplitN(s, " ", 2)`: the part before the first space, and the
      part after it when there is a space (the slice has length two). */
  function SplitOnce(s: seq<byte>): (r: (seq<byte>, Option<seq<byte>>))
    ensures SP !in r.0
    ensures r.1.None? ==> r.0 == s
    ensures r.1.Some? ==> r.0 + [SP] + r.1.value == s
    ensures r.1.None? <==> SP !in s
  {
    match IndexOf(s, SP)
    case None => (s, None)
    case Some(i) =>
      assert s == s[..i] + [SP] + s[i + 1..];
      (s[..i], Some(s[i + 1..]))
  }

  /** Cutting a line at a space that has no space before it gives back the
      two pieces. */
  lemma SplitOnceAt(w: seq<byte>, tail: seq<byte>)
    requires SP !in w
    ensures SplitOnce(w + [SP] + tail) == (w, Some(tail))
  {
    IndexOfSplit(w, SP, tail);
    var s := w + [SP] + tail;
    assert s[..|w|] == w && s[|w| + 1..] == tail;
  }

  // ---------------------------------------------------------------------
  // ASCII upper-casing

  predicate IsLower(b: byte) { 97 <= b <= 122 }
  predicate IsUpper(b: byte) { 65 <= b <= 90 }
  predicate IsLetter(b: byte) { IsLower(b) || IsUpper(b) }

  /** One byte upper-cased: never a lower-case letter afterwards. */
  function UpperByte(b: byte): (r: byte)
    ensures !IsLower(r)
    ensures IsLower(b) ==> IsUpper(r) && r as int == b as int - 32
    ensures !IsLower(b) ==> r == b
  {
    if IsLower(b) then b - 32 else b
  }

  /** `strings.ToUpper` on ASCII: each lower-case letter becomes its
      upper-case partner and every other byte is kept. */
  function ToUpper(s: seq<byte>): (r: seq<byte>)
    ensures |r| == |s|
    ensures forall i :: 0 <= i < |s| ==> r[i] == UpperByte(s[i])
    ensures forall i :: 0 <= i < |r| ==> !IsLower(r[i])
    ensures EqualIgnoringCase(s, r)
  {
    seq(|s|, i requires 0 <= i < |s| => UpperByte(s[i]))
  }

  /** The upper-cased word is the only word without lower-case letters
      that equals the input up to case. */
  lemma ToUpperUnique(s: seq<byte>, r: seq<byte>)
    requires EqualIgnoringCase(s, r)
    requires forall i :: 0 <= i < |r| ==> !IsLower(r[i])
    ensures r == ToUpper(s)
  {
    forall i | 0 <= i < |r| ensures r[i] == ToUpper(s)[i] {
      assert SameIgnoringCase(s[i], r[i]);
    }
  }

  /** Two bytes are the same letter up to case, or the same byte. */
  predicate SameIgnoringCase(x: byte, y: byte) {
    x == y || (IsLetter(x) && IsLetter(y) && (x as int - y as int == 32 || y as int - x as int == 32))
  }

  /** Two words of the same length that agree byte by byte up to case. */
  predicate EqualIgnoringCase(a: seq<byte>, b: seq<byte>) {
    |a| == |b| && forall i :: 0 <= i < |a| ==> SameIgnoringCase(a[i], b[i])
  }

  /** Two bytes upper-case alike exactly when they agree up to case. */
  lemma UpperByteCaseInsensitive(x: byte, y: byte)
    ensures UpperByte(x) == UpperByte(y) <==> SameIgnoringCase(x, y)
  {
  }

  /** Upper-casing identifies exactly the words that differ only in the case
      of their letters. */
  lemma ToUpperCaseInsensitive(a: seq<byte>, b: seq<byte>)
    ensures ToUpper(a) == ToUpper(b) <==> EqualIgnoringCase(a, b)
  {
    if ToUpper(a) == ToUpper(b) {
      forall i | 0 <= i < |a| ensures SameIgnoringCase(a[i], b[i]) {
        assert ToUpper(a)[i] == ToUpper(b)[i];
        UpperByteCaseInsensitive(a[i], b[i]);
      }
    }
    if EqualIgnoringCase(a, b) {
      forall i | 0 <= i < |a| ensures ToUpper(a)[i] == ToUpper(b)[i] {
        UpperByteCaseInsensitive(a[i], b[i]);
      }
    }
  }

  /** Upper-casing an upper-cased word changes nothing. */
  lemma ToUpperIdempotent(s: seq<byte>)
    ensures ToUpper(ToUpper(s)) == ToUpper(s)
  {
  }
}
