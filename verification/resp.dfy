/** The replies the server writes, in the RESP wire format (the Redis
    serialization protocol), and a decoder for them that the encoder is
    proved against. The server only ever produces three kinds of reply
    (app/server.go:12-17):
      simple string  `+<text>\r\n`
      bulk string    `$<decimal byte length>\r\n<data>\r\n`
      error          `-<text>\r\n`  */
module Resp {
  import opened Wrappers
  import opened Bytes

  datatype Reply = Simple(text: seq<byte>) | Bulk(data: seq<byte>) | Err(text: seq<byte>)

  const PLUS: byte := 43
  const DOLLAR: byte := 36
  const MINUS: byte := 45
  const ZERO: byte := 48

  /** Simple strings and errors are one line: they may not contain CR or LF.
      A bulk string is length-prefixed and may hold any bytes. */
  predicate WellFormed(r: Reply) {
    match r
    case Bulk(_) => true
    case Simple(t) => CR !in t && LF !in t
    case Err(t) => CR !in t && LF !in t
  }

  // ---------------------------------------------------------------------
  // Decimal length prefix

  predicate IsDigit(b: byte) { ZERO <= b <= ZERO + 9 }

  /** A non-empty run of decimal digits without a superfluous leading zero,
      the way Go's `%d` prints a non-negative integer. */
  predicate IsCanonical(d: seq<byte>) {
    && |d| >= 1
    && (forall i :: 0 <= i < |d| ==> IsDigit(d[i]))
    && (|d| > 1 ==> d[0] != ZERO)
  }

  /** `fmt.Sprintf("%d", n)` for a non-negative `n`. */
  function Decimal(n: nat): (r: seq<byte>)
    ensures IsCanonical(r)
    ensures r[0] == ZERO <==> n == 0
  {
    if n < 10 then [ZERO + n as byte]
    else Decimal(n / 10) + [ZERO + (n % 10) as byte]
  }

  /** The value of a run of decimal digits. */
  function ParseDecimal(d: seq<byte>): nat
    requires forall i :: 0 <= i < |d| ==> IsDigit(d[i])
  {
    if |d| == 0 then 0
    else
      assert IsDigit(d[|d| - 1]);
      ParseDecimal(d[..|d| - 1]) * 10 + (d[|d| - 1] as int - ZERO as int)
  }

  /** Reading back a printed number gives the number. */
  lemma {:induction false} ParseDecimalOfDecimal(n: nat)
    ensures ParseDecimal(Decimal(n)) == n
  {
    if n >= 10 {
      var d := Decimal(n);
      ParseDecimalOfDecimal(n / 10);
      assert d[..|d| - 1] == Decimal(n / 10);
    }
  }

  /** A leading digit other than zero makes the value positive. */
  lemma {:induction false} ParseDecimalPositive(d: seq<byte>)
    requires |d| >= 1 && (forall i :: 0 <= i < |d| ==> IsDigit(d[i])) && d[0] != ZERO
    ensures ParseDecimal(d) > 0
  {
    if |d| > 1 {
      ParseDecimalPositive(d[..|d| - 1]);
    }
  }

  /** Printing a parsed canonical number gives back the same digits: the
      printed form of a length is unique. */
  lemma {:induction false} DecimalOfParseDecimal(d: seq<byte>)
    requires IsCanonical(d)
    ensures Decimal(ParseDecimal(d)) == d
  {
    if |d| > 1 {
      var p := d[..|d| - 1];
      assert IsCanonical(p) by { assert p[0] == d[0]; }
      ParseDecimalPositive(p);
      DecimalOfParseDecimal(p);
      assert d == p + [d[|d| - 1]];
    }
  }

  // ---------------------------------------------------------------------
  // Encoding

  /** The bytes the server writes for a reply (app/server.go:39, 42, 45, 49). */
  function Encode(r: Reply): seq<byte> {
    match r
    case Simple(t) => [PLUS] + t + CRLF
    case Err(t) => [MINUS] + t + CRLF
    case Bulk(d) => [DOLLAR] + BulkBody(d)
  }

  /** What follows the `$` of a bulk string: the decimal length of the
      payload on its own line, then the payload and a CRLF. */
  function BulkBody(d: seq<byte>): seq<byte> {
    Decimal(|d|) + CRLF + d + CRLF
  }

  /** The replies written one after another on the connection. */
  function EncodeAll(rs: seq<Reply>): seq<byte> {
    if |rs| == 0 then [] else Encode(rs[0]) + EncodeAll(rs[1..])
  }

  // ---------------------------------------------------------------------
  // Decoding

  /** Reads one line of text up to the first CR, which must be followed by
      LF; the text may not hold a bare LF either. Returns the text and the
      bytes after the CRLF. */
  function ReadText(s: seq<byte>): (r: Option<(seq<byte>, seq<byte>)>)
    ensures r.Some? ==> CR !in r.value.0 && LF !in r.value.0
    ensures r.Some? ==> s == r.value.0 + CRLF + r.value.1
  {
    match IndexOf(s, CR)
    case None => None
    case Some(i) =>
      if i + 1 == |s| || s[i + 1] != LF || LF in s[..i] then None
      else
        assert CR !in s[..i] by {
          forall k | 0 <= k < i ensures s[..i][k] != CR { assert s[..i][k] == s[k]; }
        }
        assert s == s[..i] + CRLF + s[i + 2..];
        Some((s[..i], s[i + 2..]))
  }

  /** Reads the body of a bulk string, the bytes after its `$`: a canonical
      decimal length L on its own line, then exactly L bytes and a CRLF. */
  function DecodeBulk(s: seq<byte>): (r: Option<(seq<byte>, seq<byte>)>)
    ensures r.Some? ==> s == BulkBody(r.value.0) + r.value.1
  {
    match ReadText(s)
    case None => None
    case Some((head, after)) =>
      if !IsCanonical(head) then None
      else
        var n := ParseDecimal(head);
        if |after| < n + 2 || after[n..n + 2] != CRLF then None
        else
          DecimalOfParseDecimal(head);
          BulkSplit(s, after, n);
          Some((after[..n], after[n + 2..]))
  }

  /** A length line for `n` followed by `n` bytes and a CRLF is a bulk body. */
  lemma BulkSplit(s: seq<byte>, after: seq<byte>, n: nat)
    requires s == Decimal(n) + CRLF + after
    requires |after| >= n + 2 && after[n..n + 2] == CRLF
    ensures s == BulkBody(after[..n]) + after[n + 2..]
  {
    var d, rest := after[..n], after[n + 2..];
    assert after == d + CRLF + rest;
    var head := Decimal(n) + CRLF;
    AppendAssoc(head, d + CRLF, rest);
    AppendAssoc(head, d, CRLF);
  }

  /** Reads one reply from the front of `s` and returns it with the bytes
      that follow; None when `s` does not start with a complete reply. */
  function Decode(s: seq<byte>): (r: Option<(Reply, seq<byte>)>)
    ensures r.Some? ==> |r.value.1| < |s|
    ensures r.Some? ==> WellFormed(r.value.0) && s == Encode(r.value.0) + r.value.1
  {
    if |s| == 0 then None
    else
      assert s == [s[0]] + s[1..];
      DecodeTagged(s[0], s[1..])
  }

  /** Reads one reply whose type byte is `tag` from the bytes after it. */
  function DecodeTagged(tag: byte, body: seq<byte>): (r: Option<(Reply, seq<byte>)>)
    ensures r.Some? ==> |r.value.1| <= |body|
    ensures r.Some? ==> WellFormed(r.value.0) && [tag] + body == Encode(r.value.0) + r.value.1
  {
    if tag == PLUS || tag == MINUS then
      match ReadText(body)
      case None => None
      case Some((t, rest)) =>
        AppendAssoc([tag], t + CRLF, rest);
        AppendAssoc([tag], t, CRLF);
        Some((if tag == PLUS then Simple(t) else Err(t), rest))
    else if tag == DOLLAR then
      match DecodeBulk(body)
      case None => None
      case Some((data, rest)) =>
        AppendAssoc([tag], BulkBody(data), rest);
        Some((Bulk(data), rest))
    else None
  }

  /** Splits a whole output stream into the replies it consists of. */
  function DecodeAll(s: seq<byte>): (r: Option<seq<Reply>>)
    decreases |s|
  {
    if |s| == 0 then Some([])
    else
      match Decode(s)
      case None => None
      case Some((reply, rest)) =>
        match DecodeAll(rest)
        case None => None
        case Some(replies) => Some([reply] + replies)
  }

  /** One line of text without CR or LF reads back exactly. */
  lemma ReadTextOf(t: seq<byte>, rest: seq<byte>)
    requires CR !in t && LF !in t
    ensures ReadText(t + CRLF + rest) == Some((t, rest))
  {
    var s := t + CRLF + rest;
    assert s == t + [CR] + ([LF] + rest);
    IndexOfSplit(t, CR, [LF] + rest);
    assert s[..|t|] == t && s[|t| + 2..] == rest;
  }

  /** The length prefix the encoder writes is the payload's length: the
      bulk body reads back exactly, whatever follows it. */
  lemma DecodeBulkOf(d: seq<byte>, rest: seq<byte>)
    ensures DecodeBulk(BulkBody(d) + rest) == Some((d, rest))
  {
    var digits := Decimal(|d|);
    var after := d + CRLF + rest;
    DigitsAreText(digits);
    AppendAssoc(digits + CRLF, d + CRLF, rest);
    AppendAssoc(digits + CRLF, d, CRLF);
    ReadTextOf(digits, after);
    ParseDecimalOfDecimal(|d|);
    LineSlices(d, rest);
  }

  /** Digits hold neither CR nor LF. */
  lemma DigitsAreText(digits: seq<byte>)
    requires IsCanonical(digits)
    ensures CR !in digits && LF !in digits
  {
    forall k | 0 <= k < |digits| ensures digits[k] != CR && digits[k] != LF {
      assert IsDigit(digits[k]);
    }
  }

  /** Where the parts of `d + CRLF + rest` lie. */
  lemma LineSlices(d: seq<byte>, rest: seq<byte>)
    ensures (d + CRLF + rest)[..|d|] == d
    ensures (d + CRLF + rest)[|d|..|d| + 2] == CRLF
    ensures (d + CRLF + rest)[|d| + 2..] == rest
  {
  }

  /** Decoding looks at the type byte and hands the rest on. */
  lemma DecodeCons(tag: byte, body: seq<byte>)
    ensures Decode([tag] + body) == DecodeTagged(tag, body)
  {
    assert ([tag] + body)[0] == tag && ([tag] + body)[1..] == body;
  }

  /** A simple string or error reads back from its type byte on. */
  lemma DecodeTaggedLine(tag: byte, t: seq<byte>, rest: seq<byte>)
    requires tag == PLUS || tag == MINUS
    requires CR !in t && LF !in t
    ensures DecodeTagged(tag, t + CRLF + rest) == Some((if tag == PLUS then Simple(t) else Err(t), rest))
  {
    ReadTextOf(t, rest);
  }

  /** Every well-formed reply reads back exactly, whatever follows it. */
  lemma DecodeEncode(r: Reply, rest: seq<byte>)
    requires WellFormed(r)
    ensures Decode(Encode(r) + rest) == Some((r, rest))
  {
    match r
    case Simple(t) =>
      AppendAssoc([PLUS], t, CRLF);
      AppendAssoc([PLUS], t + CRLF, rest);
      DecodeCons(PLUS, t + CRLF + rest);
      DecodeTaggedLine(PLUS, t, rest);
    case Err(t) =>
      AppendAssoc([MINUS], t, CRLF);
      AppendAssoc([MINUS], t + CRLF, rest);
      DecodeCons(MINUS, t + CRLF + rest);
      DecodeTaggedLine(MINUS, t, rest);
    case Bulk(d) =>
      AppendAssoc([DOLLAR], BulkBody(d), rest);
      DecodeCons(DOLLAR, BulkBody(d) + rest);
      DecodeBulkOf(d, rest);
  }

  /** A well-formed reply followed by a decodable stream decodes to that
      reply followed by the rest. */
  lemma DecodeAllStep(r: Reply, rest: seq<byte>, rs: seq<Reply>)
    requires WellFormed(r) && DecodeAll(rest) == Some(rs)
    ensures DecodeAll(Encode(r) + rest) == Some([r] + rs)
  {
    DecodeEncode(r, rest);
  }

  /** A stream of well-formed replies decodes into exactly those replies,
      in order. */
  lemma {:induction false} DecodeAllEncodeAll(rs: seq<Reply>)
    requires forall i :: 0 <= i < |rs| ==> WellFormed(rs[i])
    ensures DecodeAll(EncodeAll(rs)) == Some(rs)
  {
    if |rs| > 0 {
      DecodeAllEncodeAll(rs[1..]);
      DecodeAllStep(rs[0], EncodeAll(rs[1..]), rs[1..]);
      assert [rs[0]] + rs[1..] == rs;
    }
  }
}
