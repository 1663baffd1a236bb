/** One client connection (app/server.go:19-52): the handler reads the
    stream one LF-terminated line at a time and writes one reply per line,
    until a read fails. A read fails at the end of the stream, or when the
    connection breaks, and in both cases whatever was read after the last
    LF gets no reply. The connection is modelled as the finite sequence of
    bytes that arrive before that failure, and its output as the bytes the
    handler writes back. */
module Connection {
  import opened Wrappers
  import opened Bytes
  import opened Resp
  import opened Commands

  /** A complete line as `ReadBytes('\n')` returns it: the only LF is the
      last byte. */
  predicate IsLine(l: seq<byte>) {
    |l| > 0 && l[|l| - 1] == LF && LF !in l[..|l| - 1]
  }

  /** `reader.ReadBytes('\n')` (app/server.go:24-28): the bytes up to and
      including the first LF, and the bytes after it; None when there is
      no LF, where the Go code gets a read error and returns. */
  function ReadLine(s: seq<byte>): (r: Option<(seq<byte>, seq<byte>)>)
    ensures r.None? <==> LF !in s
    ensures r.Some? ==> IsLine(r.value.0) && s == r.value.0 + r.value.1
  {
    match IndexOf(s, LF)
    case None => None
    case Some(i) =>
      assert s[..i + 1][..i] == s[..i];
      assert LF !in s[..i] by {
        forall k | 0 <= k < i ensures s[..i][k] != LF { assert s[..i][k] == s[k]; }
      }
      assert s == s[..i + 1] + s[i + 1..];
      Some((s[..i + 1], s[i + 1..]))
  }

  /** The lines one after another. */
  function Concat(ls: seq<seq<byte>>): seq<byte> {
    if |ls| == 0 then [] else ls[0] + Concat(ls[1..])
  }

  /** The complete lines of a stream, in order. Together they rebuild the
      stream up to a final fragment that holds no LF. */
  function Lines(s: seq<byte>): (ls: seq<seq<byte>>)
    ensures forall i :: 0 <= i < |ls| ==> IsLine(ls[i])
    ensures |Concat(ls)| <= |s| && Concat(ls) == s[..|Concat(ls)|]
    ensures LF !in s[|Concat(ls)|..]
    decreases |s|
  {
    match ReadLine(s)
    case None => []
    case Some((line, rest)) =>
      var tail := Lines(rest);
      var ls := [line] + tail;
      assert ls[0] == line && ls[1..] == tail;
      SliceOfAppend(line, rest, |Concat(tail)|);
      ls
  }

  /** The replies to a sequence of lines, one per line and in order. */
  function Replies(ls: seq<seq<byte>>): (rs: seq<Reply>)
    ensures |rs| == |ls|
    ensures forall i :: 0 <= i < |rs| ==> WellFormed(rs[i])
  {
    if |ls| == 0 then [] else [Handle(ls[0])] + Replies(ls[1..])
  }

  /** The reply at each position answers the line at that position. */
  lemma {:induction false} RepliesAt(ls: seq<seq<byte>>, i: nat)
    requires i < |ls|
    ensures Replies(ls)[i] == Handle(ls[i])
  {
    if i > 0 {
      var rest := ls[1..];
      RepliesAt(rest, i - 1);
      RepliesTail(ls);
      assert rest[i - 1] == ls[i];
    }
  }

  /** Dropping the first line drops the first reply. */
  lemma RepliesTail(ls: seq<seq<byte>>)
    requires |ls| > 0
    ensures Replies(ls)[1..] == Replies(ls[1..])
  {
  }

  /** Everything the handler writes on a connection (app/server.go:22-51):
      the reply to the first complete line, then the session on the rest;
      nothing once no LF is left. */
  function Session(s: seq<byte>): seq<byte>
    decreases |s|
  {
    match ReadLine(s)
    case None => []
    case Some((line, rest)) => Respond(line) + Session(rest)
  }

  // ---------------------------------------------------------------------
  // Properties of a session

  /** Bytes appended after a complete line do not change how it is read. */
  lemma ReadLineExtend(s: seq<byte>, f: seq<byte>)
    requires ReadLine(s).Some?
    ensures ReadLine(s + f) == Some((ReadLine(s).value.0, ReadLine(s).value.1 + f))
  {
    var (line, rest) := ReadLine(s).value;
    var pre := line[..|line| - 1];
    assert line == pre + [LF];
    AppendAssoc(line, rest, f);
    IndexOfSplit(pre, LF, rest + f);
    SplitAt(line, rest + f);
  }

  /** The session output is the encoded replies to the complete lines, one
      reply per line, in input order. */
  lemma {:induction false} SessionIsRepliesOfLines(s: seq<byte>)
    ensures Session(s) == EncodeAll(Replies(Lines(s)))
    decreases |s|
  {
    match ReadLine(s)
    case None =>
    case Some((line, rest)) =>
      SessionIsRepliesOfLines(rest);
      var tail := Lines(rest);
      assert ([line] + tail)[1..] == tail;
      var rs := Replies([line] + tail);
      assert rs[1..] == Replies(tail);
  }

  /** Reading the output back yields exactly one reply per complete input
      line, in order: nothing is merged, split, lost or reordered. */
  lemma SessionDecodes(s: seq<byte>)
    ensures DecodeAll(Session(s)) == Some(Replies(Lines(s)))
  {
    SessionIsRepliesOfLines(s);
    DecodeAllEncodeAll(Replies(Lines(s)));
  }

  /** Bytes without an LF at the end of the stream, whether cut off by the
      end of input or by a read error, produce no reply. */
  lemma {:induction false} SessionIgnoresFragment(s: seq<byte>, f: seq<byte>)
    requires LF !in f
    ensures Session(s + f) == Session(s)
    decreases |s|
  {
    match ReadLine(s)
    case None =>
      assert LF !in s + f;
    case Some((line, rest)) =>
      ReadLineExtend(s, f);
      SessionIgnoresFragment(rest, f);
      assert Session(s + f) == Respond(line) + Session(rest + f);
  }

  /** A stream that ends on a line boundary is answered independently of
      what follows it: the replies come out line by line, as the input
      arrives. */
  lemma {:induction false} SessionConcat(a: seq<byte>, b: seq<byte>)
    requires |a| == 0 || a[|a| - 1] == LF
    ensures Session(a + b) == Session(a) + Session(b)
    decreases |a|
  {
    if |a| == 0 {
      assert a + b == b;
    } else {
      assert LF in a by { assert a[|a| - 1] == LF; }
      var (line, rest) := ReadLine(a).value;
      ReadLineExtend(a, b);
      if |rest| > 0 {
        assert rest[|rest| - 1] == a[|a| - 1];
      }
      SessionConcat(rest, b);
      SessionStep(a + b);
      SessionStep(a);
      AppendAssoc(Respond(line), Session(rest), Session(b));
    }
  }

  /** Replies once written are never taken back: the output for a stream is
      a prefix of the output for any longer stream. */
  lemma {:induction false} SessionPrefix(s: seq<byte>, t: seq<byte>)
    ensures Session(s) <= Session(s + t)
    decreases |s|
  {
    match ReadLine(s)
    case None =>
    case Some((line, rest)) =>
      ReadLineExtend(s, t);
      SessionPrefix(rest, t);
      var r := Respond(line);
      assert Session(s + t) == r + Session(rest + t);
      assert Session(s) == r + Session(rest);
      PrefixOfPrefix(r, Session(rest), Session(rest + t));
  }

  // ---------------------------------------------------------------------
  // The read loop

  /** One turn of the loop: a complete line is answered, and the session
      and the lines continue on the bytes after it. */
  lemma SessionStep(s: seq<byte>)
    requires ReadLine(s).Some?
    ensures Session(s) == Respond(ReadLine(s).value.0) + Session(ReadLine(s).value.1)
    ensures |Lines(s)| == 1 + |Lines(ReadLine(s).value.1)|
  {
  }

  /** The loop ends once no complete line is left: nothing more is
      written and no line is left to answer. */
  lemma SessionStop(s: seq<byte>)
    requires ReadLine(s).None?
    ensures Session(s) == [] && Lines(s) == []
  {
  }

  /** The handler's loop (app/server.go:22-51) over an in-memory stream:
      read a line, write its reply, repeat until a read fails. Returns the
      bytes written and the number of lines answered. */
  method Serve(stream: seq<byte>) returns (out: seq<byte>, served: nat)
    ensures out == Session(stream)
    ensures served == |Lines(stream)|
    ensures DecodeAll(out) == Some(Replies(Lines(stream)))
  {
    out, served := [], 0;
    var pending := stream;
    while true
      invariant out + Session(pending) == Session(stream)
      invariant served + |Lines(pending)| == |Lines(stream)|
      decreases |pending|
    {
      var next := ReadLine(pending);
      if next.None? {
        SessionStop(pending);
        assert out + [] == out;
        break;
      }
      var (line, rest) := next.value;
      SessionStep(pending);
      AppendAssoc(out, Respond(line), Session(rest));
      out := out + Respond(line);
      served := served + 1;
      pending := rest;
    }
    SessionDecodes(stream);
  }
}
