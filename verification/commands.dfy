/** What the connection handler answers to one request line
    (app/server.go:30-50): the line is trimmed, cut at its first space into
    a command word and an argument, the word is upper-cased and compared
    against PING and ECHO, and anything else is an unknown command. */
module Commands {
  import opened Wrappers
  import opened Bytes
  import opened Resp

  const PING: seq<byte> := Ascii("PING")
  const ECHO: seq<byte> := Ascii("ECHO")
  const PONG: seq<byte> := Ascii("PONG")
  /** The text is split in two only so that each literal stays short. */
  const ERR_ECHO_ARITY: seq<byte> := Ascii("ERR wrong number of arguments") + Ascii(" for 'echo' command")
  const ERR_UNKNOWN: seq<byte> := Ascii("ERR unknown command")

  /** What may follow the command word on a trimmed line: nothing, or a
      space and then the argument. */
  predicate IsTail(tail: seq<byte>) {
    tail == [] || tail[0] == SP
  }

  /** The three fixed texts are single lines, as simple strings and errors
      must be. */
  lemma FixedTextsAreLines()
    ensures CR !in PONG && LF !in PONG
    ensures CR !in ERR_UNKNOWN && LF !in ERR_UNKNOWN
    ensures CR !in ERR_ECHO_ARITY && LF !in ERR_ECHO_ARITY
  {
    AsciiOmits("PONG", '\r');
    AsciiOmits("PONG", '\n');
    AsciiOmits("ERR unknown command", '\r');
    AsciiOmits("ERR unknown command", '\n');
    AsciiOmits("ERR wrong number of arguments", '\r');
    AsciiOmits("ERR wrong number of arguments", '\n');
    AsciiOmits(" for 'echo' command", '\r');
    AsciiOmits(" for 'echo' command", '\n');
  }

  /** The reply to one trimmed line (app/server.go:34-50). The contract
      lists the only replies there can be, and says where an echoed
      message comes from: it is everything after the first space of a line
      whose first word is ECHO in any case. */
  function Dispatch(line: seq<byte>): (r: Reply)
    ensures WellFormed(r)
    ensures r == Simple(PONG) || r == Err(ERR_ECHO_ARITY) || r == Err(ERR_UNKNOWN) || r.Bulk?
    ensures r.Bulk? ==>
      var k := |line| - |r.data| - 1;
      && 0 <= k && line[k] == SP && line[k + 1..] == r.data
      && SP !in line[..k] && ToUpper(line[..k]) == ECHO
  {
    FixedTextsAreLines();
    var (word, arg) := SplitOnce(line);
    var cmd := ToUpper(word);
    if cmd == PING then Simple(PONG)
    else if cmd == ECHO then
      match arg
      case None => Err(ERR_ECHO_ARITY)
      case Some(message) =>
        assert line[..|word|] == word && line[|word| + 1..] == message;
        Bulk(message)
    else Err(ERR_UNKNOWN)
  }

  /** The reply to one line as read from the connection, terminator
      included: surrounding whitespace is trimmed first (app/server.go:31). */
  function Handle(input: seq<byte>): (r: Reply)
    ensures WellFormed(r)
    ensures AllSpace(input) ==> r == Err(ERR_UNKNOWN)
    ensures r.Bulk? ==> |r.data| > 0 && !IsSpace(r.data[|r.data| - 1])
  {
    var line := Trim(input);
    var r := Dispatch(line);
    if AllSpace(input) then
      BlankLineIsUnknown(input);
      r
    else if r.Bulk? then
      var k := |line| - |r.data| - 1;
      assert line[k] == SP;
      assert r.data[|r.data| - 1] == line[|line| - 1];
      r
    else r
  }

  /** A line of nothing but whitespace is an unknown command. */
  lemma BlankLineIsUnknown(input: seq<byte>)
    requires AllSpace(input)
    ensures Dispatch(Trim(input)) == Err(ERR_UNKNOWN)
  {
    TrimLeftAllSpace(input);
    assert Trim(input) == [] + [];
    assert |PING| == 4 && |ECHO| == 4;
    DispatchUnknown([], []);
  }

  /** The bytes written for one line read from the connection. */
  function Respond(input: seq<byte>): seq<byte> {
    Encode(Handle(input))
  }

  // ---------------------------------------------------------------------
  // The dispatch table, stated on the shape of the line

  /** A line that is a command word followed by a tail splits into exactly
      that word and the tail's argument. */
  lemma SplitCommand(w: seq<byte>, tail: seq<byte>)
    requires SP !in w && IsTail(tail)
    ensures SplitOnce(w + tail).0 == w
    ensures tail == [] ==> SplitOnce(w + tail).1 == None
    ensures tail != [] ==> SplitOnce(w + tail).1 == Some(tail[1..])
  {
    if tail == [] {
      assert w + tail == w;
    } else {
      assert w + tail == w + [SP] + tail[1..];
      SplitOnceAt(w, tail[1..]);
    }
  }

  /** Every trimmed line is a command word followed by a tail, so the four
      lemmas below cover every line. */
  lemma LineShape(line: seq<byte>) returns (w: seq<byte>, tail: seq<byte>)
    ensures SP !in w && IsTail(tail) && line == w + tail
  {
    var (word, arg) := SplitOnce(line);
    w := word;
    tail := if arg.None? then [] else [SP] + arg.value;
    if arg.Some? {
      AppendAssoc(word, [SP], arg.value);
    }
  }

  /** PING in any case answers PONG, and whatever follows the command word
      is ignored (app/server.go:38-39). */
  lemma DispatchPing(w: seq<byte>, tail: seq<byte>)
    requires SP !in w && IsTail(tail) && ToUpper(w) == PING
    ensures Dispatch(w + tail) == Simple(PONG)
  {
    SplitCommand(w, tail);
  }

  /** ECHO with nothing after it is an arity error (app/server.go:41-42). */
  lemma DispatchEchoWithoutArgument(w: seq<byte>)
    requires SP !in w && ToUpper(w) == ECHO
    ensures Dispatch(w) == Err(ERR_ECHO_ARITY)
  {
    SplitCommand(w, []);
    assert w + [] == w;
    assert PING[0] != ECHO[0];
  }

  /** ECHO followed by a space echoes everything after that space verbatim,
      further spaces included (app/server.go:34, 44-46). */
  lemma DispatchEcho(w: seq<byte>, message: seq<byte>)
    requires SP !in w && ToUpper(w) == ECHO
    ensures Dispatch(w + [SP] + message) == Bulk(message)
  {
    SplitOnceAt(w, message);
    assert PING[0] != ECHO[0];
  }

  /** Every other command word is unknown, whatever follows it
      (app/server.go:48-49). */
  lemma DispatchUnknown(w: seq<byte>, tail: seq<byte>)
    requires SP !in w && IsTail(tail) && ToUpper(w) != PING && ToUpper(w) != ECHO
    ensures Dispatch(w + tail) == Err(ERR_UNKNOWN)
  {
    SplitCommand(w, tail);
  }

  /** Command words are matched without regard to case: two lines that
      differ only in the case of the command word get the same reply
      (app/server.go:34-37). */
  lemma CommandCaseInsensitive(w1: seq<byte>, w2: seq<byte>, tail: seq<byte>)
    requires SP !in w1 && SP !in w2 && IsTail(tail)
    requires EqualIgnoringCase(w1, w2)
    ensures Dispatch(w1 + tail) == Dispatch(w2 + tail)
  {
    SplitCommand(w1, tail);
    SplitCommand(w2, tail);
    ToUpperCaseInsensitive(w1, w2);
  }

  // ---------------------------------------------------------------------
  // Lines as read from the connection

  /** Whitespace around a line, the CRLF or LF terminator included, does
      not change the reply (app/server.go:31). */
  lemma HandleIgnoresSurroundingSpace(p: seq<byte>, line: seq<byte>, q: seq<byte>)
    requires AllSpace(p) && AllSpace(q)
    ensures Handle(p + line + q) == Handle(line)
  {
    TrimAbsorbsSpace(p, line, q);
  }

  /** The exact bytes of the PING reply (app/server.go:39). */
  lemma PongBytes()
    ensures Encode(Simple(PONG)) == Ascii("+PONG\r\n")
  {
  }

  /** The exact bytes of the unknown-command reply (app/server.go:49). */
  lemma UnknownBytes()
    ensures Encode(Err(ERR_UNKNOWN)) == Ascii("-ERR unknown command\r\n")
  {
    var text := "ERR unknown command";
    assert "-ERR unknown command\r\n" == "-" + (text + "\r\n");
    AsciiConcat("-", text + "\r\n");
    AsciiConcat(text, "\r\n");
    assert Ascii("-") == [MINUS];
    assert Ascii("\r\n") == CRLF;
    AppendAssoc([MINUS], ERR_UNKNOWN, CRLF);
  }

  /** The exact bytes of the ECHO arity error (app/server.go:42); the text
      is written as two literals only to keep each short. */
  lemma EchoArityBytes()
    ensures Encode(Err(ERR_ECHO_ARITY)) == Ascii("-ERR wrong number of arguments") + Ascii(" for 'echo' command\r\n")
  {
    assert "-ERR wrong number of arguments" == "-" + "ERR wrong number of arguments";
    AsciiConcat("-", "ERR wrong number of arguments");
    assert " for 'echo' command\r\n" == " for 'echo' command" + "\r\n";
    AsciiConcat(" for 'echo' command", "\r\n");
    var a, b := Ascii("ERR wrong number of arguments"), Ascii(" for 'echo' command");
    assert Ascii("-") == [MINUS];
    assert Ascii("\r\n") == CRLF;
    AppendAssoc([MINUS], a, b);
    AppendAssoc([MINUS] + a, b, CRLF);
  }
}
