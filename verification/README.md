# RedisInGo connection handler, modelled in Dafny

RedisInGo is a small Redis-compatible server written in Go. Its core is one
function, `handleConnection` in `app/server.go`. It serves a single client
connection with a loop:

1. It reads one line, up to and including the next line feed.
2. It trims the surrounding whitespace.
3. It cuts the line at its first space into a command word and an argument.
4. It upper-cases the command word and answers in the RESP wire format (the
   Redis serialization protocol):
   - `PING` gets `+PONG\r\n`.
   - `ECHO <message>` gets the message back as a bulk string
     `$<length>\r\n<message>\r\n`.
   - `ECHO` with no argument gets an arity error.
   - Any other word gets `-ERR unknown command\r\n`.
5. The loop ends when a read fails. Bytes after the last line feed get no
   reply.

The model is split into four modules, one per file, plus `Wrappers`
(`wrappers.dfy`), which holds the `Option` type.

- **`Bytes`** (`bytes.dfy`) holds the byte-string operations the handler
  calls, on ASCII input:
  - `bytes.TrimSpace` as `Trim`;
  - `strings.SplitN(s, " ", 2)` as `SplitOnce`;
  - `strings.ToUpper` as `ToUpper`.

  Each is proved against an independent description: the cut that trims a
  line, the split point, and case-insensitive equality.
- **`Resp`** (`resp.dfy`) defines the three reply kinds the server writes
  and their encoding. It also defines a decoder (`Decode`, `DecodeAll`).
  The decoder is not part of the server. It is the partner the encoder is
  proved against: every reply the server can write reads back exactly, and
  so does any stream of such replies.
- **`Commands`** (`commands.dfy`) is the per-line logic. `Dispatch` answers
  a trimmed line and `Handle` answers a raw line. The lemmas state the
  dispatch table in terms of the shape of the line, and they give the exact
  bytes of each fixed reply.
- **`Connection`** (`connection.dfy`) is the read loop.
  - `ReadLine` models `reader.ReadBytes('\n')`.
  - `Session` is everything written on a connection whose input is a given
    byte sequence.
  - `Serve` is the loop itself, written as a loop.

  The lemmas cover the following:
  - the output is one reply per complete line, in order;
  - it decodes back to exactly those replies;
  - a trailing fragment is ignored;
  - output is produced line by line;
  - output already written is never taken back.

The handler parses inline commands only and knows only PING and ECHO.
Every other command word, SET and GET included, gets
`-ERR unknown command`.

## Model

| member | source | states |
|---|---|---|
| Bytes.Trim | app/server.go:31 | `bytes.TrimSpace` on ASCII input. It has no contract of its own: what it computes is stated by `TrimIsTrimmedAt` and `TrimmedAtIsTrim`, which between them fix the result uniquely |
| Bytes.TrimIsTrimmedAt | app/server.go:31 | The trimmed line is the slice of the input between an all-whitespace prefix and an all-whitespace suffix, and it neither starts nor ends with whitespace |
| Bytes.TrimmedAtIsTrim | app/server.go:31 | Any cut with whitespace before and after it and no whitespace at either end of the kept part gives exactly the trimmed line, so trimming removes the surrounding whitespace and nothing else |
| Bytes.TrimLeftAllSpace | app/server.go:31 | A line of nothing but whitespace trims to the empty line |
| Bytes.TrimAbsorbsSpace | app/server.go:31 | Adding whitespace on either side of a line does not change the trimmed line |
| Bytes.TrimIdempotent | app/server.go:31 | Trimming an already trimmed line changes nothing |
| Bytes.SplitOnce | app/server.go:34 | The first part never holds a space. With no space in the input there is one part, the whole input. Otherwise first part, one space and second part rebuild the input exactly. There is a second part if and only if the input holds a space |
| Bytes.SplitOnceAt | app/server.go:34 | A space-free word followed by a space and any tail, further spaces included, splits into exactly that word and that tail |
| Bytes.ToUpper | app/server.go:35 | The upper-cased word has the input's length, holds no lower-case letter, and equals the input up to the case of ASCII letters |
| Bytes.ToUpperCaseInsensitive | app/server.go:35 | Two words upper-case to the same bytes if and only if they are equal up to the case of ASCII letters |
| Bytes.ToUpperUnique | app/server.go:35 | Any word without lower-case letters that equals the input up to case is the upper-cased word, so the contract of `ToUpper` fixes its result |
| Bytes.ToUpperIdempotent | app/server.go:35 | Upper-casing an upper-cased word changes nothing |
| Resp.Decimal | app/server.go:45 | The printed length is a non-empty run of decimal digits without a superfluous leading zero, and it starts with 0 only for the length zero |
| Resp.ParseDecimalOfDecimal | app/server.go:45 | Reading the printed length back gives the length |
| Resp.DecimalOfParseDecimal | app/server.go:45 | Every canonical digit run is the printed form of its value, so a length has exactly one printed form |
| Resp.DecodeBulkOf | app/server.go:45 | The length prefix of a bulk reply is the byte length of the message: the body reads back as exactly the message, whatever bytes follow |
| Resp.Decode | app/server.go:12-17 | Whatever the decoder accepts is a well-formed reply whose encoding is exactly the consumed prefix of the input |
| Resp.Encode | app/server.go:39-49 | The bytes written for a reply: `+` text CRLF, `-` text CRLF, or `$`, the decimal length, CRLF, the data and CRLF. It has no contract of its own: `DecodeEncode` states that every well-formed reply reads back from its encoding |
| Resp.DecodeEncode | app/server.go:39-49 | Every well-formed reply the server writes reads back as that same reply, leaving the following bytes untouched |
| Resp.DecodeAllEncodeAll | app/server.go:22-51 | Replies written one after another read back as exactly those replies, in order |
| Commands.FixedTextsAreLines | app/server.go:39-49 | The PONG text and the two error texts hold no CR or LF, as simple strings and errors must not |
| Commands.Dispatch | app/server.go:34-50 | A trimmed line gets PONG, the ECHO arity error, the unknown-command error, or a bulk string. A bulk string holds exactly what follows the first space of a line whose first word is ECHO in any case |
| Commands.Handle | app/server.go:30-50 | Every reply is well formed. A line of nothing but whitespace is an unknown command. An echoed message is never empty and never ends in whitespace, because it comes from a trimmed line |
| Commands.Respond | app/server.go:30-50 | The bytes written for one line read from the connection: the encoding of `Handle`'s reply. It has no contract of its own: `SessionIsRepliesOfLines` and `SessionDecodes` state what the written bytes are and that they read back as that reply |
| Commands.BlankLineIsUnknown | app/server.go:31-49 | An all-whitespace line is answered with the unknown-command error |
| Commands.LineShape | app/server.go:34 | Every trimmed line is a space-free command word followed by nothing or by a space and an argument, so the four `Dispatch` lemmas below cover every line |
| Commands.DispatchPing | app/server.go:38-39 | PING in any letter case answers PONG, whatever follows the command word |
| Commands.DispatchEchoWithoutArgument | app/server.go:41-42 | ECHO in any letter case with nothing after it answers the arity error |
| Commands.DispatchEcho | app/server.go:44-46 | ECHO in any letter case followed by a space echoes everything after that space verbatim, further spaces included |
| Commands.DispatchUnknown | app/server.go:48-49 | Any command word other than PING and ECHO, in any case, answers the unknown-command error, whatever follows it |
| Commands.CommandCaseInsensitive | app/server.go:34-37 | Two lines whose command words differ only in letter case get the same reply |
| Commands.HandleIgnoresSurroundingSpace | app/server.go:30-31 | Whitespace around a line, the CRLF or LF terminator included, does not change its reply |
| Commands.PongBytes | app/server.go:39 | The PING reply is exactly the bytes `+PONG\r\n` |
| Commands.UnknownBytes | app/server.go:49 | The unknown-command reply is exactly the bytes `-ERR unknown command\r\n` |
| Commands.EchoArityBytes | app/server.go:42 | The arity error is exactly the bytes `-ERR wrong number of arguments for 'echo' command\r\n` |
| Connection.ReadLine | app/server.go:24-28 | A read fails if and only if no line feed is left. Otherwise it returns a line whose only line feed is its last byte, and line plus remainder rebuild the input |
| Connection.ReadLineExtend | app/server.go:24 | Bytes arriving after a complete line do not change which line is read |
| Connection.Lines | app/server.go:22-28 | The lines read are complete lines. Together they rebuild the input up to a final fragment that holds no line feed |
| Connection.Replies | app/server.go:30-50 | There is one reply per line, and every reply is well formed |
| Connection.RepliesAt | app/server.go:30-50 | The reply at each position is the reply to the line at that position |
| Connection.Session | app/server.go:22-51 | Everything written on a connection. It has no contract of its own: `SessionIsRepliesOfLines` states that it is the encoded replies to the complete lines, in order |
| Connection.SessionIsRepliesOfLines | app/server.go:22-51 | The connection's output is the encoded replies to its complete lines, one per line, in input order |
| Connection.SessionDecodes | app/server.go:22-51 | Reading the output back gives exactly one reply per complete input line, in order: nothing is merged, split, lost or reordered |
| Connection.SessionIgnoresFragment | app/server.go:24-28 | Bytes without a line feed at the end of the input produce no output |
| Connection.SessionConcat | app/server.go:22-51 | Input that ends on a line boundary is answered independently of what follows it |
| Connection.SessionPrefix | app/server.go:22-51 | The output for an input is a prefix of the output for any extension of that input: replies once written are never taken back |
| Connection.Serve | app/server.go:19-52 | The loop writes exactly the session output and answers exactly as many lines as the input holds complete lines, and its output decodes to the replies to those lines |

## Left out

- `main` (app/server.go:54-74) is left out: binding port 6379, the accept loop and the goroutine started per connection (line 72). Each connection is independent of the others. `Serve` models one connection on its own input.
- Printing to standard output (lines 26, 55, 59, 64, 69) is left out. It does not affect what is written to the client.
- `defer conn.Close()` (line 20) is left out. The errors returned by `conn.Write` are also left out: the code ignores them, and the model treats every write as succeeding.
- The kind of read failure is not modelled. End of input and a broken connection end the loop the same way, so a connection is modelled as the finite sequence of bytes read before the failure.
- `Bytes.Trim`: `bytes.TrimSpace` also removes non-ASCII Unicode whitespace encoded in UTF-8, such as U+0085 and U+00A0. The model trims the six ASCII whitespace bytes only.
- `Bytes.ToUpper`: `strings.ToUpper` also maps non-ASCII letters and replaces invalid UTF-8 with U+FFFD. The model upper-cases ASCII letters only and leaves other bytes unchanged. So a command word that holds U+0131 (dotless i), as in `pıng`, is PING to the Go code but an unknown command in the model.
- `Resp.Decode` accepts canonical length prefixes only, which are the ones the server writes. The decoder is a specification device and not part of the server.
