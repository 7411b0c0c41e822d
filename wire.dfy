/** The client-to-server frame format: one opcode octet, the payload, and a
    newline. Frames are sequences of chars in which each char stands for one
    octet on the wire, which is exact for ASCII text. */
module Wire {
  import opened Text

  // The opcodes both programs define (one byte each).
  const CmdList: int := 1
  const CmdTo: int := 2
  const CmdExcept: int := 3
  const CmdBan: int := 4
  const CmdPing: int := 5
  const CmdExit: int := 6
  const CmdChat: int := 7

  /** The prohibited phrase, lower case: the server compares CHAT content
      with it and the client looks for it in every typed line. */
  const Phrase: string := "i hate professor"

  predicate IsOpcode(op: int) {
    CmdList <= op <= CmdChat
  }

  /** The nickname rule both programs apply: at most 10 octets, all ASCII
      letters or digits (the empty nickname passes). A nickname that fails
      the second half is rejected whatever its length, and one that passes it
      is ASCII, so counting chars here is counting octets there. */
  predicate ValidNickname(nick: string)
    ensures ValidNickname(nick) ==> forall i :: 0 <= i < |nick| ==> !IsWhitespace(nick[i])
  {
    |nick| <= 10 && forall i :: 0 <= i < |nick| ==> IsAsciiAlphanumeric(nick[i])
  }

  /** What the client writes for one command: the opcode octet, the payload
      octets and a newline, in three `write_all` calls. */
  function Encode(op: int, body: string): (f: seq<char>)
    requires IsOpcode(op)
    ensures |f| == |body| + 2 && f[0] as int == op && f[|f| - 1] == '\n'
    ensures f[1..|f| - 1] == body
  {
    [op as char] + body + "\n"
  }

  /** One `read_until(b'\n', ..)` on the inbound byte stream: everything up to
      and including the first newline, or the whole remainder when no newline
      arrives before the peer closes. Returns the octets read and what is left. */
  function NextRead(stream: seq<char>): (r: (seq<char>, seq<char>))
    ensures r.0 + r.1 == stream
    ensures '\n' in stream ==> |r.0| > 0 && r.0[|r.0| - 1] == '\n' && '\n' !in r.0[..|r.0| - 1]
    ensures '\n' !in stream ==> r.1 == []
  {
    if stream == [] then ([], [])
    else if stream[0] == '\n' then ([stream[0]], stream[1..])
    else
      var (line, rest) := NextRead(stream[1..]);
      assert [stream[0]] + line + rest == stream;
      assert ([stream[0]] + line)[1..] == line;
      (([stream[0]] + line), rest)
  }

  /** How the receive loop classifies one read of `|buf|` octets. */
  datatype Read =
    | Closed                              // 0 octets: the peer closed the stream
    | Short                               // 1 octet: skipped
    | Command(op: int, payload: string)   // opcode and content

  /** The receive loop's reading of a buffer: the opcode is the first octet
      and the content is everything between it and the final octet, which is
      dropped whether or not it is the newline. */
  function Decode(buf: seq<char>): (r: Read)
    ensures r == Closed <==> |buf| == 0
    ensures r == Short <==> |buf| == 1
    ensures r.Command? ==> |buf| >= 2 && r.op == buf[0] as int
                           && r.payload == buf[1..|buf| - 1]
                           && |r.payload| == |buf| - 2
  {
    if |buf| == 0 then Closed
    else if |buf| == 1 then Short
    else Command(buf[0] as int, buf[1..|buf| - 1])
  }

  /** A frame decodes to the opcode and payload it was encoded from. */
  lemma DecodeEncode(op: int, body: string)
    requires IsOpcode(op)
    ensures Decode(Encode(op, body)) == Command(op, body)
  {
  }

  /** A line without a newline, followed by one, is read back whole by one
      `read_until`, and the stream after it is left for the next read. */
  lemma {:induction false} NextReadLine(line: seq<char>, more: seq<char>)
    requires '\n' !in line
    ensures NextRead(line + "\n" + more) == (line + "\n", more)
  {
    var f := line + "\n";
    var s := f + more;
    var (read, rest) := NextRead(s);
    assert s[|f| - 1] == '\n';
    assert f[..|f| - 1] == line;
    assert read == s[..|read|] == f;
  }

  /** A frame whose payload holds no newline is read back whole by one
      `read_until`, and the stream after it is left for the next read. */
  lemma NextReadFrame(op: int, body: string, more: seq<char>)
    requires IsOpcode(op) && '\n' !in body
    ensures NextRead(Encode(op, body) + more) == (Encode(op, body), more)
  {
    NextReadLine([op as char] + body, more);
  }

  /** The last read before the peer closes, if it lacks a newline, is the
      whole rest of the stream, and its final octet is lost: the content is
      what lies between the opcode and that octet. */
  lemma {:induction false} UnterminatedReadLosesLastOctet(stream: seq<char>)
    requires '\n' !in stream && |stream| >= 2
    ensures NextRead(stream) == (stream, [])
    ensures Decode(NextRead(stream).0) == Command(stream[0] as int, stream[1..|stream| - 1])
    ensures Decode(NextRead(stream).0).payload + [stream[|stream| - 1]] == stream[1..]
  {
    var r := NextRead(stream);
    assert r.0 + r.1 == stream && r.1 == [] && r.0 + [] == r.0;
    assert stream[1..|stream| - 1] + [stream[|stream| - 1]] == stream[1..];
  }

  // ---------------------------------------------------------------------------
  // Lines as the client reads them

  /** What one `read_line` on the client returns from a longer stream: text
      that ends in a newline and holds no other. */
  predicate IsLine(s: string) {
    s != [] && s[|s| - 1] == '\n' && '\n' !in s[..|s| - 1]
  }

  /** Text with a newline appended is one line when it held none before. */
  lemma LineOf(text: string)
    ensures '\n' !in text ==> IsLine(text + "\n")
  {
    assert (text + "\n")[..|text|] == text;
  }

  /** Text without a newline followed by one line is one line. */
  lemma LineAppend(text: string, line: string)
    requires '\n' !in text && IsLine(line)
    ensures IsLine(text + line)
  {
    assert (text + line)[..|text + line| - 1] == text + line[..|line| - 1];
  }

  /** A printed count holds no newline. */
  lemma DecimalNoNewline(n: nat)
    ensures '\n' !in Decimal(n)
  {
  }

  /** The number of newlines in a text, that is, how many `read_line` calls
      of the client it takes to consume it when it ends in one. */
  function Newlines(s: string): (n: nat)
    ensures n <= |s|
  {
    if s == [] then 0 else Newlines(s[..|s| - 1]) + (if s[|s| - 1] == '\n' then 1 else 0)
  }

  lemma {:induction false} NoNewlines(s: string)
    requires '\n' !in s
    ensures Newlines(s) == 0
  {
    if s != [] {
      assert s[|s| - 1] in s;
      NoNewlines(s[..|s| - 1]);
    }
  }

  lemma {:induction false} NewlinesConcat(a: string, b: string)
    ensures Newlines(a + b) == Newlines(a) + Newlines(b)
  {
    if b == [] {
      assert a + b == a;
    } else {
      assert (a + b)[..|a + b| - 1] == a + b[..|b| - 1];
      NewlinesConcat(a, b[..|b| - 1]);
    }
  }

  /** A line holds exactly one newline. */
  lemma {:induction false} LineNewlines(s: string)
    requires IsLine(s)
    ensures Newlines(s) == 1
  {
    NoNewlines(s[..|s| - 1]);
  }
}
