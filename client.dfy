/** The client's per-line logic: the warning for the prohibited phrase, the
    translation of one typed line into the frame it writes (or the local
    message it prints instead), the nickname check before connecting, and
    the frame the Ctrl-C handler writes. */
module ChatClient {
  import opened Text
  import opened Wire

  const ToUsage: string := "Usage: \\to <nickname> <message>"
  const ExceptUsage: string := "Usage: \\except <nickname> <message>"
  const BanUsage: string := "Usage: \\ban <nickname>"

  /** `contains_prohibited_content`: the lowercased line holds the phrase
      somewhere. The client only prints a warning; the line is still sent. */
  predicate ContainsProhibited(content: string)
    ensures ContainsProhibited(content) ==> |content| >= |Phrase|
  {
    Contains(Lower(content), Phrase)
  }

  /** What the input loop does with one line read from standard input. */
  datatype Action =
    | Send(frame: seq<char>)   // the frame written to the server
    | Usage(text: string)      // a usage line printed, nothing written
    | Invalid                  // "invalid command" printed, nothing written
    | Skip                     // a blank chat line: nothing at all

  /** One line typed by the user: a line starting with a backslash is a
      command named by everything before its first space; any other line is
      chat content, sent untrimmed unless it is blank. */
  function EncodeLine(input: string): (a: Action)
    ensures a.Send? ==> && |a.frame| >= 2 && IsOpcode(a.frame[0] as int) && a.frame[|a.frame| - 1] == '\n'
                        && (input != [] && input[0] == '\\' <==> a.frame[0] as int != CmdChat)
    ensures a.Send? && '\n' !in input ==> '\n' !in a.frame[1..|a.frame| - 1]
  {
    if input != [] && input[0] == '\\' then
      match SplitAtSpace(input)
      case None => EncodeCommand(input, None)
      case Some((command, rest)) => EncodeCommand(command, Some(rest))
    else if Trim(input) == [] then Skip
    else Send(Encode(CmdChat, input))
  }

  /** The command arms; `rest` is what follows the first space, if any. */
  function EncodeCommand(command: string, rest: Option<string>): (a: Action)
    ensures a.Send? ==> && |a.frame| >= 2 && IsOpcode(a.frame[0] as int) && a.frame[0] as int != CmdChat
                        && a.frame[|a.frame| - 1] == '\n'
    ensures a.Send? && (rest.Some? ==> '\n' !in rest.value) ==> '\n' !in a.frame[1..|a.frame| - 1]
  {
    if command == "\\list" then Send(Encode(CmdList, ""))
    else if command == "\\to" then EncodeAddressed(CmdTo, rest, ToUsage)
    else if command == "\\except" then EncodeAddressed(CmdExcept, rest, ExceptUsage)
    else if command == "\\ban" then
      match rest
      case None => Usage(BanUsage)
      case Some(r) =>
        TrimIsSlice(r);
        Send(Encode(CmdBan, Trim(r)))
    else if command == "\\ping" then Send(Encode(CmdPing, ""))
    else Invalid
  }

  /** `\to` and `\except`: the rest must split at a space into a nickname and
      a message, which are sent joined by that space. */
  function EncodeAddressed(op: int, rest: Option<string>, usage: string): (a: Action)
    requires op == CmdTo || op == CmdExcept
    ensures a.Send? <==> rest.Some? && ' ' in rest.value
    ensures a.Send? ==> a.frame == Encode(op, rest.value)
    ensures !a.Send? ==> a == Usage(usage)
  {
    match rest
    case None => Usage(usage)
    case Some(r) =>
      match SplitAtSpace(r)
      case None => Usage(usage)
      case Some((target, message)) => Send(Encode(op, target + " " + message))
  }

  /** The frame the Ctrl-C handler writes before exiting: the server reads
      it whole, whatever follows, as EXIT with empty content. */
  function ExitFrame(): (f: seq<char>)
    ensures Decode(f) == Command(CmdExit, "")
    ensures forall more :: NextRead(f + more) == (f, more)
  {
    var f := Encode(CmdExit, "");
    assert forall more :: NextRead(f + more) == (f, more) by {
      forall more ensures NextRead(f + more) == (f, more) {
        NextReadFrame(CmdExit, "", more);
      }
    }
    f
  }

  /** The check on the command-line nickname before connecting: the same
      rule the server applies. */
  predicate AcceptsNickname(nick: string)
    ensures AcceptsNickname(nick) ==> forall i :: 0 <= i < |nick| ==> !IsWhitespace(nick[i])
  {
    !(|nick| > 10 || exists i :: 0 <= i < |nick| && !IsAsciiAlphanumeric(nick[i]))
  }

  /** What the client writes first: the nickname and a newline. */
  function Greeting(nick: string): (g: seq<char>)
    ensures |g| == |nick| + 1 && g[..|nick|] == nick
    ensures '\n' !in nick ==> IsLine(g)
  {
    LineOf(nick);
    nick + "\n"
  }

  /** A line that is not a command is sent as it was typed, unless every
      char of it is whitespace, in which case nothing happens. */
  lemma ChatLine(input: string)
    requires input == [] || input[0] != '\\'
    ensures EncodeLine(input) == if AllWhitespace(input) then Skip else Send(Encode(CmdChat, input))
  {
    TrimEmptyIff(input);
  }

  /** The first word of a command line selects the arm; the words `\list`
      and `\ping` ignore whatever follows them. */
  lemma {:induction false} CommandWord(command: string, rest: string)
    requires command != [] && command[0] == '\\' && ' ' !in command
    ensures EncodeLine(command + " " + rest) == EncodeCommand(command, Some(rest))
    ensures EncodeLine(command) == EncodeCommand(command, None)
  {
    SplitAtSpaceJoin(command, rest);
    assert (command + " " + rest)[0] == command[0];
  }

  /** `\to` with a nickname and a message sends the rest of the line as
      typed; without both it prints the usage line and sends nothing. */
  lemma ToLine(rest: string)
    ensures EncodeLine("\\to" + " " + rest) == if ' ' in rest then Send(Encode(CmdTo, rest)) else Usage(ToUsage)
    ensures EncodeLine("\\to") == Usage(ToUsage)
  {
    CommandWord("\\to", rest);
    assert EncodeCommand("\\to", Some(rest)) == EncodeAddressed(CmdTo, Some(rest), ToUsage);
    assert EncodeCommand("\\to", None) == Usage(ToUsage);
  }

  /** `\except` behaves as `\to` with its own opcode and usage line. */
  lemma ExceptLine(rest: string)
    ensures EncodeLine("\\except" + " " + rest) == if ' ' in rest then Send(Encode(CmdExcept, rest)) else Usage(ExceptUsage)
    ensures EncodeLine("\\except") == Usage(ExceptUsage)
  {
    CommandWord("\\except", rest);
    assert EncodeCommand("\\except", Some(rest)) == EncodeAddressed(CmdExcept, Some(rest), ExceptUsage);
    assert EncodeCommand("\\except", None) == Usage(ExceptUsage);
  }

  /** `\ban` sends the trimmed rest of the line, which may be empty; with no
      space after the word it prints the usage line. */
  lemma BanLine(rest: string)
    ensures EncodeLine("\\ban" + " " + rest) == Send(Encode(CmdBan, Trim(rest)))
    ensures EncodeLine("\\ban") == Usage(BanUsage)
  {
    CommandWord("\\ban", rest);
    assert EncodeCommand("\\ban", Some(rest)) == Send(Encode(CmdBan, Trim(rest)));
    assert EncodeCommand("\\ban", None) == Usage(BanUsage);
  }

  /** `\list` and `\ping` send the bare opcode, whatever follows the word. */
  lemma ListPingLines(rest: string)
    ensures EncodeLine("\\list") == EncodeLine("\\list" + " " + rest) == Send(Encode(CmdList, ""))
    ensures EncodeLine("\\ping") == EncodeLine("\\ping" + " " + rest) == Send(Encode(CmdPing, ""))
  {
    CommandWord("\\list", rest);
    assert EncodeCommand("\\list", Some(rest)) == EncodeCommand("\\list", None) == Send(Encode(CmdList, ""));
    CommandWord("\\ping", rest);
    assert EncodeCommand("\\ping", Some(rest)) == EncodeCommand("\\ping", None) == Send(Encode(CmdPing, ""));
  }

  /** Any other first word is an invalid command and sends nothing. */
  lemma {:induction false} InvalidLine(command: string, rest: Option<string>)
    requires command != [] && command[0] == '\\' && ' ' !in command
    requires command !in {"\\list", "\\to", "\\except", "\\ban", "\\ping"}
    ensures EncodeLine(if rest.Some? then command + " " + rest.value else command) == Invalid
  {
    if rest.Some? {
      CommandWord(command, rest.value);
    } else {
      CommandWord(command, "");
    }
  }

  /** The warning ignores letter case: lowercasing the line first changes
      nothing. */
  lemma ProhibitedIgnoresCase(content: string)
    ensures ContainsProhibited(Lower(content)) <==> ContainsProhibited(content)
  {
    LowerIdempotent(content);
  }

  /** The client's nickname check is the rule the server applies. */
  lemma AcceptsNicknameIff(nick: string)
    ensures AcceptsNickname(nick) <==> ValidNickname(nick)
  {
  }
}
