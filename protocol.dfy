/** The two programs together: what the client writes for a typed line is
    read back whole by the server's `read_until`, decoded to the opcode and
    payload the user meant, and handled by the matching arm. */
module Protocol {
  import opened Text
  import opened Wire
  import opened Registry
  import opened Dispatch
  import opened ChatClient
  import ServerProperties

  /** Every frame the client writes for a line (which, coming from `lines()`,
      holds no newline) is exactly one read on the server's side, whatever
      follows it on the stream. */
  lemma LineReadWhole(input: string, more: seq<char>)
    requires '\n' !in input && EncodeLine(input).Send?
    ensures var f := EncodeLine(input).frame;
            && NextRead(f + more) == (f, more)
            && Decode(f) == Command(f[0] as int, f[1..|f| - 1])
  {
    var f := EncodeLine(input).frame;
    var op, body := f[0] as int, f[1..|f| - 1];
    assert f == Encode(op, body);
    NextReadFrame(op, body, more);
  }

  /** A chat line reaches the server's CHAT arm with its content intact. */
  lemma ChatArrives(input: string)
    requires (input == [] || input[0] != '\\') && !AllWhitespace(input)
    ensures EncodeLine(input) == Send(Encode(CmdChat, input))
    ensures Decode(EncodeLine(input).frame) == Command(CmdChat, input)
  {
    ChatLine(input);
  }

  /** `\to <nick> <message>`: the server splits the payload back into the
      nickname and the message the user typed, and whispers the message to
      that client (or tells the sender there is no such user). */
  lemma {:induction false} ToArrives(w: World, me: Session, target: string, message: string, failing: set<ConnId>)
    requires ' ' !in target
    ensures var payload := target + " " + message;
            && EncodeLine("\\to" + " " + payload) == Send(Encode(CmdTo, payload))
            && SplitAtSpace(payload) == Some((target, message))
            && Decode(Encode(CmdTo, payload)) == Command(CmdTo, payload)
            && To(w, me, payload, failing)
               == if target in w.clients then Deliver(w, w.clients[target].conn, WhisperText(me.nick, message), failing)
                  else Reply(w, me.nick, NoSuchUserText(target), failing)
  {
    var payload := target + " " + message;
    ToLine(payload);
    SplitAtSpaceJoin(target, message);
    assert ' ' in payload by { assert payload[|target|] == ' '; }
  }

  /** `\except <nick> <message>`: the server relays the message to everyone
      but the sender and the named client (or reports that it does not
      exist). */
  lemma {:induction false} ExceptArrives(w: World, me: Session, excluded: string, message: string,
                                         failing: set<ConnId>)
    requires ' ' !in excluded
    ensures var payload := excluded + " " + message;
            && EncodeLine("\\except" + " " + payload) == Send(Encode(CmdExcept, payload))
            && SplitAtSpace(payload) == Some((excluded, message))
            && Decode(Encode(CmdExcept, payload)) == Command(CmdExcept, payload)
            && Except(w, me, payload, failing)
               == if excluded in w.clients then Broadcast(w, RelayText(me.nick, message), {me.nick, excluded}, failing)
                  else Reply(w, me.nick, NoSuchUserText(excluded), failing)
  {
    var payload := excluded + " " + message;
    ExceptLine(payload);
    SplitAtSpaceJoin(excluded, message);
    assert ' ' in payload by { assert payload[|excluded|] == ' '; }
  }

  /** `\ban <nick>`: the client trims the nickname and the server trims it
      again, which changes nothing, so the server bans the nickname the user
      typed, surrounding whitespace aside. */
  lemma BanArrives(w: World, me: Session, rest: string, failing: set<ConnId>)
    ensures EncodeLine("\\ban" + " " + rest) == Send(Encode(CmdBan, Trim(rest)))
    ensures Decode(Encode(CmdBan, Trim(rest))) == Command(CmdBan, Trim(rest))
    ensures Ban(w, me, Trim(rest), failing) == BanTarget(w, me, Trim(rest), failing)
  {
    BanLine(rest);
    TrimIdempotent(rest);
  }

  /** The Ctrl-C frame makes the server run the leave sequence and leave
      the loop for the teardown. */
  lemma ExitFrameLeaves(w: World, me: Session, rtt: string, failing: set<ConnId>, entries: seq<Entry>)
    ensures Step(w, me, Tick(ExitFrame(), rtt, failing), entries) == Outcome(Leave(w, me.nick, failing), Break)
  {
    ServerProperties.StepExit(w, me, Tick(ExitFrame(), rtt, failing), entries);
  }

  /** Whenever the server moderates a line, the client has warned about it:
      content whose lowercasing is the phrase contains the phrase. */
  lemma ModerationWarns(text: string)
    requires Lower(text) == Phrase
    ensures ContainsProhibited(text)
  {
    ContainsAt(Lower(text), Phrase, 0);
  }

  /** The converse fails: content the client warns about is relayed
      unmoderated unless its lowercasing is the phrase itself. */
  lemma WarnedButRelayed(w: World, me: Session, text: string, failing: set<ConnId>)
    requires ContainsProhibited(text) && Lower(text) != Phrase
    ensures Chat(w, me, text, failing) == Outcome(Broadcast(w, RelayText(me.nick, text), {me.nick}, failing), Continue)
  {
  }

  /** Such content exists: the client warns about "I hate professor!", and
      the server relays it. */
  lemma WarnedExample()
    ensures ContainsProhibited("I hate professor!") && Lower("I hate professor!") != Phrase
  {
    var s := Lower("I hate professor!");
    assert s[0..|Phrase|] == Phrase;
    ContainsAt(s, Phrase, 0);
  }

  /** A nickname the client accepts is read by the server as one line,
      trimmed back to itself, and admitted when there is room and it is not
      taken. */
  lemma {:induction false} NicknameHandshake(clients: Clients, nick: string, more: seq<char>)
    requires AcceptsNickname(nick)
    ensures NextRead(Greeting(nick) + more) == (Greeting(nick), more)
    ensures Trim(Greeting(nick)) == nick
    ensures |clients| < MaxClients && nick !in clients ==> Admit(clients, Greeting(nick)) == Admitted(nick)
  {
    AcceptsNicknameIff(nick);
    assert '\n' !in nick && (nick == [] || (!IsWhitespace(nick[0]) && !IsWhitespace(nick[|nick| - 1]))) by {
      forall i | 0 <= i < |nick| ensures nick[i] != '\n' {
        assert IsAsciiAlphanumeric(nick[i]);
      }
    }
    NextReadLine(nick, more);
    TrimNewline(nick);
  }
}
