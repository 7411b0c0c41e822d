/** The server as the program runs it: one object holding the shared
    registry and, standing in for the client streams, the outboxes. Each
    method changes them step by step as the corresponding code does, and is
    proved to leave the state the functions of `Dispatch` describe. */
module ChatServer {
  import opened Text
  import opened Wire
  import opened Registry
  import opened Dispatch
  import ServerProperties

  class Server {
    /** The `HashMap<String, Client>` behind the mutex. */
    var clients: Clients
    /** Everything written to each accepted stream, in order. */
    var outbox: Outbox
    /** The id the next accepted connection gets. */
    var nextConn: ConnId

    ghost predicate Valid()
      reads this
    {
      Wellformed(clients, nextConn)
    }

    function State(): World
      reads this
    {
      World(clients, outbox)
    }

    constructor ()
      ensures Valid() && clients == map[] && outbox == map[] && nextConn == 0
    {
      clients := map[];
      outbox := map[];
      nextConn := 0;
    }

    /** A `write_all` on the session's own stream. */
    method WriteOwn(c: ConnId, message: string)
      modifies this
      ensures clients == old(clients) && nextConn == old(nextConn)
      ensures State() == Direct(old(State()), c, message)
    {
      PostOne(outbox, c, message);
      outbox := outbox[c := Sent(outbox, c) + [message]];
    }

    /** `Client::send_message`: the write is lost when the transport fails,
        and the caller carries on. */
    method SendMessage(c: ConnId, message: string, failing: set<ConnId>)
      modifies this
      ensures clients == old(clients) && nextConn == old(nextConn)
      ensures outbox == Post(old(outbox), {c} - failing, message)
      ensures State() == Deliver(old(State()), c, message, failing)
    {
      if c !in failing {
        assert {c} - failing == {c};
        PostOne(outbox, c, message);
        outbox := outbox[c := Sent(outbox, c) + [message]];
      } else {
        assert {c} - failing == {};
        PostNowhere(outbox, message);
      }
    }

    /** `clients.get(nick)` and, if present, `send_message`. */
    method ReplyTo(nick: string, message: string, failing: set<ConnId>)
      modifies this
      ensures clients == old(clients) && nextConn == old(nextConn)
      ensures State() == Reply(old(State()), nick, message, failing)
    {
      if nick in clients {
        SendMessage(clients[nick].conn, message, failing);
      }
    }

    /** `broadcast_to_all`: iterate over the registry and send to every
        client whose nickname is not excluded. The same loop, with the
        sender (and, for EXCEPT, the named client) excluded, is written out
        inline in the CHAT moderation and EXCEPT arms. */
    method BroadcastToAll(message: string, excluded: set<string>, failing: set<ConnId>)
      requires Valid()
      modifies this
      ensures clients == old(clients) && nextConn == old(nextConn)
      ensures State() == Broadcast(old(State()), message, excluded, failing)
    {
      var todo := clients.Keys;
      assert Audience(clients, clients.Keys - todo, excluded) == {};
      PostNowhere(outbox, message);
      while todo != {}
        invariant todo <= clients.Keys
        invariant clients == old(clients) && nextConn == old(nextConn)
        invariant outbox == Post(old(outbox), Audience(clients, clients.Keys - todo, excluded) - failing, message)
        decreases |todo|
      {
        var n :| n in todo;
        ghost var done := clients.Keys - todo;
        ghost var sent := Audience(clients, done, excluded) - failing;
        AudienceStep(clients, done, excluded, failing, n, nextConn);
        if n !in excluded {
          var c := clients[n].conn;
          PostTwice(old(outbox), sent, {c} - failing, message);
          SendMessage(c, message, failing);
          assert outbox == Post(old(outbox), sent + ({c} - failing), message);
        }
        VisitOne(clients.Keys, todo, n);
        todo := todo - {n};
      }
      assert clients.Keys - todo == clients.Keys;
      assert outbox == Post(old(outbox), Audience(clients, clients.Keys, excluded) - failing, message);
    }

    /** The handshake for one accepted connection: the capacity check, the
        first line trimmed and checked, the duplicate check, then the insert. */
    method Accept(ip: string, port: Port, line: string) returns (conn: ConnId, a: Admission)
      requires Valid()
      modifies this
      ensures Valid() && conn == old(nextConn) && nextConn == conn + 1
      ensures a == Admit(old(clients), line)
      ensures State() == Dispatch.Accept(old(State()), conn, ip, port, line)
    {
      conn := nextConn;
      nextConn := nextConn + 1;
      WellformedLater(clients, conn, nextConn);
      if |clients| >= MaxClients {
        WriteOwn(conn, RoomFullText);
        return conn, RoomFull;
      }
      var nick := Trim(line);
      if !ValidNickname(nick) {
        WriteOwn(conn, BadNicknameText);
        return conn, BadNickname;
      }
      if nick in clients {
        WriteOwn(conn, NicknameTakenText);
        return conn, NicknameTaken;
      }
      InsertPreservesWellformed(clients, nick, Client(conn, ip, port), conn);
      clients := clients[nick := Client(conn, ip, port)];
      a := Admitted(nick);
    }

    /** The start of `handle_client`: the welcome line on the joiner's
        stream (its failure ends the session), then the join notice. */
    method Welcome(me: Session, failing: set<ConnId>) returns (next: Control)
      requires Valid()
      modifies this
      ensures Valid() && nextConn == old(nextConn)
      ensures Outcome(State(), next) == Dispatch.Welcome(old(State()), me, failing)
    {
      if me.conn in failing {
        return Fail;
      }
      var n := |clients|;
      WriteOwn(me.conn, WelcomeText(me.nick, n));
      BroadcastToAll(JoinedText(me.nick, me.ip, me.port, n), {me.nick}, failing);
      next := Continue;
    }

    /** The moderation sequence of the CHAT arm: the prohibited notice on
        the sender's own stream (its failure ends the session with an
        error), then the removal. */
    method Moderate(me: Session, failing: set<ConnId>) returns (next: Control)
      requires Valid()
      modifies this
      ensures Valid() && nextConn == old(nextConn)
      ensures next == (if me.conn in failing then Fail else Return)
      ensures next == Fail ==> State() == old(State())
      ensures next == Return ==>
                State() == Remove(Broadcast(Direct(old(State()), me.conn, ProhibitedText),
                                            RemovedText(me.nick, (|old(clients)| - 1) % UsizeModulus),
                                            {me.nick}, failing),
                                  me.nick)
    {
      if me.conn in failing {
        return Fail;
      }
      WriteOwn(me.conn, ProhibitedText);
      Expel(me.nick, failing);
      next := Return;
    }

    /** The removal notice to every other client, counting `len - 1` in
        `usize`, and the removal of the sender's entry. */
    method Expel(nick: string, failing: set<ConnId>)
      requires Valid()
      modifies this
      ensures Valid() && nextConn == old(nextConn)
      ensures State() == Remove(Broadcast(old(State()), RemovedText(nick, (|old(clients)| - 1) % UsizeModulus),
                                          {nick}, failing),
                                nick)
    {
      var remaining := (|clients| - 1) % UsizeModulus;
      BroadcastToAll(RemovedText(nick, remaining), {nick}, failing);
      ghost var w := State();
      RemovePreservesWellformed(clients, nick, nextConn);
      clients := clients - {nick};
      assert State() == Remove(w, nick);
    }

    /** The CHAT arm. */
    method Chat(me: Session, text: string, failing: set<ConnId>) returns (next: Control)
      requires Valid()
      modifies this
      ensures Valid() && nextConn == old(nextConn)
      ensures Outcome(State(), next) == Dispatch.Chat(old(State()), me, text, failing)
    {
      if Lower(text) == Phrase {
        if me.conn !in failing {
          ServerProperties.ModeratedWorld(State(), me, text, failing);
        }
        next := Moderate(me, failing);
      } else {
        BroadcastToAll(RelayText(me.nick, text), {me.nick}, failing);
        next := Continue;
      }
    }

    /** The LIST message, built by pushing one line per entry while
        iterating over the registry; `entries` is that iteration. */
    method ListMessage() returns (message: string, entries: seq<Entry>)
      ensures Enumerates(entries, clients)
      ensures message == ListHeader + ListLines(entries)
    {
      message := ListHeader;
      var todo := clients.Keys;
      entries := [];
      while todo != {}
        invariant todo <= clients.Keys
        invariant message == ListHeader + ListLines(entries)
        invariant EnumeratesExcept(entries, clients, todo)
        decreases |todo|
      {
        var n :| n in todo;
        var e := (n, clients[n]);
        ListMessageSnoc(entries, e);
        EnumeratesStep(entries, clients, todo, n);
        message := message + ListLine(e);
        entries := entries + [e];
        todo := todo - {n};
      }
    }

    /** The LIST arm: the message to the client registered under the
        session's nickname. */
    method List(me: Session, failing: set<ConnId>) returns (entries: seq<Entry>)
      requires Valid()
      modifies this
      ensures Valid() && nextConn == old(nextConn)
      ensures Enumerates(entries, old(clients))
      ensures State() == Dispatch.List(old(State()), me, entries, failing)
    {
      var message;
      message, entries := ListMessage();
      ReplyTo(me.nick, message, failing);
    }

    /** The TO arm: split at the first space, then the private line or an
        error line to the sender. */
    method To(me: Session, text: string, failing: set<ConnId>)
      requires Valid()
      modifies this
      ensures Valid() && nextConn == old(nextConn)
      ensures State() == Dispatch.To(old(State()), me, text, failing)
    {
      var space := FindSpace(text);
      if space.Some? {
        var target, message := text[..space.value], text[space.value + 1..];
        if target in clients {
          SendMessage(clients[target].conn, WhisperText(me.nick, message), failing);
        } else {
          ReplyTo(me.nick, NoSuchUserText(target), failing);
        }
      }
    }

    /** The EXCEPT arm. */
    method Except(me: Session, text: string, failing: set<ConnId>)
      requires Valid()
      modifies this
      ensures Valid() && nextConn == old(nextConn)
      ensures State() == Dispatch.Except(old(State()), me, text, failing)
    {
      var space := FindSpace(text);
      if space.Some? {
        var excluded, message := text[..space.value], text[space.value + 1..];
        if excluded in clients {
          BroadcastToAll(RelayText(me.nick, message), {me.nick, excluded}, failing);
        } else {
          ReplyTo(me.nick, NoSuchUserText(excluded), failing);
        }
      }
    }

    /** The BAN arm. */
    method Ban(me: Session, text: string, failing: set<ConnId>)
      requires Valid()
      modifies this
      ensures Valid() && nextConn == old(nextConn)
      ensures State() == Dispatch.Ban(old(State()), me, text, failing)
    {
      var target := Trim(text);
      if target != me.nick && target in clients {
        SendMessage(clients[target].conn, BannedByText(me.nick), failing);
        RemovePreservesWellformed(clients, target, nextConn);
        clients := clients - {target};
        BroadcastToAll(LeftText(target, |clients|), {}, failing);
      } else if target == me.nick {
        ReplyTo(me.nick, CannotBanSelfText, failing);
      } else {
        ReplyTo(me.nick, NoSuchUserText(target), failing);
      }
    }

    /** The leave sequence of the EXIT arm and of the teardown. */
    method Leave(nick: string, failing: set<ConnId>)
      requires Valid()
      modifies this
      ensures Valid() && nextConn == old(nextConn)
      ensures State() == Dispatch.Leave(old(State()), nick, failing)
    {
      RemovePreservesWellformed(clients, nick, nextConn);
      clients := clients - {nick};
      BroadcastToAll(LeftText(nick, |clients|), {}, failing);
    }

    /** One iteration of the receive loop on the octets of one read. */
    method Receive(me: Session, t: Tick) returns (next: Control, entries: seq<Entry>)
      requires Valid()
      modifies this
      ensures Valid() && nextConn == old(nextConn)
      ensures Outcome(State(), next) == Step(old(State()), me, t, entries)
      ensures IsListRead(t) ==> Enumerates(entries, old(clients))
    {
      entries := [];
      if |t.buf| == 0 {
        return Break, entries;
      }
      if |t.buf| <= 1 {
        return Continue, entries;
      }
      var cmd := t.buf[0] as int;
      var content := t.buf[1..|t.buf| - 1];
      if cmd == CmdChat {
        next := Chat(me, content, t.failing);
      } else if cmd == CmdList {
        entries := List(me, t.failing);
        next := Continue;
      } else if cmd == CmdTo {
        To(me, content, t.failing);
        next := Continue;
      } else if cmd == CmdExcept {
        Except(me, content, t.failing);
        next := Continue;
      } else if cmd == CmdBan {
        Ban(me, content, t.failing);
        next := Continue;
      } else if cmd == CmdPing {
        ReplyTo(me.nick, RttText(t.rtt), t.failing);
        next := Continue;
      } else if cmd == CmdExit {
        Leave(me.nick, t.failing);
        next := Break;
      } else {
        next := Continue;
      }
    }

    /** The receive loop of `handle_client` over the reads `ticks`, until a
        step does not continue or the reads run out; `lists` holds the
        registry iteration each step's LIST used. */
    method ReceiveLoop(me: Session, ticks: seq<Tick>) returns (result: Control, lists: seq<seq<Entry>>)
      requires Valid()
      modifies this
      ensures Valid() && nextConn == old(nextConn) && |lists| == |ticks|
      ensures Run(old(State()), me, ticks, lists).0 == Outcome(State(), result)
      ensures ListsEnumerate(StepOf(me), old(State()), ticks, lists)
    {
      ghost var w := State();
      result := Continue;
      lists := [];
      var i := 0;
      while i < |ticks| && result == Continue
        invariant 0 <= i <= |ticks| && |lists| == i
        invariant Valid() && nextConn == old(nextConn)
        invariant Loop(StepOf(me), w, ticks[..i], lists) == (Outcome(State(), result), i)
        invariant ListsEnumerate(StepOf(me), w, ticks[..i], lists)
        decreases |ticks| - i
      {
        var entries;
        result, entries := Receive(me, ticks[i]);
        ServerProperties.LoopPrefixStep(StepOf(me), w, ticks, lists, i, entries);
        ServerProperties.ListsPrefixStep(StepOf(me), w, ticks, lists, i, entries);
        lists := lists + [entries];
        i := i + 1;
      }
      ServerProperties.LoopPrefixStops(StepOf(me), w, ticks, lists, i);
      ServerProperties.ListsPrefixStops(StepOf(me), w, ticks, lists, i);
      lists := lists + ServerProperties.NoLists(|ticks| - i);
    }

    /** `handle_client`: the welcome, the receive loop, and the teardown if
        the loop was left by `break`. */
    method HandleClient(me: Session, joinFailing: set<ConnId>, ticks: seq<Tick>, leaveFailing: set<ConnId>)
      returns (result: Control, lists: seq<seq<Entry>>)
      requires Valid()
      modifies this
      ensures Valid() && nextConn == old(nextConn) && |lists| == |ticks|
      ensures Outcome(State(), result) == Serve(old(State()), me, joinFailing, ticks, lists, leaveFailing)
      ensures var joined := Dispatch.Welcome(old(State()), me, joinFailing);
              joined.next != Fail ==> ListsEnumerate(StepOf(me), joined.world, ticks, lists)
    {
      ghost var w := State();
      result := Welcome(me, joinFailing);
      if result == Fail {
        return result, ServerProperties.NoLists(|ticks|);
      }
      ghost var joined := State();
      result, lists := ReceiveLoop(me, ticks);
      ghost var stopped := State();
      ServerProperties.ServeParts(w, me, joinFailing, ticks, lists, leaveFailing, joined, stopped, result);
      if result == Break {
        Leave(me.nick, leaveFailing);
      }
    }
  }
}
