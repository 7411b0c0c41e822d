/** Properties of the server's steps: the registry invariant, who receives
    what for each command, and the consequences of removing by nickname. */
module ServerProperties {
  import opened Text
  import opened Wire
  import opened Registry
  import opened Dispatch

  /** No registered client other than the session's own entry uses the
      session's stream. */
  predicate OwnStream(clients: Clients, me: Session) {
    forall n | n in clients && clients[n].conn == me.conn :: n == me.nick
  }

  // ---------------------------------------------------------------------------
  // Handshake

  /** The accept loop admits exactly when the room has a free place, the
      trimmed nickname is well formed and not taken, and then inserts exactly
      that key; otherwise the registry is unchanged and the new connection
      gets the rejection line for the first check that failed. Either way the
      registry stays well formed. */
  lemma {:induction false} AcceptAdmission(w: World, conn: ConnId, ip: string, port: Port, line: string)
    requires Wellformed(w.clients, conn)
    ensures Wellformed(Accept(w, conn, ip, port, line).clients, conn + 1)
    ensures Admit(w.clients, line).Admitted?
            <==> |w.clients| < MaxClients && ValidNickname(Trim(line)) && Trim(line) !in w.clients
    ensures Admit(w.clients, line).Admitted? ==>
              Accept(w, conn, ip, port, line) == World(w.clients[Trim(line) := Client(conn, ip, port)], w.outbox)
              && |Accept(w, conn, ip, port, line).clients| == |w.clients| + 1
    ensures !Admit(w.clients, line).Admitted? ==>
              Accept(w, conn, ip, port, line).clients == w.clients
              && Sent(Accept(w, conn, ip, port, line).outbox, conn) == Sent(w.outbox, conn) +
                   [if |w.clients| >= MaxClients then RoomFullText
                    else if !ValidNickname(Trim(line)) then BadNicknameText
                    else NicknameTakenText]
  {
    match Admit(w.clients, line)
    case Admitted(nick) =>
      InsertPreservesWellformed(w.clients, nick, Client(conn, ip, port), conn);
    case _ =>
      WellformedLater(w.clients, conn, conn + 1);
  }

  /** The start of a session registered on its own stream: the joiner gets
      the welcome line counting everyone registered, itself included, and
      every other registered client (whose transport works) the join notice
      with the same count; the registry is unchanged. */
  lemma {:induction false} WelcomeDelivery(w: World, me: Session, failing: set<ConnId>, next: ConnId)
    requires Wellformed(w.clients, next)
    requires me.nick in w.clients && w.clients[me.nick].conn == me.conn && me.conn !in failing
    ensures var o := Welcome(w, me, failing);
            && o.next == Continue
            && o.world.clients == w.clients
            && Sent(o.world.outbox, me.conn) == Sent(w.outbox, me.conn) + [WelcomeText(me.nick, |w.clients|)]
            && (forall n | n in w.clients && n != me.nick ::
                  Sent(o.world.outbox, w.clients[n].conn) == Sent(w.outbox, w.clients[n].conn)
                  + (if w.clients[n].conn in failing then []
                     else [JoinedText(me.nick, me.ip, me.port, |w.clients|)]))
  {
    var d := Direct(w, me.conn, WelcomeText(me.nick, |w.clients|));
    var m := JoinedText(me.nick, me.ip, me.port, |w.clients|);
    var b := Broadcast(d, m, {me.nick}, failing);
    assert Welcome(w, me, failing) == Outcome(b, Continue);
    assert Sent(d.outbox, me.conn) == Sent(w.outbox, me.conn) + [WelcomeText(me.nick, |w.clients|)];
    BroadcastAt(d, m, {me.nick}, failing, next, me.nick);
    forall n | n in w.clients && n != me.nick
      ensures Sent(b.outbox, w.clients[n].conn)
              == Sent(w.outbox, w.clients[n].conn) + (if w.clients[n].conn in failing then [] else [m])
    {
      BroadcastAt(d, m, {me.nick}, failing, next, n);
      assert Sent(d.outbox, w.clients[n].conn) == Sent(w.outbox, w.clients[n].conn);
    }
  }

  /** The welcome of a client just inserted on a fresh connection: the
      joiner's count includes itself, and every client registered before it
      gets the join notice with that count. */
  lemma {:induction false} WelcomeAfterInsert(w: World, nick: string, c: Client, failing: set<ConnId>)
    requires Wellformed(w.clients, c.conn)
    requires ValidNickname(nick) && nick !in w.clients && |w.clients| < MaxClients && c.conn !in failing
    ensures var o := Welcome(World(w.clients[nick := c], w.outbox), Session(nick, c.conn, c.ip, c.port), failing);
            && o.next == Continue
            && Sent(o.world.outbox, c.conn) == Sent(w.outbox, c.conn) + [WelcomeText(nick, |w.clients| + 1)]
            && (forall n | n in w.clients ::
                  Sent(o.world.outbox, w.clients[n].conn) == Sent(w.outbox, w.clients[n].conn)
                  + (if w.clients[n].conn in failing then []
                     else [JoinedText(nick, c.ip, c.port, |w.clients| + 1)]))
  {
    var w1 := World(w.clients[nick := c], w.outbox);
    var me := Session(nick, c.conn, c.ip, c.port);
    InsertPreservesWellformed(w.clients, nick, c, c.conn);
    WelcomeDelivery(w1, me, failing, c.conn + 1);
    var o := Welcome(w1, me, failing);
    forall n | n in w.clients
      ensures Sent(o.world.outbox, w.clients[n].conn) == Sent(w.outbox, w.clients[n].conn)
              + (if w.clients[n].conn in failing then [] else [JoinedText(nick, c.ip, c.port, |w.clients| + 1)])
    {
      assert n in w1.clients && n != nick && w1.clients[n] == w.clients[n];
    }
  }

  /** A just-admitted client's session starts with the welcome line counting
      the registry after the insert, and every client registered before it
      gets the join notice with that count. */
  lemma {:induction false} WelcomeAfterAccept(w: World, conn: ConnId, ip: string, port: Port, line: string,
                                              failing: set<ConnId>)
    requires Wellformed(w.clients, conn)
    requires Admit(w.clients, line).Admitted? && conn !in failing
    ensures var me := Session(Trim(line), conn, ip, port);
            var o := Welcome(Accept(w, conn, ip, port, line), me, failing);
            && o.next == Continue
            && Sent(o.world.outbox, conn) == Sent(w.outbox, conn) + [WelcomeText(me.nick, |w.clients| + 1)]
            && (forall n | n in w.clients ::
                  Sent(o.world.outbox, w.clients[n].conn) == Sent(w.outbox, w.clients[n].conn)
                  + (if w.clients[n].conn in failing then []
                     else [JoinedText(me.nick, ip, port, |w.clients| + 1)]))
  {
    var nick := Trim(line);
    assert Accept(w, conn, ip, port, line) == World(w.clients[nick := Client(conn, ip, port)], w.outbox) by {
      assert Admit(w.clients, line) == Admitted(nick);
    }
    WelcomeAfterInsert(w, nick, Client(conn, ip, port), failing);
  }

  // ---------------------------------------------------------------------------
  // The receive loop

  /** Every step keeps the registry well formed: it only ever removes
      entries (the postcondition of `Step`). */
  lemma StepPreservesWellformed(w: World, me: Session, t: Tick, entries: seq<Entry>, next: ConnId)
    requires Wellformed(w.clients, next)
    ensures Wellformed(Step(w, me, t, entries).world.clients, next)
  {
    ShrinkPreservesWellformed(w.clients, Step(w, me, t, entries).world.clients, next);
  }

  /** The receive loop's reading of read sizes: a 0-octet read leaves the
      loop for the teardown, a 1-octet read is skipped, and an opcode outside
      1 to 7 sends nothing and changes nothing. */
  lemma ReadSizes(w: World, me: Session, t: Tick, entries: seq<Entry>)
    ensures |t.buf| == 0 ==> Step(w, me, t, entries) == Outcome(w, Break)
    ensures |t.buf| == 1 ==> Step(w, me, t, entries) == Outcome(w, Continue)
    ensures |t.buf| >= 2 && !IsOpcode(t.buf[0] as int) ==> Step(w, me, t, entries) == Outcome(w, Continue)
  {
  }

  /** The world CHAT moderation leaves behind, written out step by step. */
  lemma ModeratedWorld(w: World, me: Session, text: string, failing: set<ConnId>)
    requires Lower(text) == Phrase && me.conn !in failing
    ensures Chat(w, me, text, failing).world
            == Remove(Broadcast(Direct(w, me.conn, ProhibitedText),
                                RemovedText(me.nick, (|w.clients| - 1) % UsizeModulus), {me.nick}, failing),
                      me.nick)
  {
  }

  /** CHAT moderation: the sender gets the prohibited notice on its own
      stream, once, and the session returns with the sender's entry gone. */
  lemma {:induction false} ChatModerationSender(w: World, me: Session, text: string, failing: set<ConnId>,
                                                next: ConnId)
    requires Wellformed(w.clients, next) && OwnStream(w.clients, me)
    requires Lower(text) == Phrase && me.conn !in failing
    ensures var o := Chat(w, me, text, failing);
            && o.next == Return
            && o.world.clients == w.clients - {me.nick}
            && Sent(o.world.outbox, me.conn) == Sent(w.outbox, me.conn) + [ProhibitedText]
  {
    ModeratedWorld(w, me, text, failing);
    var d := Direct(w, me.conn, ProhibitedText);
    var m := RemovedText(me.nick, (|w.clients| - 1) % UsizeModulus);
    if me.nick in w.clients && w.clients[me.nick].conn == me.conn {
      BroadcastAt(d, m, {me.nick}, failing, next, me.nick);
    } else {
      assert me.conn !in Audience(d.clients, d.clients.Keys, {me.nick});
    }
  }

  /** CHAT moderation: every other registered client gets the removal notice
      counting `len - 1`, and the content itself reaches no one. */
  lemma {:induction false} ChatModerationOthers(w: World, me: Session, text: string, failing: set<ConnId>,
                                                next: ConnId, n: string)
    requires Wellformed(w.clients, next) && OwnStream(w.clients, me)
    requires Lower(text) == Phrase && me.conn !in failing
    requires n in w.clients && n != me.nick
    ensures Sent(Chat(w, me, text, failing).world.outbox, w.clients[n].conn)
            == Sent(w.outbox, w.clients[n].conn)
               + (if w.clients[n].conn in failing then []
                  else [RemovedText(me.nick, (|w.clients| - 1) % UsizeModulus)])
  {
    ModeratedWorld(w, me, text, failing);
    var d := Direct(w, me.conn, ProhibitedText);
    var m := RemovedText(me.nick, (|w.clients| - 1) % UsizeModulus);
    assert Chat(w, me, text, failing).world.outbox == Broadcast(d, m, {me.nick}, failing).outbox;
    assert w.clients[n].conn != me.conn;
    assert Sent(d.outbox, w.clients[n].conn) == Sent(w.outbox, w.clients[n].conn);
    BroadcastAt(d, m, {me.nick}, failing, next, n);
  }

  /** CHAT content that is not the phrase is relayed once to every registered
      client but the sender, and the registry is unchanged. */
  lemma {:induction false} ChatRelay(w: World, me: Session, text: string, failing: set<ConnId>, next: ConnId)
    requires Wellformed(w.clients, next)
    requires Lower(text) != Phrase
    ensures var o := Chat(w, me, text, failing);
            && o.next == Continue && o.world.clients == w.clients
            && (forall n | n in w.clients ::
                  Sent(o.world.outbox, w.clients[n].conn) == Sent(w.outbox, w.clients[n].conn)
                  + (if n == me.nick || w.clients[n].conn in failing then [] else [RelayText(me.nick, text)]))
            && (forall c | c !in Audience(w.clients, w.clients.Keys, {}) ::
                  Sent(o.world.outbox, c) == Sent(w.outbox, c))
  {
    BroadcastReachesEachOnce(w, RelayText(me.nick, text), {me.nick}, failing, next);
  }

  /** The removal count assumes the sender is still registered: a session
      whose entry is already gone (banned, its client still connected) that
      sends the phrase removes nobody, yet tells every working client that
      one user fewer than the registry holds remains. */
  lemma {:induction false} StaleSessionRemovalCount(w: World, me: Session, text: string, failing: set<ConnId>,
                                                    next: ConnId, n: string)
    requires Wellformed(w.clients, next) && OwnStream(w.clients, me) && me.nick !in w.clients
    requires Lower(text) == Phrase && me.conn !in failing
    requires n in w.clients && w.clients[n].conn !in failing
    ensures Chat(w, me, text, failing).next == Return
    ensures Chat(w, me, text, failing).world.clients == w.clients
    ensures Sent(Chat(w, me, text, failing).world.outbox, w.clients[n].conn)
            == Sent(w.outbox, w.clients[n].conn) + [RemovedText(me.nick, |w.clients| - 1)]
  {
    assert 1 <= |w.clients| <= MaxClients by {
      assert n in w.clients.Keys;
    }
    assert (|w.clients| - 1) % UsizeModulus == |w.clients| - 1;
    ChatModerationSender(w, me, text, failing, next);
    ChatModerationOthers(w, me, text, failing, next, n);
    assert w.clients - {me.nick} == w.clients;
  }

  /** LIST sends one message, to the client registered under the session's
      nickname: the header and one line per registered client. */
  lemma {:induction false} ListOneLinePerClient(w: World, me: Session, entries: seq<Entry>, failing: set<ConnId>)
    requires Enumerates(entries, w.clients)
    ensures |entries| == |w.clients|
    ensures List(w, me, entries, failing).clients == w.clients
    ensures forall c :: Sent(List(w, me, entries, failing).outbox, c) == Sent(w.outbox, c)
              + (if me.nick in w.clients && c == w.clients[me.nick].conn && c !in failing
                 then [ListHeader + ListLines(entries)] else [])
  {
    EnumerationSize(entries, w.clients);
  }

  lemma {:induction false} EnumerationSize(entries: seq<Entry>, clients: Clients)
    requires Enumerates(entries, clients)
    ensures |entries| == |clients|
  {
    var names := set i | 0 <= i < |entries| :: entries[i].0;
    assert names == clients.Keys;
    DistinctNamesCount(entries);
  }

  lemma {:induction false} DistinctNamesCount(entries: seq<Entry>)
    requires forall i, j | 0 <= i < j < |entries| :: entries[i].0 != entries[j].0
    ensures |set i | 0 <= i < |entries| :: entries[i].0| == |entries|
  {
    if entries != [] {
      var init := entries[..|entries| - 1];
      DistinctNamesCount(init);
      var last := entries[|entries| - 1].0;
      var s := set i | 0 <= i < |init| :: init[i].0;
      assert (set i | 0 <= i < |entries| :: entries[i].0) == s + {last};
      assert last !in s;
    }
  }

  /** TO whose content has no space sends nothing. */
  lemma ToWithoutSpace(w: World, me: Session, text: string, failing: set<ConnId>)
    requires ' ' !in text
    ensures To(w, me, text, failing) == w
  {
  }

  /** TO of `target + " " + msg`, the target holding no space: an existing
      target alone gets the private line; a missing target gets the sender
      (if registered) one error line. Nothing else is written. */
  lemma {:induction false} ToDelivery(w: World, me: Session, target: string, msg: string, failing: set<ConnId>)
    requires ' ' !in target
    ensures forall c :: Sent(To(w, me, target + " " + msg, failing).outbox, c) == Sent(w.outbox, c)
              + (if c in failing then []
                 else if target in w.clients then
                   (if c == w.clients[target].conn then [WhisperText(me.nick, msg)] else [])
                 else if me.nick in w.clients && c == w.clients[me.nick].conn then [NoSuchUserText(target)]
                 else [])
  {
    SplitAtSpaceJoin(target, msg);
  }

  /** EXCEPT whose content has no space sends nothing. */
  lemma ExceptWithoutSpace(w: World, me: Session, text: string, failing: set<ConnId>)
    requires ' ' !in text
    ensures Except(w, me, text, failing) == w
  {
  }

  /** EXCEPT of `excluded + " " + msg` naming a registered client: every
      registered client other than the sender and the named one gets the
      relay once, and nothing is written elsewhere. */
  lemma {:induction false} ExceptDelivery(w: World, me: Session, excluded: string, msg: string,
                                          failing: set<ConnId>, next: ConnId)
    requires Wellformed(w.clients, next) && ' ' !in excluded && excluded in w.clients
    ensures var r := Except(w, me, excluded + " " + msg, failing);
            && (forall n | n in w.clients :: Sent(r.outbox, w.clients[n].conn)
                  == Sent(w.outbox, w.clients[n].conn)
                  + (if n == me.nick || n == excluded || w.clients[n].conn in failing then []
                     else [RelayText(me.nick, msg)]))
            && (forall c | c !in Audience(w.clients, w.clients.Keys, {}) :: Sent(r.outbox, c) == Sent(w.outbox, c))
  {
    SplitAtSpaceJoin(excluded, msg);
    BroadcastReachesEachOnce(w, RelayText(me.nick, msg), {me.nick, excluded}, failing, next);
  }

  /** EXCEPT naming a client that is not registered gets the sender (if
      registered) one error line and relays nothing. */
  lemma {:induction false} ExceptMissing(w: World, me: Session, excluded: string, msg: string, failing: set<ConnId>)
    requires ' ' !in excluded && excluded !in w.clients
    ensures Except(w, me, excluded + " " + msg, failing) == Reply(w, me.nick, NoSuchUserText(excluded), failing)
  {
    SplitAtSpaceJoin(excluded, msg);
  }

  /** Excluding oneself is accepted: everybody but the sender gets the relay. */
  lemma {:induction false} ExceptSelf(w: World, me: Session, msg: string, failing: set<ConnId>)
    requires me.nick in w.clients && ' ' !in me.nick
    ensures Except(w, me, me.nick + " " + msg, failing)
            == Broadcast(w, RelayText(me.nick, msg), {me.nick}, failing)
  {
    SplitAtSpaceJoin(me.nick, msg);
    assert {me.nick, me.nick} == {me.nick};
  }

  /** BAN of a registered client other than the sender: the entry goes and
      the registry shrinks by one; the banned client gets the ban line. */
  lemma {:induction false} BanNotifiesTarget(w: World, me: Session, target: string, failing: set<ConnId>,
                                             next: ConnId)
    requires Wellformed(w.clients, next) && target != me.nick && target in w.clients
    ensures |BanTarget(w, me, target, failing).clients| == |w.clients| - 1
    ensures Sent(BanTarget(w, me, target, failing).outbox, w.clients[target].conn)
            == Sent(w.outbox, w.clients[target].conn)
               + (if w.clients[target].conn in failing then [] else [BannedByText(me.nick)])
  {
    var c := w.clients[target].conn;
    RemovePreservesWellformed(w.clients, target, next);
    var w1 := Deliver(w, c, BannedByText(me.nick), failing);
    var w2 := Remove(w1, target);
    assert c !in Audience(w2.clients, w2.clients.Keys, {});
    BroadcastElsewhere(w2, LeftText(target, |w2.clients|), {}, failing, c);
  }

  /** BAN of a registered client other than the sender is the ban line on
      the target's stream, the removal of its entry, and the leave notice
      with the new size to everyone still registered. */
  lemma BanWorld(w: World, me: Session, target: string, failing: set<ConnId>, next: ConnId)
    requires Wellformed(w.clients, next) && target != me.nick && target in w.clients
    ensures var w2 := Remove(Deliver(w, w.clients[target].conn, BannedByText(me.nick), failing), target);
            && Wellformed(w2.clients, next)
            && BanTarget(w, me, target, failing) == Broadcast(w2, LeftText(target, |w.clients| - 1), {}, failing)
  {
    RemovePreservesWellformed(w.clients, target, next);
  }

  /** BAN of a registered client other than the sender: every client that
      stays registered, the sender included, gets the leave notice with the
      new size. */
  lemma {:induction false} BanNotifiesRest(w: World, me: Session, target: string, failing: set<ConnId>,
                                           next: ConnId, n: string)
    requires Wellformed(w.clients, next) && target != me.nick && target in w.clients
    requires n in w.clients && n != target
    ensures Sent(BanTarget(w, me, target, failing).outbox, w.clients[n].conn)
            == Sent(w.outbox, w.clients[n].conn)
               + (if w.clients[n].conn in failing then [] else [LeftText(target, |w.clients| - 1)])
  {
    var c, m := w.clients[n].conn, LeftText(target, |w.clients| - 1);
    var w2 := Remove(Deliver(w, w.clients[target].conn, BannedByText(me.nick), failing), target);
    BanWorld(w, me, target, failing, next);
    assert w2.clients[n] == w.clients[n];
    assert c != w.clients[target].conn;
    DeliverElsewhere(w, w.clients[target].conn, BannedByText(me.nick), failing, c);
    BroadcastAt(w2, m, {}, failing, next, n);
  }

  /** Banning oneself or a name that is not registered changes nothing but
      the sender's stream, which (if the sender is still registered) gets
      one error line. */
  lemma BanRefused(w: World, me: Session, target: string, failing: set<ConnId>)
    requires target == me.nick || target !in w.clients
    ensures BanTarget(w, me, target, failing)
            == Reply(w, me.nick, if target == me.nick then CannotBanSelfText else NoSuchUserText(target), failing)
  {
  }

  /** The leave sequence gives every other registered client one leave
      notice with the size after the removal. */
  lemma LeaveAt(w: World, nick: string, failing: set<ConnId>, n: string)
    requires n in w.clients && n != nick
    ensures Sent(Leave(w, nick, failing).outbox, w.clients[n].conn) == Sent(w.outbox, w.clients[n].conn)
            + (if w.clients[n].conn in failing then [] else [LeftText(nick, |w.clients - {nick}|)])
  {
    assert n in (w.clients - {nick});
  }

  /** PING: the client registered under the session's nickname gets one RTT
      line, nobody else gets anything, and the registry is unchanged. */
  lemma {:induction false} PingReply(w: World, me: Session, rtt: string, failing: set<ConnId>)
    ensures Ping(w, me, rtt, failing).clients == w.clients
    ensures forall c :: Sent(Ping(w, me, rtt, failing).outbox, c) == Sent(w.outbox, c)
              + (if me.nick in w.clients && c == w.clients[me.nick].conn && c !in failing
                 then [RttText(rtt)] else [])
  {
    if me.nick in w.clients {
      var d := w.clients[me.nick].conn;
      assert Ping(w, me, rtt, failing) == Deliver(w, d, RttText(rtt), failing);
    } else {
      assert Ping(w, me, rtt, failing) == w;
    }
  }

  /** EXIT is the leave sequence followed by `break`. */
  lemma StepExit(w: World, me: Session, t: Tick, entries: seq<Entry>)
    requires Decode(t.buf).Command? && Decode(t.buf).op == CmdExit
    ensures Step(w, me, t, entries) == Outcome(Leave(w, me.nick, t.failing), Break)
  {
  }

  /** After EXIT (`StepExit`) the teardown runs the leave sequence again: the
      second removal is a no-op, and every remaining client gets the leave
      notice with the same size twice. */
  lemma {:induction false} ExitAnnouncesTwice(w: World, nick: string, exitFailing: set<ConnId>,
                                              leaveFailing: set<ConnId>, n: string)
    requires n in w.clients && n != nick
    requires w.clients[n].conn !in exitFailing && w.clients[n].conn !in leaveFailing
    ensures var final := Leave(Leave(w, nick, exitFailing), nick, leaveFailing);
            && final.clients == w.clients - {nick}
            && Sent(final.outbox, w.clients[n].conn) == Sent(w.outbox, w.clients[n].conn)
               + [LeftText(nick, |w.clients - {nick}|)] + [LeftText(nick, |w.clients - {nick}|)]
  {
    var w1 := Leave(w, nick, exitFailing);
    var c, m := w.clients[n].conn, LeftText(nick, |w.clients - {nick}|);
    assert w1.clients - {nick} == w.clients - {nick} by {
      assert w1.clients == w.clients - {nick};
    }
    assert n in w1.clients && w1.clients[n].conn == c;
    assert Sent(w1.outbox, c) == Sent(w.outbox, c) + [m] by {
      LeaveAt(w, nick, exitFailing, n);
    }
    var final := Leave(w1, nick, leaveFailing);
    assert Sent(final.outbox, c) == Sent(w1.outbox, c) + [m] by {
      LeaveAt(w1, nick, leaveFailing, n);
    }
  }

  /** Teardown removes by nickname: a session whose client was banned, and
      whose nickname has since been taken by a newer connection, removes the
      newer client's entry when it ends. */
  lemma StaleTeardownRemovesNewer()
    ensures var newer := Client(7, "10.0.0.9", 6000);
            var w := World(map["alice" := newer], map[]);
            var stale := Session("alice", 0, "10.0.0.1", 5000);
            "alice" !in Leave(w, stale.nick, {}).clients
  {
  }

  /** A session that is no longer registered but whose nickname a newer
      client now holds sends its LIST reply to that newer client. */
  lemma StaleListReachesNewer(entries: seq<Entry>)
    ensures var newer := Client(7, "10.0.0.9", 6000);
            var w := World(map["alice" := newer], map[]);
            var stale := Session("alice", 0, "10.0.0.1", 5000);
            var r := List(w, stale, entries, {});
            Sent(r.outbox, newer.conn) == [ListHeader + ListLines(entries)] && Sent(r.outbox, stale.conn) == []
  {
  }

  /** Reads of one octet are skipped until a read of zero octets ends the
      loop: nothing is sent and the loop leaves for the teardown. */
  lemma {:induction false} RunSkipsShortReads(w: World, me: Session, ticks: seq<Tick>, lists: seq<seq<Entry>>, k: nat)
    requires |lists| == |ticks| && k < |ticks|
    requires forall i | 0 <= i < k :: |ticks[i].buf| == 1
    requires ticks[k].buf == []
    ensures Run(w, me, ticks, lists) == (Outcome(w, Break), k + 1)
    decreases k
  {
    if k > 0 {
      assert |ticks[0].buf| == 1;
      RunSkipsShortReads(w, me, ticks[1..], lists[1..], k - 1);
    }
  }

  /** One more read after a loop that is still running is one more step. */
  lemma {:induction false} LoopSnoc(step: (World, Tick, seq<Entry>) -> Outcome, w: World, ticks: seq<Tick>,
                                    lists: seq<seq<Entry>>, t: Tick, entries: seq<Entry>)
    requires |lists| == |ticks| && Loop(step, w, ticks, lists).0.next == Continue
    ensures Loop(step, w, ticks + [t], lists + [entries])
            == (step(Loop(step, w, ticks, lists).0.world, t, entries), |ticks| + 1)
    decreases |ticks|
  {
    if ticks != [] {
      var o := step(w, ticks[0], lists[0]);
      assert (ticks + [t])[0] == ticks[0] && (ticks + [t])[1..] == ticks[1..] + [t];
      assert (lists + [entries])[0] == lists[0] && (lists + [entries])[1..] == lists[1..] + [entries];
      LoopSnoc(step, o.world, ticks[1..], lists[1..], t, entries);
    }
  }

  /** Once the loop has stopped, later reads are never made. */
  lemma {:induction false} LoopStops(step: (World, Tick, seq<Entry>) -> Outcome, w: World, ticks: seq<Tick>,
                                     lists: seq<seq<Entry>>, more: seq<Tick>, moreLists: seq<seq<Entry>>)
    requires |lists| == |ticks| && |moreLists| == |more| && Loop(step, w, ticks, lists).0.next != Continue
    ensures Loop(step, w, ticks + more, lists + moreLists) == Loop(step, w, ticks, lists)
    decreases |ticks|
  {
    var o := step(w, ticks[0], lists[0]);
    assert (ticks + more)[0] == ticks[0] && (lists + moreLists)[0] == lists[0];
    if o.next == Continue {
      assert (ticks + more)[1..] == ticks[1..] + more && (lists + moreLists)[1..] == lists[1..] + moreLists;
      LoopStops(step, o.world, ticks[1..], lists[1..], more, moreLists);
    }
  }

  /** No LIST iterations, for reads never made. */
  function NoLists(n: nat): (r: seq<seq<Entry>>)
    ensures |r| == n
  {
    seq(n, _ => [])
  }

  /** The loop over the first `i` reads, still running, extended by read `i`. */
  lemma {:induction false} LoopPrefixStep(step: (World, Tick, seq<Entry>) -> Outcome, w: World, ticks: seq<Tick>,
                                          lists: seq<seq<Entry>>, i: nat, entries: seq<Entry>)
    requires i < |ticks| && |lists| == i && Loop(step, w, ticks[..i], lists).0.next == Continue
    ensures Loop(step, w, ticks[..i + 1], lists + [entries])
            == (step(Loop(step, w, ticks[..i], lists).0.world, ticks[i], entries), i + 1)
  {
    LoopSnoc(step, w, ticks[..i], lists, ticks[i], entries);
    assert ticks[..i] + [ticks[i]] == ticks[..i + 1];
  }

  /** The loop that stopped after `i` reads, or ran out of them, is the
      loop over all the reads. */
  lemma {:induction false} LoopPrefixStops(step: (World, Tick, seq<Entry>) -> Outcome, w: World, ticks: seq<Tick>,
                                           lists: seq<seq<Entry>>, i: nat)
    requires i <= |ticks| && |lists| == i
    requires i == |ticks| || Loop(step, w, ticks[..i], lists).0.next != Continue
    ensures Loop(step, w, ticks, lists + NoLists(|ticks| - i)) == Loop(step, w, ticks[..i], lists)
  {
    assert ticks[..i] + ticks[i..] == ticks;
    if i < |ticks| {
      LoopStops(step, w, ticks[..i], lists, ticks[i..], NoLists(|ticks| - i));
    } else {
      assert ticks[..i] == ticks && lists + NoLists(0) == lists;
    }
  }

  /** A LIST answered from the registry before one more read, after a loop
      that is still running and whose LIST reads were all answered so. */
  lemma {:induction false} ListsSnoc(step: (World, Tick, seq<Entry>) -> Outcome, w: World, ticks: seq<Tick>,
                                     lists: seq<seq<Entry>>, t: Tick, entries: seq<Entry>)
    requires |lists| == |ticks| && Loop(step, w, ticks, lists).0.next == Continue
    requires ListsEnumerate(step, w, ticks, lists)
    requires IsListRead(t) ==> Enumerates(entries, Loop(step, w, ticks, lists).0.world.clients)
    ensures ListsEnumerate(step, w, ticks + [t], lists + [entries])
    decreases |ticks|
  {
    if ticks == [] {
      assert ticks + [t] == [t] && lists + [entries] == [entries];
      assert [t][1..] == [] && [entries][1..] == [];
    } else {
      var o := step(w, ticks[0], lists[0]);
      assert (ticks + [t])[0] == ticks[0] && (ticks + [t])[1..] == ticks[1..] + [t];
      assert (lists + [entries])[0] == lists[0] && (lists + [entries])[1..] == lists[1..] + [entries];
      ListsSnoc(step, o.world, ticks[1..], lists[1..], t, entries);
    }
  }

  /** Reads after the loop stopped add nothing to check. */
  lemma {:induction false} ListsStop(step: (World, Tick, seq<Entry>) -> Outcome, w: World, ticks: seq<Tick>,
                                     lists: seq<seq<Entry>>, more: seq<Tick>, moreLists: seq<seq<Entry>>)
    requires |lists| == |ticks| && |moreLists| == |more| && Loop(step, w, ticks, lists).0.next != Continue
    requires ListsEnumerate(step, w, ticks, lists)
    ensures ListsEnumerate(step, w, ticks + more, lists + moreLists)
    decreases |ticks|
  {
    var o := step(w, ticks[0], lists[0]);
    assert (ticks + more)[0] == ticks[0] && (lists + moreLists)[0] == lists[0];
    if o.next == Continue {
      assert (ticks + more)[1..] == ticks[1..] + more && (lists + moreLists)[1..] == lists[1..] + moreLists;
      ListsStop(step, o.world, ticks[1..], lists[1..], more, moreLists);
    }
  }

  /** `ListsSnoc` for the first `i` reads, extended by read `i`. */
  lemma {:induction false} ListsPrefixStep(step: (World, Tick, seq<Entry>) -> Outcome, w: World, ticks: seq<Tick>,
                                           lists: seq<seq<Entry>>, i: nat, entries: seq<Entry>)
    requires i < |ticks| && |lists| == i && Loop(step, w, ticks[..i], lists).0.next == Continue
    requires ListsEnumerate(step, w, ticks[..i], lists)
    requires IsListRead(ticks[i]) ==> Enumerates(entries, Loop(step, w, ticks[..i], lists).0.world.clients)
    ensures ListsEnumerate(step, w, ticks[..i + 1], lists + [entries])
  {
    ListsSnoc(step, w, ticks[..i], lists, ticks[i], entries);
    assert ticks[..i] + [ticks[i]] == ticks[..i + 1];
  }

  /** The LIST reads of a loop that stopped after `i` reads, or ran out of
      them, are those of its first `i` reads. */
  lemma {:induction false} ListsPrefixStops(step: (World, Tick, seq<Entry>) -> Outcome, w: World, ticks: seq<Tick>,
                                            lists: seq<seq<Entry>>, i: nat)
    requires i <= |ticks| && |lists| == i
    requires i == |ticks| || Loop(step, w, ticks[..i], lists).0.next != Continue
    requires ListsEnumerate(step, w, ticks[..i], lists)
    ensures ListsEnumerate(step, w, ticks, lists + NoLists(|ticks| - i))
  {
    assert ticks[..i] + ticks[i..] == ticks;
    if i < |ticks| {
      ListsStop(step, w, ticks[..i], lists, ticks[i..], NoLists(|ticks| - i));
    } else {
      assert ticks[..i] == ticks && lists + NoLists(0) == lists;
    }
  }

  /** A session is its welcome, its receive loop and, after `break`, the
      leave sequence. */
  lemma ServeParts(w: World, me: Session, joinFailing: set<ConnId>, ticks: seq<Tick>, lists: seq<seq<Entry>>,
                   leaveFailing: set<ConnId>, joined: World, stopped: World, result: Control)
    requires |lists| == |ticks| && Welcome(w, me, joinFailing) == Outcome(joined, Continue)
    requires Run(joined, me, ticks, lists).0 == Outcome(stopped, result)
    ensures Serve(w, me, joinFailing, ticks, lists, leaveFailing)
            == if result == Break then Outcome(Leave(stopped, me.nick, leaveFailing), Break)
               else Outcome(stopped, result)
  {
  }
}
