/** What one step of the server does to the registry and the outboxes: the
    handshake in the accept loop, the start of a session (welcome and join
    notice), one iteration of the receive loop with its seven command arms
    and the default arm, and the teardown after the loop. */
module Dispatch {
  import opened Text
  import opened Wire
  import opened Registry

  const ServerPort: nat := 8080

  /** `usize` arithmetic wraps modulo 2^64. */
  const UsizeModulus: int := 0x1_0000_0000_0000_0000

  /** One session: the nickname it was admitted under, its own stream and the
      peer address. */
  datatype Session = Session(nick: string, conn: ConnId, ip: string, port: Port)

  // ---------------------------------------------------------------------------
  // The text the server writes

  const RoomFullText: string := "chatting room full. cannot connect\n"
  const BadNicknameText: string := "nickname must be <= 10 characters, English only, no spaces or special chars\n"
  const NicknameTakenText: string := "nickname already used by another user. cannot connect\n"
  const ProhibitedText: string := "You sent a prohibited message and will be disconnected.\n"
  const ListHeader: string := "Connected users:\n"
  const CannotBanSelfText: string := "Error: You cannot ban yourself.\n"

  /** The welcome the joiner gets: its nickname, the server port and the room size. */
  function WelcomeText(nick: string, n: nat): string {
    "[Welcome " + nick + " to CAU net-class chat room" + " at nsl5.cau.ac.kr:" + Decimal(ServerPort)
    + ". There are " + Decimal(n) + " users in the room.]\n"
  }

  /** The join notice: the joiner's nickname and address and the room size. */
  function JoinedText(nick: string, ip: string, port: Port, n: nat): string {
    "[" + nick + " joined from " + ip + ":" + Decimal(port) + ". There are " + Decimal(n)
    + " users in the room.]\n"
  }

  /** The notice that a client was moderated, with the count the code computes. */
  function RemovedText(nick: string, n: nat): string {
    "[" + nick + " was removed for prohibited message. " + Decimal(n) + " users remain.]\n"
  }

  /** A relayed CHAT or EXCEPT message. */
  function RelayText(nick: string, text: string): string {
    nick + "> " + text + "\n"
  }

  /** A TO message as its target gets it. */
  function WhisperText(nick: string, text: string): string {
    "from: " + nick + "> " + text + "\n"
  }

  /** The error line for a TO, EXCEPT or BAN naming no registered client. */
  function NoSuchUserText(nick: string): string {
    "Error: User '" + nick + "' does not exist.\n"
  }

  /** The line a banned client gets. */
  function BannedByText(nick: string): string {
    "you are banned by " + nick + "\n"
  }

  /** The leave notice, with the room size after the removal. */
  function LeftText(nick: string, n: nat): string {
    "[" + nick + " left the room. There are " + Decimal(n) + " users now]\n"
  }

  /** The PING reply. */
  function RttText(elapsed: string): string {
    "RTT: " + elapsed + "\n"
  }

  type Entry = (string, Client)

  /** One line of the LIST reply: nickname, address and port. */
  function ListLine(e: Entry): string {
    e.0 + ", " + e.1.ip + ", " + Decimal(e.1.port) + "\n"
  }

  /** The lines LIST appends, one per entry, in the order given. */
  function ListLines(entries: seq<Entry>): (r: string)
    ensures entries == [] <==> r == []
    ensures entries != [] ==> r[|r| - 1] == '\n'
  {
    if entries == [] then "" else ListLines(entries[..|entries| - 1]) + ListLine(entries[|entries| - 1])
  }

  // ---------------------------------------------------------------------------
  // Each text is one line: the client's `read_line` takes it whole, and the
  // LIST reply is one line per registered client

  lemma WelcomeLine(nick: string, n: nat)
    requires '\n' !in nick
    ensures IsLine(WelcomeText(nick, n))
  {
    DecimalNoNewline(ServerPort);
    DecimalNoNewline(n);
    LineAppend("[Welcome " + nick + " to CAU net-class chat room" + " at nsl5.cau.ac.kr:" + Decimal(ServerPort)
               + ". There are " + Decimal(n), " users in the room.]\n");
  }

  lemma JoinedLine(nick: string, ip: string, port: Port, n: nat)
    requires '\n' !in nick && '\n' !in ip
    ensures IsLine(JoinedText(nick, ip, port, n))
  {
    DecimalNoNewline(port);
    DecimalNoNewline(n);
    LineAppend("[" + nick + " joined from " + ip + ":" + Decimal(port) + ". There are " + Decimal(n),
               " users in the room.]\n");
  }

  lemma RemovedLine(nick: string, n: nat)
    requires '\n' !in nick
    ensures IsLine(RemovedText(nick, n))
  {
    DecimalNoNewline(n);
    LineAppend("[" + nick + " was removed for prohibited message. " + Decimal(n), " users remain.]\n");
  }

  lemma RelayLine(nick: string, text: string)
    requires '\n' !in nick && '\n' !in text
    ensures IsLine(RelayText(nick, text))
  {
    LineOf(nick + "> " + text);
  }

  lemma WhisperLine(nick: string, text: string)
    requires '\n' !in nick && '\n' !in text
    ensures IsLine(WhisperText(nick, text))
  {
    LineOf("from: " + nick + "> " + text);
  }

  lemma NoSuchUserLine(nick: string)
    requires '\n' !in nick
    ensures IsLine(NoSuchUserText(nick))
  {
    LineOf("Error: User '" + nick + "' does not exist.");
  }

  lemma BannedByLine(nick: string)
    requires '\n' !in nick
    ensures IsLine(BannedByText(nick))
  {
    LineOf("you are banned by " + nick);
  }

  lemma LeftLine(nick: string, n: nat)
    requires '\n' !in nick
    ensures IsLine(LeftText(nick, n))
  {
    DecimalNoNewline(n);
    LineAppend("[" + nick + " left the room. There are " + Decimal(n), " users now]\n");
  }

  lemma RttLine(elapsed: string)
    requires '\n' !in elapsed
    ensures IsLine(RttText(elapsed))
  {
    LineOf("RTT: " + elapsed);
  }

  lemma ListLineIsLine(e: Entry)
    requires '\n' !in e.0 && '\n' !in e.1.ip
    ensures IsLine(ListLine(e))
  {
    DecimalNoNewline(e.1.port);
    LineOf(e.0 + ", " + e.1.ip + ", " + Decimal(e.1.port));
  }

  /** Pushing one more line onto the LIST message. */
  lemma ListMessageSnoc(entries: seq<Entry>, e: Entry)
    ensures ListHeader + ListLines(entries + [e]) == ListHeader + ListLines(entries) + ListLine(e)
  {
    assert (entries + [e])[..|entries|] == entries;
  }

  /** The lines LIST appends are one line per entry, when no nickname or
      address holds a newline. */
  lemma {:induction false} ListLinesCount(entries: seq<Entry>)
    requires forall i | 0 <= i < |entries| :: '\n' !in entries[i].0 && '\n' !in entries[i].1.ip
    ensures Newlines(ListLines(entries)) == |entries|
  {
    if entries != [] {
      var init, e := entries[..|entries| - 1], entries[|entries| - 1];
      assert ListLines(entries) == ListLines(init) + ListLine(e);
      ListLinesCount(init);
      NewlinesConcat(ListLines(init), ListLine(e));
      ListLineIsLine(e);
      LineNewlines(ListLine(e));
    }
  }

  /** `entries` is an iteration over `clients` that has visited every
      entry but those named in `rest`: each visited entry once. */
  predicate EnumeratesExcept(entries: seq<Entry>, clients: Clients, rest: set<string>) {
    && (forall i | 0 <= i < |entries| ::
          entries[i].0 in clients && entries[i].0 !in rest && clients[entries[i].0] == entries[i].1)
    && (forall i, j | 0 <= i < j < |entries| :: entries[i].0 != entries[j].0)
    && (forall n | n in clients && n !in rest :: exists i :: 0 <= i < |entries| && entries[i].0 == n)
  }

  /** `entries` is an iteration over `clients`: each of its entries once. */
  predicate Enumerates(entries: seq<Entry>, clients: Clients) {
    EnumeratesExcept(entries, clients, {})
  }

  /** Visiting one more entry of `rest`. */
  lemma {:induction false} EnumeratesStep(entries: seq<Entry>, clients: Clients, rest: set<string>, n: string)
    requires EnumeratesExcept(entries, clients, rest) && n in rest && n in clients
    ensures EnumeratesExcept(entries + [(n, clients[n])], clients, rest - {n})
  {
    var more := entries + [(n, clients[n])];
    forall m | m in clients && m !in rest - {n}
      ensures exists i :: 0 <= i < |more| && more[i].0 == m
    {
      if m == n {
        assert more[|entries|].0 == m;
      } else {
        var i :| 0 <= i < |entries| && entries[i].0 == m;
        assert more[i].0 == m;
      }
    }
  }

  // ---------------------------------------------------------------------------
  // Handshake (the accept loop)

  datatype Admission = RoomFull | BadNickname | NicknameTaken | Admitted(nick: string)

  /** The accept loop's checks, in order: capacity, then the trimmed
      nickname's format, then uniqueness. */
  function Admit(clients: Clients, line: string): (a: Admission)
    ensures a == RoomFull <==> |clients| >= MaxClients
    ensures a.Admitted? <==> |clients| < MaxClients && ValidNickname(Trim(line)) && Trim(line) !in clients
    ensures a.Admitted? ==> a.nick == Trim(line) && ValidNickname(a.nick)
  {
    if |clients| >= MaxClients then RoomFull
    else
      var nick := Trim(line);
      if !ValidNickname(nick) then BadNickname
      else if nick in clients then NicknameTaken
      else Admitted(nick)
  }

  /** One accepted connection `conn` whose first line is `line`: either a
      rejection line on `conn` or a new registry entry. */
  function Accept(w: World, conn: ConnId, ip: string, port: Port, line: string): (r: World)
    ensures Admit(w.clients, line).Admitted? ==>
              r == World(w.clients[Trim(line) := Client(conn, ip, port)], w.outbox)
    ensures !Admit(w.clients, line).Admitted? ==> r.clients == w.clients
  {
    match Admit(w.clients, line)
    case RoomFull => Direct(w, conn, RoomFullText)
    case BadNickname => Direct(w, conn, BadNicknameText)
    case NicknameTaken => Direct(w, conn, NicknameTakenText)
    case Admitted(nick) => World(w.clients[nick := Client(conn, ip, port)], w.outbox)
  }

  // ---------------------------------------------------------------------------
  // The session

  /** How a step leaves the session: the receive loop goes on, leaves the
      loop for the teardown, returns without teardown, or returns an I/O error
      (also without teardown). */
  datatype Control = Continue | Break | Return | Fail

  datatype Outcome = Outcome(world: World, next: Control)

  /** What the environment supplies for one iteration of the receive loop:
      the octets the read returned, the text the elapsed time would format to
      should the command be PING, and the connections whose writes fail. */
  datatype Tick = Tick(buf: seq<char>, rtt: string, failing: set<ConnId>)

  /** The session start: the welcome line on the joiner's own stream with the
      current size, then the join notice to everyone else. A failed welcome
      write ends the session with an error. */
  function Welcome(w: World, me: Session, failing: set<ConnId>): (o: Outcome)
    ensures o.world.clients == w.clients
    ensures o.next == (if me.conn in failing then Fail else Continue)
  {
    if me.conn in failing then Outcome(w, Fail)
    else
      var n := |w.clients|;
      var w1 := Direct(w, me.conn, WelcomeText(me.nick, n));
      Outcome(Broadcast(w1, JoinedText(me.nick, me.ip, me.port, n), {me.nick}, failing), Continue)
  }

  /** CHAT. Content whose ASCII lowercasing equals the phrase gets the sender
      the prohibited notice on its own stream, everyone else the removal
      notice counting `len - 1` in `usize`, and the sender's entry removed;
      the session then returns. Any other content is relayed to everyone but
      the sender. */
  function Chat(w: World, me: Session, text: string, failing: set<ConnId>): (o: Outcome)
    ensures o.next == Return <==> Lower(text) == Phrase && me.conn !in failing
    ensures o.next != Return ==> o.world.clients == w.clients
    ensures o.next == Return ==> o.world.clients == w.clients - {me.nick}
    ensures o.next != Fail ==> (o.next == Continue <==> Lower(text) != Phrase)
  {
    if Lower(text) == Phrase then
      if me.conn in failing then Outcome(w, Fail)
      else
        var w1 := Direct(w, me.conn, ProhibitedText);
        var remaining := (|w.clients| - 1) % UsizeModulus;
        var w2 := Broadcast(w1, RemovedText(me.nick, remaining), {me.nick}, failing);
        Outcome(Remove(w2, me.nick), Return)
    else
      Outcome(Broadcast(w, RelayText(me.nick, text), {me.nick}, failing), Continue)
  }

  /** LIST: the header and one line per entry of the registry's iteration,
      to the client registered under the session's nickname. */
  function List(w: World, me: Session, entries: seq<Entry>, failing: set<ConnId>): (r: World)
    ensures r.clients == w.clients
  {
    Reply(w, me.nick, ListHeader + ListLines(entries), failing)
  }

  /** TO: content without a space does nothing; otherwise it splits at the
      first space into target and message. */
  function To(w: World, me: Session, text: string, failing: set<ConnId>): (r: World)
    ensures r.clients == w.clients
  {
    match SplitAtSpace(text)
    case None => w
    case Some((target, msg)) =>
      if target in w.clients then Deliver(w, w.clients[target].conn, WhisperText(me.nick, msg), failing)
      else Reply(w, me.nick, NoSuchUserText(target), failing)
  }

  /** EXCEPT: like TO, but an existing named client and the sender are left
      out of a relay to everyone; naming oneself is accepted. */
  function Except(w: World, me: Session, text: string, failing: set<ConnId>): (r: World)
    ensures r.clients == w.clients
  {
    match SplitAtSpace(text)
    case None => w
    case Some((excluded, msg)) =>
      if excluded in w.clients then Broadcast(w, RelayText(me.nick, msg), {me.nick, excluded}, failing)
      else Reply(w, me.nick, NoSuchUserText(excluded), failing)
  }

  /** BAN of `target`, the trimmed content: a registered client other than
      the sender gets the ban line and loses its entry, and every remaining
      client is told the new size; otherwise the sender gets an error line. */
  function BanTarget(w: World, me: Session, target: string, failing: set<ConnId>): (r: World)
    ensures target != me.nick && target in w.clients ==> r.clients == w.clients - {target}
    ensures !(target != me.nick && target in w.clients) ==> r.clients == w.clients
  {
    if target != me.nick && target in w.clients then
      var w1 := Deliver(w, w.clients[target].conn, BannedByText(me.nick), failing);
      var w2 := Remove(w1, target);
      Broadcast(w2, LeftText(target, |w2.clients|), {}, failing)
    else if target == me.nick then Reply(w, me.nick, CannotBanSelfText, failing)
    else Reply(w, me.nick, NoSuchUserText(target), failing)
  }

  /** The BAN arm: the content trimmed, then `BanTarget`. The only entry
      that can go is the one named, and never the sender's. */
  function Ban(w: World, me: Session, text: string, failing: set<ConnId>): (r: World)
    ensures r.clients == if Trim(text) != me.nick then w.clients - {Trim(text)} else w.clients
  {
    var target := Trim(text);
    assert target !in w.clients ==> w.clients - {target} == w.clients;
    BanTarget(w, me, target, failing)
  }

  function Ping(w: World, me: Session, rtt: string, failing: set<ConnId>): (r: World)
    ensures r.clients == w.clients
  {
    Reply(w, me.nick, RttText(rtt), failing)
  }

  /** The leave sequence shared by EXIT and the teardown: remove the entry
      under `nick`, then tell every remaining client the new size. */
  function Leave(w: World, nick: string, failing: set<ConnId>): (r: World)
    ensures r.clients == w.clients - {nick}
  {
    var w1 := Remove(w, nick);
    Broadcast(w1, LeftText(nick, |w1.clients|), {}, failing)
  }

  /** One iteration of the receive loop on the octets `t.buf` of one read.
      `entries` is the registry's iteration order, used by LIST. */
  function Step(w: World, me: Session, t: Tick, entries: seq<Entry>): (o: Outcome)
    ensures Shrinks(w.clients, o.world.clients)
  {
    match Decode(t.buf)
    case Closed => Outcome(w, Break)
    case Short => Outcome(w, Continue)
    case Command(op, content) =>
      if op == CmdChat then Chat(w, me, content, t.failing)
      else if op == CmdList then Outcome(List(w, me, entries, t.failing), Continue)
      else if op == CmdTo then Outcome(To(w, me, content, t.failing), Continue)
      else if op == CmdExcept then Outcome(Except(w, me, content, t.failing), Continue)
      else if op == CmdBan then Outcome(Ban(w, me, content, t.failing), Continue)
      else if op == CmdPing then Outcome(Ping(w, me, t.rtt, t.failing), Continue)
      else if op == CmdExit then Outcome(Leave(w, me.nick, t.failing), Break)
      else Outcome(w, Continue)
  }

  /** A receive-loop step for the session `me`, as a value. */
  function StepOf(me: Session): (World, Tick, seq<Entry>) -> Outcome {
    (w, t, entries) => Step(w, me, t, entries)
  }

  /** A loop over successive reads driven by `step`: it stops at the first
      step that does not continue, and reports how many reads it consumed. */
  function Loop(step: (World, Tick, seq<Entry>) -> Outcome, w: World, ticks: seq<Tick>,
                lists: seq<seq<Entry>>): (r: (Outcome, nat))
    requires |lists| == |ticks|
    ensures r.1 <= |ticks|
    ensures r.0.next != Continue ==> r.1 >= 1
    ensures r.0.next == Continue ==> r.1 == |ticks|
    decreases |ticks|
  {
    if ticks == [] then (Outcome(w, Continue), 0)
    else
      var o := step(w, ticks[0], lists[0]);
      if o.next != Continue then (o, 1)
      else
        var (o', k) := Loop(step, o.world, ticks[1..], lists[1..]);
        (o', k + 1)
  }

  /** The loop of the session `me` only ever drops registry entries. */
  lemma {:induction false} LoopShrinks(me: Session, w: World, ticks: seq<Tick>, lists: seq<seq<Entry>>)
    requires |lists| == |ticks|
    ensures Shrinks(w.clients, Loop(StepOf(me), w, ticks, lists).0.world.clients)
    decreases |ticks|
  {
    if ticks != [] {
      var o := StepOf(me)(w, ticks[0], lists[0]);
      assert o == Step(w, me, ticks[0], lists[0]);
      if o.next == Continue {
        LoopShrinks(me, o.world, ticks[1..], lists[1..]);
      }
    }
  }

  /** The receive loop of the session `me`: it never adds or changes a
      registry entry. */
  function Run(w: World, me: Session, ticks: seq<Tick>, lists: seq<seq<Entry>>): (r: (Outcome, nat))
    requires |lists| == |ticks|
    ensures Shrinks(w.clients, r.0.world.clients)
  {
    LoopShrinks(me, w, ticks, lists);
    Loop(StepOf(me), w, ticks, lists)
  }

  /** The read `t` is a LIST command. */
  predicate IsListRead(t: Tick) {
    Decode(t.buf).Command? && Decode(t.buf).op == CmdList
  }

  /** Every LIST read the loop driven by `step` makes, starting from `w`, is
      answered from an iteration over the registry as it stands just before
      that read; reads after the loop stops are not constrained. */
  predicate ListsEnumerate(step: (World, Tick, seq<Entry>) -> Outcome, w: World, ticks: seq<Tick>,
                           lists: seq<seq<Entry>>)
    requires |lists| == |ticks|
    decreases |ticks|
  {
    ticks != [] ==>
      && (IsListRead(ticks[0]) ==> Enumerates(lists[0], w.clients))
      && var o := step(w, ticks[0], lists[0]);
         o.next == Continue ==> ListsEnumerate(step, o.world, ticks[1..], lists[1..])
  }

  /** A whole session: welcome and join notice, the receive loop, and the
      teardown when the loop was left by `break`. */
  function Serve(w: World, me: Session, joinFailing: set<ConnId>, ticks: seq<Tick>,
                 lists: seq<seq<Entry>>, leaveFailing: set<ConnId>): (r: Outcome)
    requires |lists| == |ticks|
    ensures Shrinks(w.clients, r.world.clients)
  {
    var o := Welcome(w, me, joinFailing);
    if o.next == Fail then o
    else
      var r := Run(o.world, me, ticks, lists).0;
      if r.next == Break then Outcome(Leave(r.world, me.nick, leaveFailing), Break) else r
  }
}
