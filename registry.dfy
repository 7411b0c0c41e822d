/** The server's shared state: the registry from nickname to client info and,
    standing in for the socket writes, one outbox per connection holding the
    messages written to it in order. */
module Registry {
  import opened Text
  import opened Wire

  /** Identifies one accepted connection (its `TcpStream`). */
  type ConnId = nat
  type Port = p: int | 0 <= p < 0x1_0000

  /** A registry entry: the stream to write to and the peer address. */
  datatype Client = Client(conn: ConnId, ip: string, port: Port)

  type Clients = map<string, Client>
  type Outbox = map<ConnId, seq<string>>

  datatype World = World(clients: Clients, outbox: Outbox)

  const MaxClients: nat := 4

  /** The registry invariant: bounded by the capacity, every key a valid
      nickname, and every entry on its own connection, all of them issued
      before `next`. */
  predicate Wellformed(clients: Clients, next: ConnId) {
    && |clients| <= MaxClients
    && (forall n | n in clients :: ValidNickname(n) && clients[n].conn < next)
    && (forall n, m | n in clients && m in clients && clients[n].conn == clients[m].conn :: n == m)
  }

  /** What has been written to connection `c` so far. */
  function Sent(o: Outbox, c: ConnId): seq<string> {
    if c in o then o[c] else []
  }

  /** Appends `m` to the outbox of every connection in `to`, and only to those. */
  function Post(o: Outbox, to: set<ConnId>, m: string): (r: Outbox)
    ensures r.Keys == o.Keys + to
    ensures forall c :: Sent(r, c) == Sent(o, c) + (if c in to then [m] else [])
  {
    map c | c in o.Keys + to :: Sent(o, c) + (if c in to then [m] else [])
  }

  /** The connections of the clients named in `names` that are registered and
      not excluded. */
  function Audience(clients: Clients, names: set<string>, excluded: set<string>): set<ConnId> {
    set n | n in names && n in clients && n !in excluded :: clients[n].conn
  }

  /** What one connection receives from two posts to disjoint sets. */
  lemma PostTwiceAt(o: Outbox, a: set<ConnId>, b: set<ConnId>, m: string, d: ConnId)
    requires a !! b
    ensures Sent(Post(Post(o, a, m), b, m), d) == Sent(Post(o, a + b, m), d)
  {
    if d in a {
      assert d !in b;
    }
  }

  /** Posting to `a` and then to a disjoint `b` is posting to both at once. */
  lemma PostTwice(o: Outbox, a: set<ConnId>, b: set<ConnId>, m: string)
    requires a !! b
    ensures Post(Post(o, a, m), b, m) == Post(o, a + b, m)
  {
    var l, r := Post(Post(o, a, m), b, m), Post(o, a + b, m);
    assert l.Keys == r.Keys;
    forall d | d in l.Keys ensures l[d] == r[d] {
      PostTwiceAt(o, a, b, m, d);
      assert l[d] == Sent(l, d) && r[d] == Sent(r, d);
    }
  }

  /** Posting to no connection changes nothing. */
  lemma PostNowhere(o: Outbox, m: string)
    ensures Post(o, {}, m) == o
  {
    var r := Post(o, {}, m);
    assert r.Keys == o.Keys;
    forall d | d in o ensures r[d] == o[d] {
      assert r[d] == Sent(r, d);
    }
  }

  /** Posting to one connection appends to its outbox alone. */
  lemma PostOne(o: Outbox, c: ConnId, m: string)
    ensures Post(o, {c}, m) == o[c := Sent(o, c) + [m]]
  {
    var r, l := Post(o, {c}, m), o[c := Sent(o, c) + [m]];
    assert r.Keys == l.Keys;
    forall d | d in l ensures r[d] == l[d] {
      assert r[d] == Sent(r, d);
    }
  }

  /** Growing the set of names considered by one registered name adds its
      connection to the audience, unless it is excluded. */
  lemma AudienceAddOne(clients: Clients, names: set<string>, excluded: set<string>, n: string)
    requires n in clients
    ensures Audience(clients, names + {n}, excluded)
            == Audience(clients, names, excluded) + (if n in excluded then {} else {clients[n].conn})
  {
  }

  /** With distinct connections, a name outside `names` contributes a
      connection no name of `names` does. */
  lemma AudienceFresh(clients: Clients, names: set<string>, excluded: set<string>, n: string, next: ConnId)
    requires Wellformed(clients, next) && n in clients && n !in names
    ensures clients[n].conn !in Audience(clients, names, excluded)
  {
  }

  /** Moving one name from the names still to visit to those visited. */
  lemma VisitOne(all: set<string>, todo: set<string>, n: string)
    requires n in todo && todo <= all
    ensures all - (todo - {n}) == (all - todo) + {n}
  {
  }

  /** One loop step of a broadcast: considering one more registered name
      adds its connection, unless excluded or failing, and that connection is
      not yet among those written to. */
  lemma AudienceStep(clients: Clients, done: set<string>, excluded: set<string>, failing: set<ConnId>,
                     n: string, next: ConnId)
    requires Wellformed(clients, next) && n in clients && n !in done
    ensures n in excluded ==> Audience(clients, done + {n}, excluded) == Audience(clients, done, excluded)
    ensures n !in excluded ==>
              && (Audience(clients, done, excluded) - failing) !! ({clients[n].conn} - failing)
              && Audience(clients, done + {n}, excluded) - failing
                 == (Audience(clients, done, excluded) - failing) + ({clients[n].conn} - failing)
  {
    AudienceAddOne(clients, done, excluded, n);
    AudienceFresh(clients, done, excluded, n, next);
  }

  /** A write on the session's own stream. */
  function Direct(w: World, c: ConnId, m: string): (r: World)
    ensures r.clients == w.clients
  {
    World(w.clients, Post(w.outbox, {c}, m))
  }

  /** `send_message` to one connection: lost, and skipped, if its transport fails. */
  function Deliver(w: World, c: ConnId, m: string, failing: set<ConnId>): (r: World)
    ensures r.clients == w.clients
  {
    World(w.clients, Post(w.outbox, {c} - failing, m))
  }

  /** A delivery writes to no other connection. */
  lemma DeliverElsewhere(w: World, c: ConnId, m: string, failing: set<ConnId>, d: ConnId)
    requires d != c
    ensures Sent(Deliver(w, c, m, failing).outbox, d) == Sent(w.outbox, d)
  {
    assert d !in {c} - failing;
  }

  /** `clients.get(nick)` followed by `send_message`: nothing when `nick` is
      not registered. */
  function Reply(w: World, nick: string, m: string, failing: set<ConnId>): (r: World)
    ensures r.clients == w.clients
  {
    if nick in w.clients then Deliver(w, w.clients[nick].conn, m, failing) else w
  }

  /** `m` to every registered client whose nickname is not excluded. */
  function Broadcast(w: World, m: string, excluded: set<string>, failing: set<ConnId>): (r: World)
    ensures r.clients == w.clients
  {
    World(w.clients, Post(w.outbox, Audience(w.clients, w.clients.Keys, excluded) - failing, m))
  }

  /** `clients.remove(nick)`: that key goes, every other entry stays as it
      was, and nothing is written. */
  function Remove(w: World, nick: string): (r: World)
    ensures nick !in r.clients && r.outbox == w.outbox
  {
    World(w.clients - {nick}, w.outbox)
  }

  /** A broadcast gives a registered client one copy unless its nickname is
      excluded or its transport fails; the registry's connections being
      distinct, no other entry can add a second copy. */
  lemma {:induction false} BroadcastAt(w: World, m: string, excluded: set<string>, failing: set<ConnId>,
                                       next: ConnId, n: string)
    requires Wellformed(w.clients, next) && n in w.clients
    ensures Sent(Broadcast(w, m, excluded, failing).outbox, w.clients[n].conn)
            == Sent(w.outbox, w.clients[n].conn)
               + (if n in excluded || w.clients[n].conn in failing then [] else [m])
  {
    var c := w.clients[n].conn;
    var aud := Audience(w.clients, w.clients.Keys, excluded);
    if n !in excluded {
      assert c in aud;
    }
  }

  /** A broadcast writes nothing to a connection no registered client uses. */
  lemma BroadcastElsewhere(w: World, m: string, excluded: set<string>, failing: set<ConnId>, c: ConnId)
    requires c !in Audience(w.clients, w.clients.Keys, {})
    ensures Sent(Broadcast(w, m, excluded, failing).outbox, c) == Sent(w.outbox, c)
  {
  }

  /** A broadcast leaves the registry alone, gives each registered client
      whose nickname is not excluded and whose transport works exactly one
      copy, and writes nothing anywhere else. */
  lemma {:induction false} BroadcastReachesEachOnce(w: World, m: string, excluded: set<string>,
                                                    failing: set<ConnId>, next: ConnId)
    requires Wellformed(w.clients, next)
    ensures Broadcast(w, m, excluded, failing).clients == w.clients
    ensures forall n | n in w.clients ::
              Sent(Broadcast(w, m, excluded, failing).outbox, w.clients[n].conn)
              == Sent(w.outbox, w.clients[n].conn)
                 + (if n in excluded || w.clients[n].conn in failing then [] else [m])
    ensures forall c | c !in Audience(w.clients, w.clients.Keys, {}) ::
              Sent(Broadcast(w, m, excluded, failing).outbox, c) == Sent(w.outbox, c)
  {
    forall n | n in w.clients
      ensures Sent(Broadcast(w, m, excluded, failing).outbox, w.clients[n].conn)
              == Sent(w.outbox, w.clients[n].conn)
                 + (if n in excluded || w.clients[n].conn in failing then [] else [m])
    {
      BroadcastAt(w, m, excluded, failing, next, n);
    }
  }

  /** Removal by nickname is idempotent and removes nothing else. */
  lemma RemoveIdempotent(w: World, nick: string)
    ensures Remove(Remove(w, nick), nick) == Remove(w, nick)
    ensures nick !in Remove(w, nick).clients
    ensures forall n | n in w.clients && n != nick :: n in Remove(w, nick).clients
              && Remove(w, nick).clients[n] == w.clients[n]
  {
  }

  /** Inserting a fresh, well-formed nickname on a fresh connection into a
      registry with a free place keeps it well formed. */
  lemma InsertPreservesWellformed(clients: Clients, nick: string, c: Client, next: ConnId)
    requires Wellformed(clients, next)
    requires ValidNickname(nick) && nick !in clients && |clients| < MaxClients && c.conn == next
    ensures Wellformed(clients[nick := c], next + 1)
    ensures |clients[nick := c]| == |clients| + 1
  {
  }

  /** The invariant only weakens as connection ids are issued. */
  lemma WellformedLater(clients: Clients, next: ConnId, later: ConnId)
    requires Wellformed(clients, next) && next <= later
    ensures Wellformed(clients, later)
  {
  }

  /** `after` keeps some of the entries of `before`, unchanged, and adds none. */
  predicate Shrinks(before: Clients, after: Clients) {
    after.Keys <= before.Keys && forall n | n in after :: after[n] == before[n]
  }

  /** Dropping entries keeps the registry well formed. */
  lemma {:induction false} ShrinkPreservesWellformed(before: Clients, after: Clients, next: ConnId)
    requires Wellformed(before, next) && Shrinks(before, after)
    ensures Wellformed(after, next)
  {
    assert before.Keys == after.Keys + (before.Keys - after.Keys);
    assert |before.Keys| == |after.Keys| + |before.Keys - after.Keys|;
  }

  /** Removing entries keeps the registry well formed. */
  lemma {:induction false} RemovePreservesWellformed(clients: Clients, nick: string, next: ConnId)
    requires Wellformed(clients, next)
    ensures Wellformed(clients - {nick}, next)
    ensures nick in clients ==> |clients - {nick}| == |clients| - 1
  {
    assert (clients - {nick}).Keys == clients.Keys - {nick};
  }
}
