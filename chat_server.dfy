/**
 * The "An Seo" chat server: one ChatProtocol session per TCP connection, all
 * sharing the ChatFactory's table of registered display names.
 *
 * The reactor runs one callback at a time to completion, so each callback is
 * one method here. `sendLine` appends one line to the session's transport;
 * the byte-level framing of lines is not modelled.
 */
module ChatServer {
  import opened PyStrings

  /** The two values the source stores in `self.state`: 'New User' and 'CHAT'. */
  datatype State = NewUser | Chat

  // The lines the server writes, exactly as chat_server.py spells them.
  const Greeting: string := ">>>    An Seo!    <<<"
  const UsernameTaken: string := ">>> Username taken! <<<"
  const NameAccepted: string := "OK<"

  /** `'>>>   User %s AnSeo !   <<<' % name`, announced when `name` registers. */
  function JoinLine(name: string): string
  {
    ">>>   User " + name + " AnSeo !   <<<"
  }

  /** `'>>>%s : %s  <<<' % (name, message)`, one relayed chat line. */
  function ChatLine(name: string, message: string): string
  {
    ">>>" + name + " : " + message + "  <<<"
  }

  /** `' >>>   User %s amach sa teach !  <<<' % name`, announced when `name` leaves. */
  function DepartureLine(name: string): string
  {
    " >>>   User " + name + " amach sa teach !  <<<"
  }

  /**
   * The registry invariant: a name maps to a session only if that session
   * holds the name and is chatting; every chatting session is the entry under
   * its own name (so no name is held twice); a session still awaiting its name
   * has none; and every open connection has its own transport (`owner`
   * maps each transport back to its one session).
   */
  ghost predicate Registry(f: ChatFactory, users: map<string, ChatProtocol>, live: set<ChatProtocol>,
                           owner: map<Transport, ChatProtocol>)
    reads live
  {
    && users.Values <= live
    && (forall s :: s in live ==> s.factory == f && s.transport in owner && owner[s.transport] == s)
    && (forall k :: k in users ==> users[k].name == Some(k) && users[k].state == Chat)
    && (forall s :: s in live && s.state == NewUser ==> s.name == None)
    && (forall s :: s in live && s.state == Chat ==>
          s.name.Some? && s.name.value in users && users[s.name.value] == s)
  }

  /** Setting aside a session that has no name yet keeps the invariant; it is in no entry. */
  lemma RegistryUnnamed(f: ChatFactory, users: map<string, ChatProtocol>, live: set<ChatProtocol>,
                        owner: map<Transport, ChatProtocol>, p: ChatProtocol)
    requires Registry(f, users, live, owner) && p in live && p.state == NewUser
    ensures p !in users.Values && Registry(f, users, live - {p}, owner)
  {
    forall s | s in users.Values ensures s != p {
      var k :| k in users && users[k] == s;
    }
  }

  /** Closing a chatting session keeps the invariant once its own entry is deleted. */
  lemma RegistryLeave(f: ChatFactory, users: map<string, ChatProtocol>, live: set<ChatProtocol>,
                      owner: map<Transport, ChatProtocol>, p: ChatProtocol)
    requires Registry(f, users, live, owner) && p in live && p.state == Chat
    ensures Registry(f, users - {p.name.value}, live - {p}, owner)
  {
    var n := p.name.value;
    var u := users - {n};
    forall s | s in u.Values ensures s in live - {p} {
      var k :| k in u && u[k] == s;
      assert users[k] == s && s.name == Some(k);
    }
  }

  /** A session that takes a free name and starts chatting extends the invariant. */
  lemma RegistryJoin(f: ChatFactory, users: map<string, ChatProtocol>, live: set<ChatProtocol>,
                     owner: map<Transport, ChatProtocol>, p: ChatProtocol, n: string)
    requires p in live && Registry(f, users, live - {p}, owner)
    requires p.factory == f && p.transport in owner && owner[p.transport] == p
    requires n !in users && p.name == Some(n) && p.state == Chat
    ensures Registry(f, users[n := p], live, owner)
  {
    var u := users[n := p];
    forall s | s in u.Values ensures s in live {
      var k :| k in u && u[k] == s;
      if k != n { assert users[k] == s && users[k] in users.Values; }
    }
  }

  /** Under the invariant no two open sessions chat under the same name. */
  lemma NamesUnique(f: ChatFactory, users: map<string, ChatProtocol>, live: set<ChatProtocol>,
                    owner: map<Transport, ChatProtocol>, s: ChatProtocol, t: ChatProtocol)
    requires Registry(f, users, live, owner)
    requires s in live && t in live && s.state == Chat && t.state == Chat
    ensures s.name == t.name <==> s == t
  {
    if s.name == t.name {
      assert users[s.name.value] == s && users[t.name.value] == t;
    }
  }

  /** One connection's outgoing side: every line written to it, in order. */
  class Transport {
    var sent: seq<string>

    constructor ()
      ensures sent == []
    {
      sent := [];
    }
  }

  /** Shared state of the server: the `users` dictionary from display name to session. */
  class ChatFactory {
    var users: map<string, ChatProtocol>
    // The sessions built and not yet torn down (connections still open).
    ghost var Live: set<ChatProtocol>
    // The session each transport handed out so far belongs to.
    ghost var Owner: map<Transport, ChatProtocol>

    /** The registry invariant over this factory's table and open sessions. */
    ghost predicate Valid()
      reads this, Live
    {
      Registry(this, users, Live, Owner)
    }

    /** The transports of the registered sessions: what a broadcast may write to. */
    ghost function UserTransports(): set<Transport>
      reads this
    {
      set k | k in users :: users[k].transport
    }

    /** `ChatFactory.__init__`: an empty user table. */
    constructor ()
      ensures Valid() && users == map[] && Live == {}
    {
      users := map[];
      Live := {};
      Owner := map[];
    }

    /**
     * `buildProtocol`: a new session for an accepted connection, in state
     * 'New User' with no name; the table is unchanged.
     */
    method BuildProtocol() returns (p: ChatProtocol)
      requires Valid()
      modifies this
      ensures Valid()
      ensures fresh(p) && fresh(p.transport) && p.factory == this
      ensures p.name == None && p.state == NewUser && p.transport.sent == []
      ensures Live == old(Live) + {p} && users == old(users)
    {
      p := new ChatProtocol(this);
      Live := Live + {p};
      Owner := Owner[p.transport := p];
    }
  }

  /** One client connection's session. */
  class ChatProtocol {
    const factory: ChatFactory
    // Supplied by the reactor in the source; created with the session here.
    const transport: Transport
    var name: Option<string>
    var state: State

    /** `ChatProtocol.__init__`: no name yet, state 'New User'. */
    constructor (factory: ChatFactory)
      ensures this.factory == factory && name == None && state == NewUser
      ensures fresh(transport) && transport.sent == []
    {
      this.factory := factory;
      transport := new Transport();
      name := None;
      state := NewUser;
    }

    /** `LineReceiver.sendLine`: one line goes out on this connection. */
    method SendLine(line: string)
      modifies transport
      ensures transport.sent == old(transport.sent) + [line]
    {
      transport.sent := transport.sent + [line];
    }

    /** `connectionMade`: a session still in 'New User' is greeted, once. */
    method ConnectionMade()
      modifies transport
      ensures old(state) == NewUser ==> transport.sent == old(transport.sent) + [Greeting]
      ensures old(state) == Chat ==> transport.sent == old(transport.sent)
    {
      if state == NewUser {
        SendLine(Greeting);
      }
    }

    /**
     * `broadcastMessage`: every registered session other than this one gets
     * `message` exactly once; this session and the unregistered ones get nothing.
     */
    method BroadcastMessage(message: string)
      requires factory.Valid()
      requires transport in factory.Owner && factory.Owner[transport] == this
      modifies factory.UserTransports()
      ensures forall s :: s in factory.users.Values && s != this ==>
                s.transport.sent == old(s.transport.sent) + [message]
      ensures transport.sent == old(transport.sent)
      ensures forall s :: s in factory.Live && s !in factory.users.Values ==>
                s.transport.sent == old(s.transport.sent)
    {
      var pending := factory.users.Keys;
      while pending != {}
        invariant pending <= factory.users.Keys
        invariant forall k :: k in factory.users && k !in pending && factory.users[k] != this ==>
                    factory.users[k].transport.sent == old(factory.users[k].transport.sent) + [message]
        invariant forall k :: k in pending ==>
                    factory.users[k].transport.sent == old(factory.users[k].transport.sent)
        invariant transport.sent == old(transport.sent)
        invariant forall s :: s in factory.Live && s !in factory.users.Values ==>
                    s.transport.sent == old(s.transport.sent)
        decreases pending
      {
        var k :| k in pending;
        var protocol := factory.users[k];
        if protocol != this {
          protocol.SendLine(message);
        }
        pending := pending - {k};
      }
      forall s | s in factory.users.Values && s != this
        ensures s.transport.sent == old(s.transport.sent) + [message]
      {
        var k :| k in factory.users && factory.users[k] == s;
      }
    }

    /**
     * `handle_Register`: a taken name is refused and nothing else changes; a
     * fresh name is acknowledged, announced to the sessions registered before
     * this call, and then recorded for this session, which starts chatting.
     */
    method HandleRegister(n: string)
      requires factory.Valid() && this in factory.Live && state == NewUser
      modifies this, factory, transport, factory.UserTransports()
      ensures factory.Valid() && factory.Live == old(factory.Live)
      ensures n in old(factory.users) ==>
                && transport.sent == old(transport.sent) + [UsernameTaken]
                && name == old(name) && state == old(state)
                && factory.users == old(factory.users)
                && (forall s :: s in old(factory.Live) && s != this ==> s.transport.sent == old(s.transport.sent))
      ensures n !in old(factory.users) ==>
                && transport.sent == old(transport.sent) + [NameAccepted]
                && name == Some(n) && state == Chat
                && factory.users == old(factory.users)[n := this]
                && (forall s :: s in old(factory.users.Values) ==>
                      s.transport.sent == old(s.transport.sent) + [JoinLine(n)])
                && (forall s :: s in old(factory.Live) && s != this && s !in old(factory.users.Values) ==>
                      s.transport.sent == old(s.transport.sent))
      ensures forall s :: s in old(factory.Live) && s != this ==> s.name == old(s.name) && s.state == old(s.state)
    {
      if n in factory.users {
        SendLine(UsernameTaken);
        return;
      } else {
        SendLine(NameAccepted);
      }
      BroadcastMessage(JoinLine(n));
      Enroll(n);
    }

    /** The last three statements of `handle_Register`: record the name, enter 'CHAT'. */
    method Enroll(n: string)
      requires factory.Valid() && this in factory.Live && state == NewUser && n !in factory.users
      modifies this, factory
      ensures factory.Valid() && factory.Live == old(factory.Live)
      ensures name == Some(n) && state == Chat && factory.users == old(factory.users)[n := this]
    {
      ghost var before, live, owner := factory.users, factory.Live, factory.Owner;
      RegistryUnnamed(factory, before, live, owner, this);
      name := Some(n);
      factory.users := factory.users[n := this];
      state := Chat;
      RegistryJoin(factory, before, live, owner, this, n);
    }

    /**
     * `handle_Chat`: the line goes out as `>>>name : line  <<<` to exactly the
     * other registered sessions.
     */
    method HandleChat(message: string)
      requires factory.Valid() && this in factory.Live && state == Chat
      modifies factory.UserTransports()
      ensures factory.Valid()
      ensures forall s :: s in factory.users.Values && s != this ==>
                s.transport.sent == old(s.transport.sent) + [ChatLine(name.value, message)]
      ensures forall s :: s in factory.Live && (s == this || s !in factory.users.Values) ==>
                s.transport.sent == old(s.transport.sent)
    {
      var line := ChatLine(name.value, message);
      BroadcastMessage(line);
    }

    /**
     * `lineReceived`: before registration every line is a proposed name, after
     * it every line is chat. The state never goes back to 'New User'.
     */
    method LineReceived(line: string)
      requires factory.Valid() && this in factory.Live
      modifies this, factory, transport, factory.UserTransports()
      ensures factory.Valid() && factory.Live == old(factory.Live)
      ensures old(state) == Chat ==> state == Chat && name == old(name) && factory.users == old(factory.users)
      ensures old(state) == Chat ==>
                && (forall s :: s in factory.users.Values && s != this ==>
                      s.transport.sent == old(s.transport.sent) + [ChatLine(name.value, line)])
                && (forall s :: s in factory.Live && (s == this || s !in factory.users.Values) ==>
                      s.transport.sent == old(s.transport.sent))
      ensures old(state) == NewUser && line in old(factory.users) ==>
                && transport.sent == old(transport.sent) + [UsernameTaken]
                && name == None && state == NewUser
                && factory.users == old(factory.users)
                && (forall s :: s in old(factory.Live) && s != this ==> s.transport.sent == old(s.transport.sent))
      ensures old(state) == NewUser && line !in old(factory.users) ==>
                && transport.sent == old(transport.sent) + [NameAccepted]
                && name == Some(line) && state == Chat
                && factory.users == old(factory.users)[line := this]
                && (forall s :: s in old(factory.users.Values) ==>
                      s.transport.sent == old(s.transport.sent) + [JoinLine(line)])
                && (forall s :: s in old(factory.Live) && s != this && s !in old(factory.users.Values) ==>
                      s.transport.sent == old(s.transport.sent))
      ensures forall s :: s in old(factory.Live) && s != this ==> s.name == old(s.name) && s.state == old(s.state)
    {
      if state == NewUser {
        HandleRegister(line);
      } else {
        HandleChat(line);
      }
    }

    /**
     * `connectionLost`: a registered session's entry (and only that one) is
     * deleted and the sessions still registered are told it left; a session
     * that never registered changes nothing and sends nothing.
     */
    method ConnectionLost()
      requires factory.Valid() && this in factory.Live
      modifies factory, factory.UserTransports()
      ensures factory.Valid()
      ensures factory.Live == old(factory.Live) - {this}
      ensures name == None ==>
                && factory.users == old(factory.users)
                && (forall s :: s in old(factory.Live) ==> s.transport.sent == old(s.transport.sent))
      ensures name.Some? ==>
                && name.value in old(factory.users)
                && factory.users == old(factory.users) - {name.value}
                && (forall s :: s in factory.users.Values ==>
                      s.transport.sent == old(s.transport.sent) + [DepartureLine(name.value)])
                && transport.sent == old(transport.sent)
                && (forall s :: s in factory.Live && s !in factory.users.Values ==>
                      s.transport.sent == old(s.transport.sent))
    {
      if name.Some? && name.value in factory.users {
        RegistryLeave(factory, factory.users, factory.Live, factory.Owner, this);
        var n := name.value;
        factory.Live := factory.Live - {this};
        factory.users := factory.users - {n};
        BroadcastMessage(DepartureLine(n));
      } else {
        RegistryUnnamed(factory, factory.users, factory.Live, factory.Owner, this);
        factory.Live := factory.Live - {this};
      }
    }
  }

  /**
   * Once the connection of the session holding `n` is lost, another session
   * still awaiting its name can register `n`: the departure frees the name.
   */
  method RejoinAfterLeave(f: ChatFactory, p: ChatProtocol, q: ChatProtocol) returns (n: string)
    requires f.Valid() && p in f.Live && q in f.Live && p != q
    requires p.factory == f && q.factory == f && p.state == Chat && q.state == NewUser
    modifies f, q, q.transport, f.UserTransports()
    ensures n == old(p.name.value) && n in old(f.users) && old(f.users[n]) == p
    ensures f.Valid() && f.Live == old(f.Live) - {p}
    ensures q.name == Some(n) && q.state == Chat && n in f.users && f.users[n] == q
    ensures q.transport.sent == old(q.transport.sent) + [NameAccepted]
    ensures forall s :: s in f.users.Values && s != q ==>
              s.transport.sent == old(s.transport.sent) + [DepartureLine(n)] + [JoinLine(n)]
  {
    n := p.name.value;
    p.ConnectionLost();
    assert f.UserTransports() <= old(f.UserTransports());
    ghost var between := f.users;
    ghost var mid := map s | s in between.Values :: s.transport.sent;
    q.HandleRegister(n);
    forall s | s in f.users.Values && s != q
      ensures s.transport.sent == old(s.transport.sent) + [DepartureLine(n)] + [JoinLine(n)]
    {
      var k :| k in f.users && f.users[k] == s;
      assert k != n && between[k] == s && s in between.Values;
      assert s.transport.sent == mid[s] + [JoinLine(n)];
    }
  }
}
