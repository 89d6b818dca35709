/** The server as a transition system: every HTTP request and socket event
    is one input, applied to the state in arrival order. Each handler runs to
    completion before the next input, which is how the server's event loop
    runs them (registration excepted; see the README). */
module ServerRuns {
  import opened Outcomes
  import opened ChannelPolicy
  import opened Presence
  import opened ChatServer

  /** One input to the server. */
  datatype Input =
    | Connection(conn: ConnId)
    | UserConnected(conn: ConnId, username: string)
    | JoinChannel(conn: ConnId, channel: string)
    | SendMessage(conn: ConnId, data: Payload, now: int)
    | Disconnected(conn: ConnId)
    | PostCreateChannel(raw: Option<string>)
    | PostRegister(username: string, hashed: Option<string>)
    | PatchAvatar(username: string, avatar: string)

  /** The connection a socket event comes from; HTTP requests come from none. */
  predicate RaisedBy(e: Input, c: ConnId) {
    match e
    case Connection(d) => d == c
    case UserConnected(d, _) => d == c
    case JoinChannel(d, _) => d == c
    case SendMessage(d, _, _) => d == c
    case Disconnected(d) => d == c
    case _ => false
  }

  /** One input handled. No handler removes or reorders a channel, and none
      deletes a log. */
  function Apply(s: State, e: Input): (r: Effect)
    ensures s.channels <= r.state.channels
    ensures s.logs.Keys <= r.state.logs.Keys
  {
    match e
    case Connection(c) => Connect(s, c)
    case UserConnected(c, name) => Identify(s, c, name)
    case JoinChannel(c, ch) => Join(s, c, ch)
    case SendMessage(_, data, now) => Send(s, data, now)
    case Disconnected(c) => Disconnect(s, c)
    case PostCreateChannel(raw) =>
      var resp := CreateChannel(s, raw); Effect(resp.state, resp.emits)
    case PostRegister(name, hashed) =>
      var resp := Register(s, name, hashed); Effect(resp.state, resp.emits)
    case PatchAvatar(name, avatar) =>
      var resp := UpdateAvatar(s, name, avatar); Effect(resp.state, resp.emits)
  }

  /** The state after handling the inputs in order; the channel list only
      grows, at its end. */
  function Run(s: State, es: seq<Input>): (r: State)
    ensures s.channels <= r.channels
    decreases |es|
  {
    if |es| == 0 then s else Run(Apply(s, es[0]).state, es[1..])
  }

  /** Every socket event emitted while handling the inputs, in order. */
  function RunEmits(s: State, es: seq<Input>): seq<Emit>
    decreases |es|
  {
    if |es| == 0 then []
    else Apply(s, es[0]).emits + RunEmits(Apply(s, es[0]).state, es[1..])
  }

  /** Every handler keeps the invariant. */
  lemma ApplyPreservesValid(s: State, e: Input)
    requires Valid(s)
    ensures Valid(Apply(s, e).state)
  {
    match e
    case Connection(c) =>
    case UserConnected(c, name) => IdentifyPreservesValid(s, c, name);
    case JoinChannel(c, ch) => JoinPreservesValid(s, c, ch);
    case SendMessage(_, data, now) => SendPreservesValid(s, data, now);
    case Disconnected(c) => DisconnectPreservesValid(s, c);
    case PostCreateChannel(raw) => CreateChannelPreservesValid(s, raw);
    case PostRegister(name, hashed) => RegisterPreservesValid(s, name, hashed);
    case PatchAvatar(name, avatar) => UpdateAvatarPreservesValid(s, name, avatar);
  }

  lemma {:induction false} RunPreservesValid(s: State, es: seq<Input>)
    requires Valid(s)
    ensures Valid(Run(s, es))
    decreases |es|
  {
    if |es| > 0 {
      ApplyPreservesValid(s, es[0]);
      RunPreservesValid(Apply(s, es[0]).state, es[1..]);
    }
  }

  /** Every state reached from a fresh server satisfies the invariant: in
      particular channel names stay distinct and registered usernames stay
      distinct. */
  lemma ReachableValid(es: seq<Input>)
    ensures Valid(Run(Init(), es))
  {
    InitValid();
    RunPreservesValid(Init(), es);
  }

  /** The messages the inputs send to `channel`, in input order. */
  function SentTo(es: seq<Input>, channel: string): seq<Message>
    decreases |es|
  {
    if |es| == 0 then []
    else
      (if es[0].SendMessage? && es[0].data.channel == channel
       then [MessageOf(es[0].data, es[0].now)] else [])
      + SentTo(es[1..], channel)
  }

  lemma SentToOne(e: Input, channel: string)
    ensures SentTo([e], channel)
      == if e.SendMessage? && e.data.channel == channel then [MessageOf(e.data, e.now)] else []
  {
    assert [e][1..] == [];
  }

  /** One input changes a listed channel's log only by appending the
      message it sends there. */
  lemma ApplyLog(s: State, e: Input, channel: string)
    requires channel in s.channels
    ensures LogOf(Apply(s, e).state, channel) == LogOf(s, channel) + SentTo([e], channel)
  {
    SentToOne(e, channel);
    match e {
      case SendMessage(_, data, now) =>
      case PostCreateChannel(raw) =>
        var resp := CreateChannel(s, raw);
        if resp.reply.Done? {
          assert Normalize(raw.value) != channel;
        }
      case PostRegister(name, hashed) =>
      case PatchAvatar(name, avatar) =>
      case _ =>
    }
  }

  /** The log of a listed channel, read after any inputs, is the log before
      them followed by exactly the messages those inputs sent to it, in
      order: nothing lost, nothing added, nothing reordered, whatever else
      happens in between. */
  lemma {:induction false} LogIsAppendOnly(s: State, es: seq<Input>, channel: string)
    requires channel in s.channels && channel in s.logs
    ensures ReadLog(Run(s, es), channel) == Ok(LogOf(s, channel) + SentTo(es, channel))
    decreases |es|
  {
    if |es| > 0 {
      var next := Apply(s, es[0]).state;
      ApplyLog(s, es[0], channel);
      assert channel in next.channels && channel in next.logs;
      LogIsAppendOnly(next, es[1..], channel);
      assert Run(s, es) == Run(next, es[1..]);
      SentToOne(es[0], channel);
      assert SentTo(es, channel) == SentTo([es[0]], channel) + SentTo(es[1..], channel);
      assert LogOf(s, channel) + SentTo(es, channel)
          == LogOf(next, channel) + SentTo(es[1..], channel);
    } else {
      assert Run(s, es) == s;
      assert LogOf(s, channel) + SentTo(es, channel) == LogOf(s, channel);
    }
  }

  /** A connection that is neither online nor in any room. */
  predicate Gone(s: State, c: ConnId) {
    Find(s.presence, c).None? && forall ch :: ch in s.rooms ==> c !in s.rooms[ch]
  }

  /** No emitted event is addressed to `c`, neither directly nor through a
      room. */
  predicate NothingFor(emits: seq<Emit>, c: ConnId) {
    forall i :: 0 <= i < |emits| ==>
      emits[i].to != Only(c) && (emits[i].to.Members? ==> c !in emits[i].to.conns)
  }

  lemma NothingForConcat(a: seq<Emit>, b: seq<Emit>, c: ConnId)
    requires NothingFor(a, c) && NothingFor(b, c)
    ensures NothingFor(a + b, c)
  {
    forall i | 0 <= i < |a + b|
      ensures (a + b)[i].to != Only(c)
      ensures (a + b)[i].to.Members? ==> c !in (a + b)[i].to.conns
    {
      if i >= |a| {
        assert (a + b)[i] == b[i - |a|];
      }
    }
  }

  /** A gone connection stays gone, and is sent nothing, while the inputs
      come from other connections or over HTTP. */
  lemma ApplyKeepsGone(s: State, e: Input, c: ConnId)
    requires Gone(s, c) && !RaisedBy(e, c)
    ensures Gone(Apply(s, e).state, c)
    ensures NothingFor(Apply(s, e).emits, c)
  {
  }

  lemma {:induction false} RunKeepsGone(s: State, es: seq<Input>, c: ConnId)
    requires Gone(s, c)
    requires forall i :: 0 <= i < |es| ==> !RaisedBy(es[i], c)
    ensures NothingFor(RunEmits(s, es), c)
    decreases |es|
  {
    if |es| > 0 {
      ApplyKeepsGone(s, es[0], c);
      RunKeepsGone(Apply(s, es[0]).state, es[1..], c);
      NothingForConcat(Apply(s, es[0]).emits, RunEmits(Apply(s, es[0]).state, es[1..]), c);
    }
  }

  /** Once a connection has disconnected, no later message, channel list or
      other targeted event is addressed to it. */
  lemma DisconnectedNeverReceives(s: State, c: ConnId, es: seq<Input>)
    requires forall i :: 0 <= i < |es| ==> !RaisedBy(es[i], c)
    ensures NothingFor(RunEmits(Disconnect(s, c).state, es), c)
  {
    RunKeepsGone(Disconnect(s, c).state, es, c);
  }

  /** Disconnecting a connection that never announced a username changes
      no state. */
  lemma DisconnectUnknownIsNoop(s: State, c: ConnId)
    requires Valid(s) && Find(s.presence, c).None?
    ensures Disconnect(s, c).state == s
  {
    var r := Disconnect(s, c).state;
    assert r.rooms.Keys == s.rooms.Keys;
    forall ch | ch in s.rooms ensures r.rooms[ch] == s.rooms[ch] {
      assert c !in s.rooms[ch];
    }
  }

  /** A connection that announces itself and then disconnects leaves the
      online object, and so the online list everyone is sent, as before. */
  lemma IdentifyThenDisconnect(s: State, c: ConnId, name: string)
    requires Find(s.presence, c).None?
    ensures Disconnect(Identify(s, c, name).state, c).state.presence == s.presence
    ensures Disconnect(Identify(s, c, name).state, c).emits
         == [Emit(Everyone, OnlineUsers(Online(s.presence)))]
  {
    RemovePutFresh(s.presence, c, name);
  }

  /** Asking twice for the same channel: if the first request creates it,
      the second is refused as existing and changes nothing. */
  lemma CreateTwiceRefused(s: State, raw: Option<string>)
    requires CreateChannel(s, raw).reply.Done?
    ensures var t := CreateChannel(s, raw).state;
      && CreateChannel(t, raw).reply == Rejected(ChannelExists)
      && CreateChannel(t, raw).state == t
  {
    var t := CreateChannel(s, raw).state;
    assert t.channels[|s.channels|] == Normalize(raw.value);
  }

  /** The channel list a new connection is sent, at any point of a run from
      a valid state, holds every channel listed at the start, in the same
      order, and no name twice. */
  lemma ConnectAfterRun(s: State, es: seq<Input>, c: ConnId)
    requires Valid(s)
    ensures var sent := Connect(Run(s, es), c).emits[0].event.names;
      && s.channels <= sent
      && NoDuplicates(sent)
  {
    RunPreservesValid(s, es);
  }

  /** `send_message` does not look at who sends: the same payload at the same
      time has the same effect from any connection. */
  lemma SendIgnoresSender(s: State, c1: ConnId, c2: ConnId, data: Payload, now: int)
    ensures Apply(s, SendMessage(c1, data, now)) == Apply(s, SendMessage(c2, data, now))
  {
  }

  /** Joining twice is joining once. */
  lemma JoinIdempotent(s: State, c: ConnId, channel: string)
    ensures Join(Join(s, c, channel).state, c, channel).state == Join(s, c, channel).state
  {
  }

  /** Registering a username succeeds at most once in a sequential run: the
      second registration of the same name is refused. */
  lemma RegisterTwiceRefused(s: State, username: string, h1: Option<string>, h2: Option<string>)
    requires Register(s, username, h1).reply.Done?
    ensures Register(Register(s, username, h1).state, username, h2).reply == Rejected(UserExists)
  {
    var users := Register(s, username, h1).state.users;
    assert users[|users| - 1].username == username;
  }
}
