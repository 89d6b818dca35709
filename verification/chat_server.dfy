/** The in-memory state of the chat server and its request and socket
    handlers, each a pure transition from one state to the next together
    with the socket events it emits. */
module ChatServer {
  import opened Outcomes
  import opened JsString
  import opened ChannelPolicy
  import opened Presence

  /** A chat message as stored in a channel log and broadcast to the room.
      `timestamp` is the `Date.now()` value at the time of sending. */
  datatype Message = Message(user: string, text: string, channel: string, timestamp: int)

  /** The body of a `send_message` socket event, exactly as the client sent it. */
  datatype Payload = Payload(channel: string, user: string, text: string)

  /** A registered account; `password` holds the bcrypt hash. */
  datatype User = User(username: string, password: string, avatar: string)

  /** Everything the handlers read and write:
      - `channels`: the channel-name list, in creation order;
      - `logs`: the message log of every channel that has a log file;
      - `presence`: the `onlineUsers` object;
      - `rooms`: the socket.io room of every channel name that was joined;
      - `users`: the registered accounts, in registration order. */
  datatype State = State(
    channels: seq<string>,
    logs: map<string, seq<Message>>,
    presence: seq<Entry>,
    rooms: map<string, set<ConnId>>,
    users: seq<User>)

  /** Who a socket event is delivered to. */
  datatype Audience =
    | Only(conn: ConnId)            // socket.emit
    | Everyone                      // io.emit
    | Members(conns: set<ConnId>)   // io.to(room).emit

  /** The socket events the server emits. */
  datatype Event =
    | ChannelsList(names: seq<string>)
    | OnlineUsers(names: seq<string>)
    | ReceiveMessage(msg: Message)
    | NewChannel(name: string)

  datatype Emit = Emit(to: Audience, event: Event)

  /** Why an HTTP request was refused. */
  datatype Error =
    | InvalidChannelName   // 400 on /create-channel
    | ChannelExists        // 409 on /create-channel
    | UserExists           // 400 on /register
    | RegistrationFailed   // 500 on /register, when hashing throws
    | UserNotFound         // 404 on /update-avatar
    | ChannelNotFound      // 404 on /messages/:channel

  datatype Reply = Done | Rejected(error: Error)

  /** The outcome of an HTTP handler. */
  datatype Response = Response(state: State, reply: Reply, emits: seq<Emit>)

  /** The outcome of a socket handler, which sends no reply. */
  datatype Effect = Effect(state: State, emits: seq<Emit>)

  /** The channels a fresh server starts with. */
  const DefaultChannels: seq<string> := ["general", "random", "support"]

  /** The avatar a new account gets: this URL followed by the username. */
  const AvatarBase := "https://api.dicebear.com/7.x/identicon/svg?seed="

  /** The log a send appends to: the stored one, or an empty one when the
      channel has no log file yet. */
  function LogOf(s: State, channel: string): seq<Message> {
    if channel in s.logs then s.logs[channel] else []
  }

  /** The connections in a channel's room; nobody for a room never joined. */
  function RoomOf(s: State, channel: string): set<ConnId> {
    if channel in s.rooms then s.rooms[channel] else {}
  }

  predicate NoDuplicates<T(==)>(xs: seq<T>) {
    forall i, j :: 0 <= i < j < |xs| ==> xs[i] != xs[j]
  }

  predicate IsRegistered(users: seq<User>, username: string) {
    exists i :: 0 <= i < |users| && users[i].username == username
  }

  predicate DistinctUsernames(users: seq<User>) {
    forall i, j :: 0 <= i < j < |users| ==> users[i].username != users[j].username
  }

  /** What every reachable state satisfies:
      - channel names are distinct, valid, in normal form, and each has a log;
      - the presence object has distinct keys;
      - every room member is a connection that has announced a username;
      - usernames of registered accounts are distinct. */
  predicate Valid(s: State) {
    && NoDuplicates(s.channels)
    && (forall i :: 0 <= i < |s.channels| ==> s.channels[i] in s.logs)
    && (forall i :: 0 <= i < |s.channels| ==> ValidName(s.channels[i]) && IsNormal(s.channels[i]))
    && KeysDistinct(s.presence)
    && (forall ch, c :: ch in s.rooms && c in s.rooms[ch] ==> Find(s.presence, c).Some?)
    && DistinctUsernames(s.users)
  }

  /** A short name of lower-case ASCII letters is valid and in normal form. */
  lemma LowerLettersNormal(name: string)
    requires 0 < |name| <= MaxNameLength
    requires forall k :: 0 <= k < |name| ==> 'a' <= name[k] <= 'z'
    ensures ValidName(name) && IsNormal(name)
  {
    assert forall k :: 0 <= k < |name| ==> name[k] as int <= 0xFFFF && !IsUpper(name[k]);
    Utf16LengthBounds(name);
    assert ' ' !in name by {
      forall k | 0 <= k < |name| ensures name[k] != ' ' { }
    }
    assert !IsTrimmable(name[0]) && !IsTrimmable(name[|name| - 1]);
  }

  lemma DefaultNameValid(i: int)
    requires 0 <= i < |DefaultChannels|
    ensures ValidName(DefaultChannels[i]) && IsNormal(DefaultChannels[i])
  {
    LowerLettersNormal(DefaultChannels[i]);
  }

  lemma DefaultsDistinct()
    ensures NoDuplicates(DefaultChannels)
  {
    var d := DefaultChannels;
    assert d[0][0] != d[1][0] && d[0][0] != d[2][0] && d[1][0] != d[2][0];
  }

  lemma DefaultsValid()
    ensures forall i :: 0 <= i < |DefaultChannels| ==>
      ValidName(DefaultChannels[i]) && IsNormal(DefaultChannels[i])
  {
    var d := DefaultChannels;
    forall i | 0 <= i < |d| ensures ValidName(d[i]) && IsNormal(d[i]) {
      DefaultNameValid(i);
    }
  }

  /** A fresh server: the three default channels with empty logs, nobody
      online, no room joined and no account. */
  function Init(): (s: State)
    ensures s.channels == DefaultChannels
    ensures forall ch :: ch in DefaultChannels ==> ch in s.logs && s.logs[ch] == []
    ensures s.presence == [] && s.rooms == map[] && s.users == []
  {
    State(DefaultChannels, map ch | ch in DefaultChannels :: [], [], map[], [])
  }

  /** The fresh server satisfies the invariant. */
  lemma InitValid()
    ensures Valid(Init())
  {
    DefaultsDistinct();
    DefaultsValid();
  }

  /** `/create-channel`: the requested name (absent when the body has no
      `channel` field) is lower-cased and trimmed; an invalid result is
      refused, then an existing one; otherwise the name is appended to the
      list, its log is set to empty and every client is told. */
  function CreateChannel(s: State, raw: Option<string>): (r: Response)
    ensures r.reply == Rejected(InvalidChannelName) <==> raw.None? || !ValidName(Normalize(raw.value))
    ensures r.reply == Rejected(ChannelExists)
      <==> raw.Some? && ValidName(Normalize(raw.value)) && Normalize(raw.value) in s.channels
    ensures r.reply.Rejected? ==> r.reply.error in {InvalidChannelName, ChannelExists}
    ensures r.reply.Rejected? ==> r.state == s && r.emits == []
    ensures r.reply.Done? ==>
      var name := Normalize(raw.value);
      && r.state.channels == s.channels + [name]
      && r.state.logs == s.logs[name := []]
      && r.state.presence == s.presence && r.state.rooms == s.rooms && r.state.users == s.users
      && r.emits == [Emit(Everyone, NewChannel(name))]
  {
    match raw
    case None => Response(s, Rejected(InvalidChannelName), [])
    case Some(text) =>
      var name := Normalize(text);
      if !ValidName(name) then Response(s, Rejected(InvalidChannelName), [])
      else if name in s.channels then Response(s, Rejected(ChannelExists), [])
      else
        Response(s.(channels := s.channels + [name], logs := s.logs[name := []]),
                 Done, [Emit(Everyone, NewChannel(name))])
  }

  /** The index of the first account with this username, as `users.find` picks it. */
  function FindUser(users: seq<User>, username: string): (r: Option<nat>)
    ensures r.None? <==> !IsRegistered(users, username)
    ensures r.Some? ==> r.value < |users| && users[r.value].username == username
    ensures r.Some? ==> forall j :: 0 <= j < r.value ==> users[j].username != username
  {
    if |users| == 0 then None
    else if users[0].username == username then Some(0)
    else match FindUser(users[1..], username)
      case None => None
      case Some(i) => Some(i + 1)
  }

  /** `/register`: a taken username is refused; otherwise the password is
      hashed (`hashed` is the hash, absent when hashing throws) and the
      account is appended with its default avatar. */
  function Register(s: State, username: string, hashed: Option<string>): (r: Response)
    ensures r.reply == Rejected(UserExists) <==> IsRegistered(s.users, username)
    ensures r.reply == Rejected(RegistrationFailed) <==> !IsRegistered(s.users, username) && hashed.None?
    ensures r.reply.Rejected? ==> r.reply.error in {UserExists, RegistrationFailed} && r.state == s
    ensures r.state.channels == s.channels && r.state.logs == s.logs
    ensures r.state.presence == s.presence && r.state.rooms == s.rooms
    ensures r.reply.Done? ==> r.state.users == s.users + [User(username, hashed.value, AvatarBase + username)]
    ensures r.emits == []
  {
    if FindUser(s.users, username).Some? then Response(s, Rejected(UserExists), [])
    else
      match hashed
      case None => Response(s, Rejected(RegistrationFailed), [])
      case Some(h) =>
        Response(s.(users := s.users + [User(username, h, AvatarBase + username)]), Done, [])
  }

  /** `/update-avatar`: an unknown username is refused; otherwise the first
      account with that name gets the new avatar. With distinct usernames that
      is exactly the accounts named `username`; nothing else changes. */
  function UpdateAvatar(s: State, username: string, avatar: string): (r: Response)
    ensures r.reply.Rejected? <==> !IsRegistered(s.users, username)
    ensures r.reply.Rejected? ==> r.reply.error == UserNotFound && r.state == s
    ensures r.state.channels == s.channels && r.state.logs == s.logs
    ensures r.state.presence == s.presence && r.state.rooms == s.rooms
    ensures |r.state.users| == |s.users|
    ensures forall i :: 0 <= i < |s.users| ==>
      r.state.users[i].(avatar := s.users[i].avatar) == s.users[i]
    ensures DistinctUsernames(s.users) ==> forall i :: 0 <= i < |s.users| ==>
      r.state.users[i].avatar == (if s.users[i].username == username then avatar else s.users[i].avatar)
    ensures r.emits == []
  {
    match FindUser(s.users, username)
    case None => Response(s, Rejected(UserNotFound), [])
    case Some(i) =>
      Response(s.(users := s.users[i := s.users[i].(avatar := avatar)]), Done, [])
  }

  /** `GET /messages/:channel`: the channel's log, or not found when it has
      no log file. */
  function ReadLog(s: State, channel: string): (r: Result<seq<Message>, Error>)
    ensures r.Ok? <==> channel in s.logs
    ensures r.Ok? ==> r.value == LogOf(s, channel)
    ensures r.Err? ==> r.error == ChannelNotFound && LogOf(s, channel) == []
  {
    if channel in s.logs then Ok(s.logs[channel]) else Err(ChannelNotFound)
  }

  /** `connection`: the new socket is sent the channel list; no state changes. */
  function Connect(s: State, conn: ConnId): (r: Effect)
    ensures r.state == s
    ensures r.emits == [Emit(Only(conn), ChannelsList(s.channels))]
  {
    Effect(s, [Emit(Only(conn), ChannelsList(s.channels))])
  }

  /** `user_connected`: the connection's username is set or overwritten,
      and everyone is sent the names of all online connections. */
  function Identify(s: State, conn: ConnId, username: string): (r: Effect)
    ensures Find(r.state.presence, conn) == Some(username)
    ensures forall d :: d != conn ==> Find(r.state.presence, d) == Find(s.presence, d)
    ensures r.state.channels == s.channels && r.state.logs == s.logs
    ensures r.state.rooms == s.rooms && r.state.users == s.users
    ensures r.emits == [Emit(Everyone, OnlineUsers(Online(r.state.presence)))]
  {
    var presence := Put(s.presence, conn, username);
    Effect(s.(presence := presence), [Emit(Everyone, OnlineUsers(Online(presence)))])
  }

  /** Whether `join_channel` lets `conn` into `channel`: it has announced a
      non-empty username that the channel's access rule admits. */
  predicate Admitted(s: State, conn: ConnId, channel: string) {
    Find(s.presence, conn).Some? && MayJoin(Find(s.presence, conn).value, channel)
  }

  /** `join_channel`: an admitted connection is added to the channel's room;
      anything else is silently ignored. The channel need not be listed. */
  function Join(s: State, conn: ConnId, channel: string): (r: Effect)
    ensures !Admitted(s, conn, channel) ==> r.state == s
    ensures Admitted(s, conn, channel) ==> RoomOf(r.state, channel) == RoomOf(s, channel) + {conn}
    ensures forall ch :: ch != channel ==> RoomOf(r.state, ch) == RoomOf(s, ch)
    ensures r.state.channels == s.channels && r.state.logs == s.logs
    ensures r.state.presence == s.presence && r.state.users == s.users
    ensures r.emits == []
  {
    if Admitted(s, conn, channel) then
      Effect(s.(rooms := s.rooms[channel := RoomOf(s, channel) + {conn}]), [])
    else
      Effect(s, [])
  }

  /** The message `send_message` stores and broadcasts: the client's fields
      and the server's clock. */
  function MessageOf(data: Payload, now: int): (m: Message)
    ensures m.user == data.user && m.text == data.text && m.channel == data.channel
    ensures m.timestamp == now
  {
    Message(data.user, data.text, data.channel, now)
  }

  /** `send_message`: the message is appended to the channel's log (a new
      log when there was none) and delivered to the channel's room as it
      stands. The sending connection is not consulted: neither its username
      nor its room membership is checked, and the author is the client's
      `user` field. */
  function Send(s: State, data: Payload, now: int): (r: Effect)
    ensures LogOf(r.state, data.channel) == LogOf(s, data.channel) + [MessageOf(data, now)]
    ensures forall ch :: ch != data.channel ==> LogOf(r.state, ch) == LogOf(s, ch)
    ensures r.state.logs.Keys == s.logs.Keys + {data.channel}
    ensures r.state.channels == s.channels && r.state.presence == s.presence
    ensures r.state.rooms == s.rooms && r.state.users == s.users
    ensures r.emits == [Emit(Members(RoomOf(s, data.channel)), ReceiveMessage(MessageOf(data, now)))]
  {
    var msg := MessageOf(data, now);
    Effect(s.(logs := s.logs[data.channel := LogOf(s, data.channel) + [msg]]),
           [Emit(Members(RoomOf(s, data.channel)), ReceiveMessage(msg))])
  }

  /** `disconnect`: the connection's username is deleted and everyone is
      sent the remaining online names. The connection also leaves every
      room; that part is socket.io's own bookkeeping, assumed here. */
  function Disconnect(s: State, conn: ConnId): (r: Effect)
    ensures Find(r.state.presence, conn).None?
    ensures forall d :: d != conn ==> Find(r.state.presence, d) == Find(s.presence, d)
    ensures Find(s.presence, conn).None? ==> r.state.presence == s.presence
    ensures forall ch :: conn !in RoomOf(r.state, ch)
    ensures forall ch, d :: d != conn ==> (d in RoomOf(r.state, ch) <==> d in RoomOf(s, ch))
    ensures r.state.channels == s.channels && r.state.logs == s.logs && r.state.users == s.users
    ensures r.emits == [Emit(Everyone, OnlineUsers(Online(r.state.presence)))]
  {
    var presence := Remove(s.presence, conn);
    var rooms := map ch | ch in s.rooms :: s.rooms[ch] - {conn};
    Effect(s.(presence := presence, rooms := rooms), [Emit(Everyone, OnlineUsers(Online(presence)))])
  }

  /** Each handler keeps the invariant. */
  lemma CreateChannelPreservesValid(s: State, raw: Option<string>)
    requires Valid(s)
    ensures Valid(CreateChannel(s, raw).state)
  {
    if raw.Some? {
      NormalizeIsNormal(raw.value);
    }
  }

  lemma RegisterPreservesValid(s: State, username: string, hashed: Option<string>)
    requires Valid(s)
    ensures Valid(Register(s, username, hashed).state)
  {
  }

  lemma UpdateAvatarPreservesValid(s: State, username: string, avatar: string)
    requires Valid(s)
    ensures Valid(UpdateAvatar(s, username, avatar).state)
  {
  }

  lemma IdentifyPreservesValid(s: State, conn: ConnId, username: string)
    requires Valid(s)
    ensures Valid(Identify(s, conn, username).state)
  {
    PutKeepsDistinct(s.presence, conn, username);
    var r := Identify(s, conn, username).state;
    forall ch, c | ch in r.rooms && c in r.rooms[ch] ensures Find(r.presence, c).Some? {
      if c != conn {
        assert Find(r.presence, c) == Find(s.presence, c);
      }
    }
  }

  lemma JoinPreservesValid(s: State, conn: ConnId, channel: string)
    requires Valid(s)
    ensures Valid(Join(s, conn, channel).state)
  {
  }

  lemma SendPreservesValid(s: State, data: Payload, now: int)
    requires Valid(s)
    ensures Valid(Send(s, data, now).state)
  {
  }

  lemma DisconnectPreservesValid(s: State, conn: ConnId)
    requires Valid(s)
    ensures Valid(Disconnect(s, conn).state)
  {
  }
}
