/** Concrete runs of the server: the create-channel outcomes for sample
    names, and a two-user conversation in `general`. */
module Scenarios {
  import opened Outcomes
  import opened JsString
  import opened ChannelPolicy
  import opened Presence
  import opened ChatServer
  import opened ServerRuns

  lemma NormalizeGeneral()
    ensures Normalize("General") == "general"
  {
    assert ToLower("General") == "general";
    assert "" + "general" + "" == "general";
    TrimOfPadded("", "general", "");
  }

  /** A name with an inner space is refused on any server. */
  lemma CreateMyChannelRejected(s: State)
    ensures CreateChannel(s, Some("My Channel")).reply == Rejected(InvalidChannelName)
  {
    InnerSpaceRejected("My Channel", 2);
  }

  /** A blank name and a missing name are refused on any server. */
  lemma CreateBlankRejected(s: State)
    ensures CreateChannel(s, Some("  ")).reply == Rejected(InvalidChannelName)
    ensures CreateChannel(s, None).reply == Rejected(InvalidChannelName)
  {
    BlankRejected("  ");
  }

  /** A listed name asked for in another letter case already exists. */
  lemma CreateGeneralExists(s: State)
    requires "general" in s.channels
    ensures CreateChannel(s, Some("General")).reply == Rejected(ChannelExists)
  {
    NormalizeGeneral();
    LowerLettersNormal("general");
  }

  lemma NormalizePaddedNews()
    ensures Normalize(" NEWS\t") == "news"
  {
    assert ToLower(" NEWS\t") == " news\t";
    assert " " + "news" + "\t" == " news\t";
    TrimOfPadded(" ", "news", "\t");
  }

  lemma CreateChannelThenDuplicate(s: State)
    requires "news" !in s.channels
    ensures var r := CreateChannel(s, Some(" NEWS\t"));
      && r.reply == Done
      && r.state.channels == s.channels + ["news"]
      && ReadLog(r.state, "news") == Ok([])
      && r.emits == [Emit(Everyone, NewChannel("news"))]
      && CreateChannel(r.state, Some("news")).reply == Rejected(ChannelExists)
  {
    NormalizePaddedNews();
    LowerLettersNormal("news");
    NormalFormIsFixed("news");
    var r := CreateChannel(s, Some(" NEWS\t"));
    assert r.state.channels[|s.channels|] == "news";
  }

  /** A user who announces a non-empty name and then joins a public channel
      is added to its room; the logs are untouched. */
  lemma AnnounceThenJoin(s: State, c: ConnId, name: string, ch: string)
    requires name != "" && !IsDirect(ch)
    ensures var t := Join(Identify(s, c, name).state, c, ch).state;
      && RoomOf(t, ch) == RoomOf(s, ch) + {c}
      && t.logs == s.logs
  {
    AnnouncedAdmitted(s, c, name, ch);
  }

  /** Any non-empty announced name may enter any channel that is not a
      direct one. */
  lemma AnnouncedAdmitted(s: State, c: ConnId, name: string, ch: string)
    requires name != "" && !IsDirect(ch)
    ensures Admitted(Identify(s, c, name).state, c, ch)
  {
  }

  /** Two users on connections `c1` and `c2` announce themselves, both join
      a public channel whose log and room are empty, and the first sends a
      text. Both connections are sent the message, and the channel's log
      holds exactly that message, with the author the client named. */
  lemma ConversationInPublicChannel(s: State, c1: ConnId, c2: ConnId, alice: string, bob: string,
                                    ch: string, text: string, now: int)
    requires c1 != c2 && alice != "" && bob != ""
    requires !IsDirect(ch) && ch in s.logs && LogOf(s, ch) == [] && RoomOf(s, ch) == {}
    ensures var s2 := Join(Identify(s, c1, alice).state, c1, ch).state;
      var s4 := Join(Identify(s2, c2, bob).state, c2, ch).state;
      var r := Send(s4, Payload(ch, alice, text), now);
      && r.emits == [Emit(Members({c1, c2}), ReceiveMessage(Message(alice, text, ch, now)))]
      && ReadLog(r.state, ch) == Ok([Message(alice, text, ch, now)])
  {
    AnnounceThenJoin(s, c1, alice, ch);
    var s2 := Join(Identify(s, c1, alice).state, c1, ch).state;
    AnnounceThenJoin(s2, c2, bob, ch);
    var s4 := Join(Identify(s2, c2, bob).state, c2, ch).state;
    SendToFreshRoom(s4, {c1, c2}, Payload(ch, alice, text), now);
  }

  /** A message sent to a channel with an empty log reaches exactly the
      room and becomes the whole log. */
  lemma SendToFreshRoom(s: State, room: set<ConnId>, data: Payload, now: int)
    requires RoomOf(s, data.channel) == room && LogOf(s, data.channel) == []
    ensures var r := Send(s, data, now);
      && r.emits == [Emit(Members(room), ReceiveMessage(Message(data.user, data.text, data.channel, now)))]
      && ReadLog(r.state, data.channel) == Ok([Message(data.user, data.text, data.channel, now)])
  {
    var r := Send(s, data, now);
    assert data.channel in r.state.logs.Keys;
    var msg := Message(data.user, data.text, data.channel, now);
    assert MessageOf(data, now) == msg;
    assert LogOf(r.state, data.channel) == [] + [msg];
    assert ReadLog(r.state, data.channel).value == [msg];
  }

  /** The same conversation in `general` on a fresh server. */
  lemma ConversationInGeneral(c1: ConnId, c2: ConnId, now: int)
    requires c1 != c2
    ensures var s2 := Join(Identify(Init(), c1, "alice").state, c1, "general").state;
      var s4 := Join(Identify(s2, c2, "bob").state, c2, "general").state;
      var r := Send(s4, Payload("general", "alice", "hi"), now);
      && r.emits == [Emit(Members({c1, c2}), ReceiveMessage(Message("alice", "hi", "general", now)))]
      && ReadLog(r.state, "general") == Ok([Message("alice", "hi", "general", now)])
  {
    assert !IsDirect("general") by { assert "general"[..3][0] == 'g'; }
    assert "general" in DefaultChannels;
    ConversationInPublicChannel(Init(), c1, c2, "alice", "bob", "general", "hi", now);
  }

  /** Two connections announcing the same username make it appear twice in
      the online list everyone is sent. */
  lemma SameUserOnTwoConnections(s: State, c1: ConnId, c2: ConnId, name: string)
    requires c1 != c2
    ensures var r := Identify(Identify(s, c1, name).state, c2, name);
      && r.emits[0].to == Everyone
      && r.emits[0].event.OnlineUsers?
      && exists i, j :: 0 <= i < j < |r.emits[0].event.names|
           && r.emits[0].event.names[i] == name && r.emits[0].event.names[j] == name
  {
    SameNameListedTwice(s.presence, c1, c2, name);
  }
}
