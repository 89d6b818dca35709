/** Channel names: how a requested name is normalised and validated before a
    channel is created, and which identified users may join a direct
    (`dm-`) channel. */
module ChannelPolicy {
  import opened JsString

  /** Longest accepted channel name, in UTF-16 code units. */
  const MaxNameLength := 32

  /** Names with this prefix are direct channels between two users. */
  const DirectPrefix := "dm-"

  /** The name a creation request is turned into: lower-cased, then trimmed. */
  function Normalize(raw: string): string {
    Trim(ToLower(raw))
  }

  /** The create-channel guard: a non-empty name without the space character
      and at most `MaxNameLength` code units long. Other white space inside
      the name (a tab, say) is accepted. */
  predicate ValidName(name: string) {
    |name| > 0 && ' ' !in name && Utf16Length(name) <= MaxNameLength
  }

  /** A name is in normal form when it holds no ASCII capital and has no
      trimmable character at either end. */
  predicate IsNormal(name: string) {
    && (forall i :: 0 <= i < |name| ==> !IsUpper(name[i]))
    && (|name| > 0 ==> !IsTrimmable(name[0]) && !IsTrimmable(name[|name| - 1]))
  }

  /** Normalising always yields a name in normal form. */
  lemma NormalizeIsNormal(raw: string)
    ensures IsNormal(Normalize(raw))
  {
    var n := Normalize(raw);
    ToLowerChars(raw);
    TrimSpec(ToLower(raw));
    forall i | 0 <= i < |n| ensures !IsUpper(n[i]) {
      assert n[i] in n;
    }
  }

  /** Normalising a name in normal form changes nothing. */
  lemma NormalFormIsFixed(name: string)
    requires IsNormal(name)
    ensures Normalize(name) == name
  {
    ToLowerOfLower(name);
    assert "" + name + "" == name;
    TrimOfPadded("", name, "");
  }

  /** Normalising twice is normalising once, so a stored channel name is
      exactly what a request for it normalises to. */
  lemma NormalizeIdempotent(raw: string)
    ensures Normalize(Normalize(raw)) == Normalize(raw)
  {
    NormalizeIsNormal(raw);
    NormalFormIsFixed(Normalize(raw));
  }

  /** A lower-cased character is trimmable exactly when the original is. */
  lemma LowerKeepsTrimmable(s: string, i: int)
    requires 0 <= i < |s|
    ensures IsTrimmable(ToLower(s)[i]) <==> IsTrimmable(s[i])
  {
    ToLowerChars(s);
    if IsUpper(s[i]) {
      assert 'a' as int <= ToLower(s)[i] as int <= 'z' as int;
    }
  }

  /** A requested name with a space between two characters that are not
      trimmable is refused, whatever its letter case. */
  lemma InnerSpaceRejected(raw: string, i: int)
    requires 0 < i < |raw| - 1 && raw[i] == ' '
    requires !IsTrimmable(raw[0]) && !IsTrimmable(raw[|raw| - 1])
    ensures ' ' in Normalize(raw) && !ValidName(Normalize(raw))
  {
    var lowered := ToLower(raw);
    assert lowered[i] == ' ' by { ToLowerChars(raw); }
    LowerKeepsTrimmable(raw, 0);
    LowerKeepsTrimmable(raw, |raw| - 1);
    assert "" + lowered + "" == lowered;
    TrimOfPadded("", lowered, "");
  }

  /** A requested name made only of trimmable characters normalises to the
      empty name and is refused. */
  lemma BlankRejected(raw: string)
    requires AllTrimmable(raw)
    ensures Normalize(raw) == "" && !ValidName(Normalize(raw))
  {
    assert forall i :: 0 <= i < |raw| ==> !IsUpper(raw[i]);
    ToLowerOfLower(raw);
    assert raw + "" + "" == raw;
    TrimOfPadded(raw, "", "");
  }

  predicate IsDirect(channel: string) {
    StartsWith(channel, DirectPrefix)
  }

  /** The direct-channel rule as the server applies it: split the name on
      `-` and admit the user named by the second or the third segment. A
      missing third segment admits nobody by itself, and segments after the
      third are ignored. */
  predicate DirectAdmits(username: string, channel: string) {
    var segments := Split(channel, '-');
    (|segments| > 1 && segments[1] == username)
    || (|segments| > 2 && segments[2] == username)
  }

  /** The join gate for a connection identified as `username`: the name is
      not empty, and a direct channel admits it. */
  predicate MayJoin(username: string, channel: string) {
    username != "" && (IsDirect(channel) ==> DirectAdmits(username, channel))
  }

  /** `dm-A-B` admits exactly A and B when neither contains `-`. */
  lemma DirectPairAdmission(username: string, a: string, b: string)
    requires '-' !in a && '-' !in b
    ensures DirectAdmits(username, "dm-" + a + "-" + b) <==> username == a || username == b
  {
    assert ["dm", a, b][1..] == [a, b] && [a, b][1..] == [b];
    assert JoinWith([a, b], '-') == a + ['-'] + b;
    assert "dm-" + a + "-" + b == JoinWith(["dm", a, b], '-');
    SplitJoin(["dm", a, b], '-');
  }

  /** Segments after the third never matter: `dm-A-B-rest` admits exactly A
      and B, whatever `rest` is. */
  lemma DirectExtraSegmentsIgnored(username: string, a: string, b: string, rest: string)
    requires '-' !in a && '-' !in b
    ensures DirectAdmits(username, "dm-" + a + "-" + b + "-" + rest) <==> username == a || username == b
  {
    var tail := Split(rest, '-');
    assert "dm-" + a + "-" + b + "-" + rest == "dm" + ['-'] + (a + ['-'] + (b + ['-'] + rest));
    SplitAfterSegment(b, rest, '-');
    SplitAfterSegment(a, b + ['-'] + rest, '-');
    SplitAfterSegment("dm", a + ['-'] + (b + ['-'] + rest), '-');
    assert Split("dm-" + a + "-" + b + "-" + rest, '-') == ["dm", a, b] + tail;
  }

  /** A two-segment name `dm-A` admits exactly A: the missing third segment
      does not deny access. */
  lemma DirectSingleSegment(username: string, a: string)
    requires '-' !in a
    ensures DirectAdmits(username, "dm-" + a) <==> username == a
  {
    assert "dm-" + a == JoinWith(["dm", a], '-');
    SplitJoin(["dm", a], '-');
  }

  /** A username that contains `-` is split like the rest of the name:
      `dm-al-ice-bob` admits `al` and `ice`, and refuses `bob` and `al-ice`. */
  lemma DirectHyphenatedNames()
    ensures DirectAdmits("al", "dm-al-ice-bob") && DirectAdmits("ice", "dm-al-ice-bob")
    ensures !DirectAdmits("bob", "dm-al-ice-bob") && !DirectAdmits("al-ice", "dm-al-ice-bob")
  {
    assert "dm-" + "al" + "-" + "ice" + "-" + "bob" == "dm-al-ice-bob";
    DirectExtraSegmentsIgnored("al", "al", "ice", "bob");
    DirectExtraSegmentsIgnored("ice", "al", "ice", "bob");
    DirectExtraSegmentsIgnored("bob", "al", "ice", "bob");
    DirectExtraSegmentsIgnored("al-ice", "al", "ice", "bob");
  }

  /** Concrete cases: `dm-alice-bob` admits alice and bob and nobody else,
      and `dm-alice` admits alice. */
  lemma DirectExamples()
    ensures MayJoin("alice", "dm-alice-bob") && MayJoin("bob", "dm-alice-bob")
    ensures !MayJoin("carol", "dm-alice-bob")
    ensures MayJoin("alice", "dm-alice")
    ensures !MayJoin("", "general") && MayJoin("carol", "general")
  {
    DirectPairAdmission("alice", "alice", "bob");
    DirectPairAdmission("bob", "alice", "bob");
    DirectPairAdmission("carol", "alice", "bob");
    DirectSingleSegment("alice", "alice");
    assert "dm-alice-bob"[..3] == "dm-";
    assert "dm-alice"[..3] == "dm-";
    assert "dm-" + "alice" + "-" + "bob" == "dm-alice-bob";
    assert "dm-" + "alice" == "dm-alice";
    assert !IsDirect("general") by { assert "general"[..3] != "dm-"; }
  }
}
