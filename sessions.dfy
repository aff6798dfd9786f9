/** The pairing registry of the Socket.IO side of the server: a TV creates a
    session under a six-character code, a phone joins it with that code, and
    the phone's commands are relayed to the TV (and the TV's reports of a
    blocked frame to the phone). Socket ids, the clock and the random picks
    come in as parameters; every `emit` is recorded in an outbox, in order. */
module Sessions {
  import opened Wrappers
  import opened JsMap

  /** Socket.IO ids are non-empty, so a bound id is always truthy. */
  type SocketId = s: string | s != [] witness "a"

  const Alphabet: string := "abcdefghijklmnopqrstuvwxyz0123456789"
  const CodeLength := 6
  /** A session lives one hour after it is created. */
  const SessionLifetime := 3600000

  datatype Session = Session(tv: SocketId, phone: Option<SocketId>, createdAt: int)

  /** What the server emits: the event name and its payload. */
  datatype Event =
    | SessionCreated(code: string)
    | SessionJoined(success: bool, error: Option<string>)
    | PhoneConnected
    | OpenLink(url: string, useProxy: bool)
    | Fullscreen
    | ExitFullscreen
    | Refresh
    | GoBack
    | IframeBlocked(url: string)
    | OpenInNewTab(url: string)
    | TvDisconnected
    | PhoneDisconnected
  {
    function Name(): string {
      match this
      case SessionCreated(_) => "session-created"
      case SessionJoined(_, _) => "session-joined"
      case PhoneConnected => "phone-connected"
      case OpenLink(_, _) => "open-link"
      case Fullscreen => "fullscreen"
      case ExitFullscreen => "exit-fullscreen"
      case Refresh => "refresh"
      case GoBack => "go-back"
      case IframeBlocked(_) => "iframe-blocked"
      case OpenInNewTab(_) => "open-in-new-tab"
      case TvDisconnected => "tv-disconnected"
      case PhoneDisconnected => "phone-disconnected"
    }
  }

  /** One `emit`: to the socket itself or through `io.to(target)`. */
  datatype Emit = Emit(target: SocketId, event: Event)

  /** The seven commands that are relayed to the other end of a session. */
  datatype Command =
    | OpenLink(url: string, useProxy: bool)
    | Fullscreen
    | ExitFullscreen
    | Refresh
    | GoBack
    | IframeError(url: string)
    | OpenInNewTabOnTv(url: string)
  {
    /** The event the command arrives as, as listened for. */
    function Name(): string {
      match this
      case OpenLink(_, _) => "open-link"
      case Fullscreen => "fullscreen"
      case ExitFullscreen => "exit-fullscreen"
      case Refresh => "refresh"
      case GoBack => "go-back"
      case IframeError(_) => "iframe-error"
      case OpenInNewTabOnTv(_) => "open-in-new-tab-on-tv"
    }

    /** The event it is relayed as: its own name, except that
        `iframe-error` goes out as `iframe-blocked` and
        `open-in-new-tab-on-tv` as `open-in-new-tab`. */
    function RelayedName(): string {
      match this
      case IframeError(_) => "iframe-blocked"
      case OpenInNewTabOnTv(_) => "open-in-new-tab"
      case _ => Name()
    }
  }

  /** The event a command is relayed as. */
  function Forwarded(cmd: Command): (e: Event)
    ensures e.Name() == cmd.RelayedName()
    ensures cmd.IframeError? <==> e.IframeBlocked?
    ensures cmd.OpenLink? <==> e.OpenLink?
    ensures cmd.OpenLink? ==> e.url == cmd.url && e.useProxy == cmd.useProxy
    ensures cmd.IframeError? ==> e.url == cmd.url
    ensures cmd.OpenInNewTabOnTv? <==> e.OpenInNewTab?
    ensures cmd.OpenInNewTabOnTv? ==> e.url == cmd.url
  {
    match cmd
    case OpenLink(url, useProxy) => Event.OpenLink(url, useProxy)
    case Fullscreen => Event.Fullscreen
    case ExitFullscreen => Event.ExitFullscreen
    case Refresh => Event.Refresh
    case GoBack => Event.GoBack
    case IframeError(url) => IframeBlocked(url)
    case OpenInNewTabOnTv(url) => OpenInNewTab(url)
  }

  predicate IsCodeChar(c: char) {
    'a' <= c <= 'z' || '0' <= c <= '9'
  }

  /** `generateSessionId()`: `picks[i]` is the value `Math.floor(Math.random() * 36)`
      took in round `i`. */
  method GenerateSessionId(picks: seq<nat>) returns (id: string)
    requires |picks| == CodeLength
    requires forall i :: 0 <= i < |picks| ==> picks[i] < |Alphabet|
    ensures |id| == CodeLength
    ensures forall i :: 0 <= i < |id| ==> id[i] == Alphabet[picks[i]] && IsCodeChar(id[i])
  {
    id := "";
    for i := 0 to CodeLength
      invariant |id| == i
      invariant forall k :: 0 <= k < i ==> id[k] == Alphabet[picks[k]] && IsCodeChar(id[k])
    {
      AlphabetChars(picks[i]);
      id := id + [Alphabet[picks[i]]];
    }
  }

  lemma AlphabetChars(n: nat)
    requires n < |Alphabet|
    ensures IsCodeChar(Alphabet[n])
  {
  }

  /** Where `c` is in the alphabet; the pick that produces it. */
  function PickOf(c: char): (n: nat)
    requires IsCodeChar(c)
    ensures n < |Alphabet| && Alphabet[n] == c
  {
    if 'a' <= c <= 'z' then c as int - 'a' as int else c as int - '0' as int + 26
  }

  /** Every six-character code over `a-z0-9` is produced by some picks. */
  lemma {:induction false} EveryCodeGenerable(code: string)
    requires |code| == CodeLength && forall i :: 0 <= i < |code| ==> IsCodeChar(code[i])
    ensures exists picks: seq<nat> :: (|picks| == CodeLength
      && (forall i :: 0 <= i < |picks| ==> picks[i] < |Alphabet|)
      && (forall i :: 0 <= i < |picks| ==> Alphabet[picks[i]] == code[i]))
  {
    var picks := seq(CodeLength, i requires 0 <= i < CodeLength => PickOf(code[i]));
    assert forall i :: 0 <= i < |picks| ==> picks[i] < |Alphabet| && Alphabet[picks[i]] == code[i];
  }

  /** Where a relayed command goes, and what arrives there: every command but
      `iframe-error` goes to the session's TV; `iframe-error` goes to its
      phone, and only when one is bound; an unknown code reaches nobody. */
  function Route(sessions: map<string, Session>, code: string, cmd: Command): (r: Option<Emit>)
    ensures r.Some? <==> code in sessions && (cmd.IframeError? ==> sessions[code].phone.Some?)
    ensures r.Some? && !cmd.IframeError? ==> r.value.target == sessions[code].tv
    ensures r.Some? && cmd.IframeError? ==> Some(r.value.target) == sessions[code].phone
    ensures r.Some? ==> r.value.event == Forwarded(cmd)
  {
    if code !in sessions then None
    else
      var session := sessions[code];
      match cmd
      case IframeError(url) =>
        if session.phone.Some? then Some(Emit(session.phone.value, IframeBlocked(url))) else None
      case _ => Some(Emit(session.tv, Forwarded(cmd)))
  }

  /** What `disconnect` of `s` leaves of one session: nothing when `s` is its
      TV (the TV test comes first), the session with its phone cleared when
      `s` is its phone, otherwise the session as it was. */
  function Disconnected(session: Session, s: SocketId): (r: Option<Session>)
    ensures r.None? <==> session.tv == s
    ensures r.Some? ==> r.value.tv == session.tv && r.value.createdAt == session.createdAt
    ensures r.Some? ==> r.value.phone == if session.phone == Some(s) then None else session.phone
  {
    if session.tv == s then None
    else if session.phone == Some(s) then Some(session.(phone := None))
    else Some(session)
  }

  /** What `disconnect` of `s` emits for one session. */
  function Notice(session: Session, s: SocketId): (r: seq<Emit>)
    ensures |r| <= 1
    ensures r != [] <==> (session.tv == s && session.phone.Some?) || (session.tv != s && session.phone == Some(s))
    ensures r != [] && session.tv == s ==> session.phone.Some? && r == [Emit(session.phone.value, TvDisconnected)]
    ensures r != [] && session.tv != s ==> session.phone == Some(s) && r == [Emit(session.tv, PhoneDisconnected)]
  {
    if session.tv == s then
      if session.phone.Some? then [Emit(session.phone.value, TvDisconnected)] else []
    else if session.phone == Some(s) then [Emit(session.tv, PhoneDisconnected)]
    else []
  }

  /** The notices for the sessions under `keys`, in that order. */
  function Notices(keys: seq<string>, m: map<string, Session>, s: SocketId): seq<Emit>
    requires forall k :: k in keys ==> k in m
  {
    if keys == [] then []
    else Notices(keys[..|keys| - 1], m, s) + Notice(m[keys[|keys| - 1]], s)
  }

  /** The keys under `keys` whose session survives a disconnect of `s`. */
  function Surviving(keys: seq<string>, m: map<string, Session>, s: SocketId): seq<string>
    requires forall k :: k in keys ==> k in m
  {
    if keys == [] then []
    else Surviving(keys[..|keys| - 1], m, s) + (if m[keys[|keys| - 1]].tv == s then [] else [keys[|keys| - 1]])
  }

  predicate Expired(session: Session, now: int) {
    now - session.createdAt > SessionLifetime
  }

  /** The test the five-minute sweep of sessions applies at time `now`. */
  function ExpiredAt(now: int): Session -> bool {
    session => Expired(session, now)
  }

  /** A notice goes out exactly for each session under `keys` that had `s`
      as its TV and a bound phone (to that phone), or `s` as its phone but
      not as its TV (to that TV). */
  lemma {:induction false} NoticeSent(keys: seq<string>, m: map<string, Session>, s: SocketId, e: Emit)
    requires forall k :: k in keys ==> k in m
    ensures e in Notices(keys, m, s) <==> exists k :: k in keys && e in Notice(m[k], s)
  {
    if keys != [] {
      var init, last := keys[..|keys| - 1], keys[|keys| - 1];
      NoticeSent(init, m, s, e);
      assert keys == init + [last];
      if e in Notice(m[last], s) {
        assert last in keys;
      }
      if exists k :: k in keys && e in Notice(m[k], s) {
        var k :| k in keys && e in Notice(m[k], s);
        if k != last {
          assert k in init;
        }
      }
    }
  }

  /** A disconnecting TV's phone is told `tv-disconnected`. */
  lemma TvLeaveNotifiesPhone(keys: seq<string>, m: map<string, Session>, s: SocketId, code: string)
    requires forall k :: k in keys ==> k in m
    requires code in keys && m[code].tv == s && m[code].phone.Some?
    ensures Emit(m[code].phone.value, TvDisconnected) in Notices(keys, m, s)
  {
    NoticeSent(keys, m, s, Emit(m[code].phone.value, TvDisconnected));
  }

  /** A disconnecting phone's TV is told `phone-disconnected`, unless the
      same socket was the TV too. */
  lemma PhoneLeaveNotifiesTv(keys: seq<string>, m: map<string, Session>, s: SocketId, code: string)
    requires forall k :: k in keys ==> k in m
    requires code in keys && m[code].tv != s && m[code].phone == Some(s)
    ensures Emit(m[code].tv, PhoneDisconnected) in Notices(keys, m, s)
  {
    NoticeSent(keys, m, s, Emit(m[code].tv, PhoneDisconnected));
  }

  /** Nobody else hears of a disconnect: every notice goes to the peer of
      `s` in a session `s` belonged to. */
  lemma NoticesOnlyToPeers(keys: seq<string>, m: map<string, Session>, s: SocketId, e: Emit)
    requires forall k :: k in keys ==> k in m
    requires e in Notices(keys, m, s)
    ensures exists k :: (k in keys
      && ((m[k].tv == s && m[k].phone == Some(e.target) && e.event == TvDisconnected)
       || (m[k].tv != s && m[k].phone == Some(s) && e.target == m[k].tv && e.event == PhoneDisconnected)))
  {
    NoticeSent(keys, m, s, e);
    var k :| k in keys && e in Notice(m[k], s);
    assert Notice(m[k], s) == [e];
  }

  lemma {:induction false} SurvivingKeys(keys: seq<string>, m: map<string, Session>, s: SocketId)
    requires forall k :: k in keys ==> k in m
    ensures forall x :: x in Surviving(keys, m, s) <==> x in keys && m[x].tv != s
  {
    if keys != [] {
      SurvivingKeys(keys[..|keys| - 1], m, s);
      assert keys == keys[..|keys| - 1] + [keys[|keys| - 1]];
    }
  }

  /** The five-minute sweep keeps exactly the sessions at most an hour old, as
      they were. */
  lemma SweepKeepsYoung(m: map<string, Session>, now: int)
    ensures forall k :: k in KeptEntries(m, ExpiredAt(now)) <==> k in m && now - m[k].createdAt <= SessionLifetime
    ensures forall k :: k in KeptEntries(m, ExpiredAt(now)) ==> KeptEntries(m, ExpiredAt(now))[k] == m[k]
  {
    forall k | k in m
      ensures k in KeptEntries(m, ExpiredAt(now)) <==> now - m[k].createdAt <= SessionLifetime
    {
      assert ExpiredAt(now)(m[k]) == Expired(m[k], now);
    }
  }

  /** The `sessions` map, its insertion order, and everything emitted so far. */
  class Registry {
    var sessions: OrderedMap<string, Session>
    var outbox: seq<Emit>

    ghost predicate Valid()
      reads this
    {
      sessions.Valid()
    }

    constructor ()
      ensures Valid() && sessions.keys == [] && sessions.entries == map[] && outbox == []
    {
      sessions := Empty();
      outbox := [];
    }

    /** `create-session` from socket `tv` at time `now`: the new code maps to
        a session with no phone, replacing any session under the same code in
        that code's old position, and only the creator hears of it. */
    method CreateSession(tv: SocketId, picks: seq<nat>, now: int) returns (code: string)
      requires Valid()
      requires |picks| == CodeLength && forall i :: 0 <= i < |picks| ==> picks[i] < |Alphabet|
      modifies this
      ensures Valid()
      ensures |code| == CodeLength && forall i :: 0 <= i < |code| ==> code[i] == Alphabet[picks[i]]
      ensures sessions.entries == old(sessions.entries)[code := Session(tv, None, now)]
      ensures sessions.keys == if code in old(sessions.entries) then old(sessions.keys) else old(sessions.keys) + [code]
      ensures outbox == old(outbox) + [Emit(tv, SessionCreated(code))]
    {
      code := GenerateSessionId(picks);
      sessions := sessions.Set(code, Session(tv, None, now));
      outbox := outbox + [Emit(tv, SessionCreated(code))];
    }

    /** `join-session` from socket `phone` with `code`. */
    method JoinSession(phone: SocketId, code: string)
      requires Valid()
      modifies this
      ensures Valid()
      ensures sessions.keys == old(sessions.keys)
      ensures code !in old(sessions.entries) ==>
        sessions.entries == old(sessions.entries)
        && outbox == old(outbox) + [Emit(phone, SessionJoined(false, Some("Session not found")))]
      ensures code in old(sessions.entries) ==>
        sessions.entries == old(sessions.entries)[code := old(sessions.entries)[code].(phone := Some(phone))]
        && outbox == old(outbox) + [Emit(phone, SessionJoined(true, None)),
                                    Emit(old(sessions.entries)[code].tv, PhoneConnected)]
    {
      if code in sessions.entries {
        var session := sessions.entries[code];
        sessions := sessions.Set(code, session.(phone := Some(phone)));
        outbox := outbox + [Emit(phone, SessionJoined(true, None))];
        outbox := outbox + [Emit(session.tv, PhoneConnected)];
      } else {
        outbox := outbox + [Emit(phone, SessionJoined(false, Some("Session not found")))];
      }
    }

    /** Any of the seven relayed commands, for the session under `code`. */
    method Relay(code: string, cmd: Command)
      requires Valid()
      modifies this`outbox
      ensures Valid()
      ensures outbox == old(outbox) + match Route(sessions.entries, code, cmd) case Some(e) => [e] case None => []
    {
      if code in sessions.entries {
        var session := sessions.entries[code];
        match cmd
        case IframeError(url) =>
          if session.phone.Some? {
            outbox := outbox + [Emit(session.phone.value, IframeBlocked(url))];
          }
        case _ =>
          outbox := outbox + [Emit(session.tv, Forwarded(cmd))];
      }
    }

    /** `disconnect` of socket `s`: one pass over the sessions in insertion
        order, deleting those whose TV was `s` and clearing the phone of those
        whose phone was `s`, with one notice to the peer each. */
    method Disconnect(s: SocketId)
      requires Valid()
      modifies this
      ensures Valid()
      ensures forall k :: k in sessions.entries <==> k in old(sessions.entries) && Disconnected(old(sessions.entries)[k], s).Some?
      ensures forall k :: k in sessions.entries ==> sessions.entries[k] == Disconnected(old(sessions.entries)[k], s).value
      ensures sessions.keys == Surviving(old(sessions.keys), old(sessions.entries), s)
      ensures outbox == old(outbox) + Notices(old(sessions.keys), old(sessions.entries), s)
    {
      var keys, m, sent := sessions.keys, sessions, [];
      ghost var m0 := sessions.entries;
      assert OrderedMap(keys, m0) == sessions;
      DisconnectStart(m, s);
      var i := 0;
      while i < |keys|
        invariant 0 <= i <= |keys|
        invariant Snapshot(keys, m0)
        invariant DisconnectedUpTo(m, keys, m0, s, i)
        invariant sent == Notices(keys[..i], m0, s)
        modifies {}
      {
        var code := keys[i];
        DisconnectVisit(m, keys, m0, s, i);
        var session := m.entries[code];
        if session.tv == s {
          if session.phone.Some? {
            sent := sent + [Emit(session.phone.value, TvDisconnected)];
          }
          DisconnectDrop(m, keys, m0, s, i);
          m := m.Delete(code);
        } else if session.phone == Some(s) {
          DisconnectClear(m, keys, m0, s, i);
          m := m.Set(code, session.(phone := None));
          sent := sent + [Emit(session.tv, PhoneDisconnected)];
        } else {
          DisconnectKeep(m, keys, m0, s, i);
        }
        i := i + 1;
      }
      DisconnectFinished(m, keys, m0, s);
      sessions, outbox := m, outbox + sent;
    }

    /** The five-minute sweep at time `now`: every session older than an hour is
        deleted, the rest keep their order, and nothing is emitted. */
    method SweepSessions(now: int)
      requires Valid()
      modifies this
      ensures Valid()
      ensures sessions.entries == KeptEntries(old(sessions.entries), ExpiredAt(now))
      ensures sessions.keys == Retained(old(sessions.keys), old(sessions.entries), ExpiredAt(now))
      ensures outbox == old(outbox)
    {
      var keys, m := sessions.keys, sessions;
      ghost var m0 := sessions.entries;
      ghost var drop := ExpiredAt(now);
      SweepStart(m, drop);
      var i := 0;
      while i < |keys|
        invariant 0 <= i <= |keys|
        invariant Snapshot(keys, m0)
        invariant SweptUpTo(m, keys, m0, drop, i)
        modifies {}
      {
        var code := keys[i];
        SweepVisit(m, keys, m0, drop, i);
        assert drop(m0[code]) == Expired(m0[code], now);
        if Expired(m.entries[code], now) {
          SweepDrop(m, keys, m0, drop, i);
          m := m.Delete(code);
        } else {
          SweepKeep(m, keys, m0, drop, i);
        }
        i := i + 1;
      }
      SweepFinished(m, keys, m0, drop);
      sessions := m;
    }
  }

  /** The sessions under `visited` are as `Disconnected` leaves them, the
      others as they were in `m0`. */
  ghost predicate DisconnectedOn(entries: map<string, Session>, visited: set<string>,
                                 m0: map<string, Session>, s: SocketId) {
    (forall k :: k in entries <==> k in m0 && (k in visited ==> m0[k].tv != s))
    && (forall k :: k in entries ==> entries[k] == if k in visited then Disconnected(m0[k], s).value else m0[k])
  }

  /** After `disconnect` has visited `keys[..i]`. */
  ghost predicate DisconnectedUpTo(cur: OrderedMap<string, Session>, keys: seq<string>,
                                   m0: map<string, Session>, s: SocketId, i: nat)
    requires Snapshot(keys, m0) && i <= |keys|
  {
    cur.Valid()
    && cur.keys == Surviving(keys[..i], m0, s) + keys[i..]
    && DisconnectedOn(cur.entries, Elements(keys[..i]), m0, s)
  }

  lemma DisconnectStart(m: OrderedMap<string, Session>, s: SocketId)
    requires m.Valid()
    ensures Snapshot(m.keys, m.entries) && DisconnectedUpTo(m, m.keys, m.entries, s, 0)
    ensures Notices(m.keys[..0], m.entries, s) == []
  {
    assert m.keys[..0] == [];
  }

  /** The key visited next is still there, as it was, and adds its notice. */
  lemma DisconnectVisit(cur: OrderedMap<string, Session>, keys: seq<string>,
                        m0: map<string, Session>, s: SocketId, i: nat)
    requires Snapshot(keys, m0) && i < |keys|
    requires DisconnectedUpTo(cur, keys, m0, s, i)
    ensures keys[i] in cur.entries && cur.entries[keys[i]] == m0[keys[i]]
    ensures Notices(keys[..i + 1], m0, s) == Notices(keys[..i], m0, s) + Notice(m0[keys[i]], s)
  {
    VisitNext(keys, i);
  }

  /** Deleting the session visited next, whose TV is `s`. */
  lemma DisconnectDrop(cur: OrderedMap<string, Session>, keys: seq<string>,
                       m0: map<string, Session>, s: SocketId, i: nat)
    requires Snapshot(keys, m0) && i < |keys| && m0[keys[i]].tv == s
    requires DisconnectedUpTo(cur, keys, m0, s, i)
    ensures DisconnectedUpTo(cur.Delete(keys[i]), keys, m0, s, i + 1)
    ensures Notice(m0[keys[i]], s) ==
      if m0[keys[i]].phone.Some? then [Emit(m0[keys[i]].phone.value, TvDisconnected)] else []
  {
    var next := cur.Delete(keys[i]);
    assert next.keys == Without(cur.keys, keys[i]);
    SurvivingDrop(cur.keys, keys, m0, s, i);
    assert DisconnectedOn(next.entries, Elements(keys[..i + 1]), m0, s) by {
      VisitNext(keys, i);
      assert Elements(keys[..i + 1]) == Elements(keys[..i]) + {keys[i]};
      DisconnectEntries(cur.entries, next.entries, Elements(keys[..i]), keys[i], m0, s);
    }
  }

  lemma SurvivingDrop(ks: seq<string>, keys: seq<string>, m0: map<string, Session>, s: SocketId, i: nat)
    requires Snapshot(keys, m0) && i < |keys| && m0[keys[i]].tv == s
    requires ks == Surviving(keys[..i], m0, s) + keys[i..]
    ensures Without(ks, keys[i]) == Surviving(keys[..i + 1], m0, s) + keys[i + 1..]
  {
    VisitNext(keys, i);
    var u := Surviving(keys[..i], m0, s);
    assert Surviving(keys[..i + 1], m0, s) == u;
    SurvivingKeys(keys[..i], m0, s);
    assert ks == u + [keys[i]] + keys[i + 1..];
    WithoutMiddle(u, keys[i], keys[i + 1..]);
  }

  /** Clearing the phone of the session visited next, whose phone is `s`. */
  lemma DisconnectClear(cur: OrderedMap<string, Session>, keys: seq<string>,
                        m0: map<string, Session>, s: SocketId, i: nat)
    requires Snapshot(keys, m0) && i < |keys| && m0[keys[i]].tv != s && m0[keys[i]].phone == Some(s)
    requires DisconnectedUpTo(cur, keys, m0, s, i)
    ensures DisconnectedUpTo(cur.Set(keys[i], m0[keys[i]].(phone := None)), keys, m0, s, i + 1)
    ensures Notice(m0[keys[i]], s) == [Emit(m0[keys[i]].tv, PhoneDisconnected)]
  {
    var next := cur.Set(keys[i], m0[keys[i]].(phone := None));
    SurvivingStep(cur.keys, keys, m0, s, i);
    assert DisconnectedOn(next.entries, Elements(keys[..i + 1]), m0, s) by {
      VisitNext(keys, i);
      assert Elements(keys[..i + 1]) == Elements(keys[..i]) + {keys[i]};
      DisconnectEntries(cur.entries, next.entries, Elements(keys[..i]), keys[i], m0, s);
    }
  }

  /** Passing over the session visited next, which `s` is not part of. */
  lemma DisconnectKeep(cur: OrderedMap<string, Session>, keys: seq<string>,
                       m0: map<string, Session>, s: SocketId, i: nat)
    requires Snapshot(keys, m0) && i < |keys| && m0[keys[i]].tv != s && m0[keys[i]].phone != Some(s)
    requires DisconnectedUpTo(cur, keys, m0, s, i)
    ensures DisconnectedUpTo(cur, keys, m0, s, i + 1)
    ensures Notice(m0[keys[i]], s) == []
  {
    SurvivingStep(cur.keys, keys, m0, s, i);
    assert DisconnectedOn(cur.entries, Elements(keys[..i + 1]), m0, s) by {
      VisitNext(keys, i);
      assert Elements(keys[..i + 1]) == Elements(keys[..i]) + {keys[i]};
      UntouchedEntries(cur.entries, Elements(keys[..i]), keys[i], m0, s);
    }
  }

  lemma SurvivingStep(ks: seq<string>, keys: seq<string>, m0: map<string, Session>, s: SocketId, i: nat)
    requires Snapshot(keys, m0) && i < |keys| && m0[keys[i]].tv != s
    requires ks == Surviving(keys[..i], m0, s) + keys[i..]
    ensures ks == Surviving(keys[..i + 1], m0, s) + keys[i + 1..]
  {
    VisitNext(keys, i);
    var u := Surviving(keys[..i], m0, s);
    assert Surviving(keys[..i + 1], m0, s) == u + [keys[i]];
    assert ks == (u + [keys[i]]) + keys[i + 1..];
  }

  lemma DisconnectEntries(entries: map<string, Session>, next: map<string, Session>, visited: set<string>,
                          code: string, m0: map<string, Session>, s: SocketId)
    requires code in m0 && code !in visited
    requires DisconnectedOn(entries, visited, m0, s)
    requires next == match Disconnected(m0[code], s)
      case None => entries - {code}
      case Some(after) => entries[code := after]
    ensures DisconnectedOn(next, visited + {code}, m0, s)
  {
  }

  lemma UntouchedEntries(entries: map<string, Session>, visited: set<string>,
                         code: string, m0: map<string, Session>, s: SocketId)
    requires code in m0 && code !in visited && Disconnected(m0[code], s) == Some(m0[code])
    requires DisconnectedOn(entries, visited, m0, s)
    ensures DisconnectedOn(entries, visited + {code}, m0, s)
  {
  }

  /** Once every key is visited, each session is as `Disconnected` leaves it. */
  lemma DisconnectFinished(cur: OrderedMap<string, Session>, keys: seq<string>,
                           m0: map<string, Session>, s: SocketId)
    requires OrderedMap(keys, m0).Valid() && Snapshot(keys, m0)
    requires DisconnectedUpTo(cur, keys, m0, s, |keys|)
    ensures cur.Valid() && cur.keys == Surviving(keys, m0, s)
    ensures Notices(keys[..|keys|], m0, s) == Notices(keys, m0, s)
    ensures forall k :: k in cur.entries <==> k in m0 && Disconnected(m0[k], s).Some?
    ensures forall k :: k in cur.entries ==> cur.entries[k] == Disconnected(m0[k], s).value
  {
    assert keys[..|keys|] == keys;
    ElementsOf(keys);
  }
}
