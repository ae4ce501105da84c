/**
 The client's session-state upkeep (`session_state['user_list']` and
 `session_state['chat_history']`), its identification of the sender of a
 media packet, its authentication reply handling and the authentication
 guards on outgoing chat messages and file offers.
 */
module ClientSession {
  import opened Basics
  import opened StreamIds
  import Roster
  import MessageTypes

  const ChatHistoryLimit: nat := 100

  /** One `chat_history` entry: `from_user`, the payload and the timestamp. */
  datatype ChatEntry = ChatEntry(fromUser: Option<string>, message: Option<string>, timestamp: real)

  /** The part of the client's state kept across reconnections, plus `authenticated`. */
  datatype Session = Session(me: string, authenticated: bool, userList: seq<string>, chat: seq<ChatEntry>)

  /** Signals the handlers emit and the UDP hello they send. */
  datatype Event =
    | AuthSucceeded(username: string)
    | AuthFailedSignal(reason: string)
    | HelloSent(text: string)
    | UserListReceived(users: seq<string>)
    | UserJoinedSignal(username: string)
    | UserLeftSignal(username: string)
    | ChatReceived(fromUser: Option<string>, payload: Option<string>)

  /** The text of the UDP hello packet that lets the server learn the client's address. */
  function HelloText(me: string): (t: string)
    ensures |t| == |me| + 6 && t[..6] == Roster.HelloPrefix && t[6..] == me
  {
    Roster.HelloPrefix + me
  }

  /** The server recognises the client's hello: it sets the address of exactly that member. */
  lemma HelloIsRecognised(r: Roster.Members, me: string, addr: Roster.Addr)
    requires Roster.Has(r, me)
    ensures Roster.HandleHello(r, Some(HelloText(me)), addr) == Roster.SetUdpAddress(r, me, addr)
  {
  }

  /**
   `auth_response`: on success the client is authenticated and sends its UDP
   hello; otherwise it reports the reason, "Unknown error" when none is given.
   */
  function HandleAuthResponse(s: Session, success: bool, reason: Option<string>): (r: (Session, seq<Event>))
    ensures success ==> r.0 == s.(authenticated := true) && r.1 == [AuthSucceeded(s.me), HelloSent(HelloText(s.me))]
    ensures !success ==> r.0 == s && r.1 == [AuthFailedSignal(if reason.Some? then reason.value else "Unknown error")]
  {
    if success then (s.(authenticated := true), [AuthSucceeded(s.me), HelloSent(HelloText(s.me))])
    else (s, [AuthFailedSignal(if reason.Some? then reason.value else "Unknown error")])
  }

  /** `user_list`: the server's list replaces the local one. */
  function HandleUserList(s: Session, users: seq<string>): (r: (Session, seq<Event>))
    ensures r.0.userList == users && r.0.chat == s.chat && r.0.authenticated == s.authenticated && r.0.me == s.me
    ensures r.1 == [UserListReceived(users)]
  {
    (s.(userList := users), [UserListReceived(users)])
  }

  /**
   `user_joined`: a name other than the client's own is appended unless it
   is already listed, and signalled either way; the client's own name is
   ignored.
   */
  function HandleUserJoined(s: Session, name: string): (r: (Session, seq<Event>))
    ensures name == s.me ==> r == (s, [])
    ensures name != s.me ==> r.1 == [UserJoinedSignal(name)]
    ensures name != s.me && name in s.userList ==> r.0 == s
    ensures name != s.me && name !in s.userList ==> r.0.userList == s.userList + [name]
    ensures r.0.chat == s.chat && r.0.me == s.me
  {
    if name == s.me then (s, [])
    else if name in s.userList then (s, [UserJoinedSignal(name)])
    else (s.(userList := s.userList + [name]), [UserJoinedSignal(name)])
  }

  /** `user_left`: the first occurrence of the name is removed if present, and the departure is signalled. */
  function HandleUserLeft(s: Session, name: string): (r: (Session, seq<Event>))
    ensures r.1 == [UserLeftSignal(name)]
    ensures name !in s.userList ==> r.0 == s
    ensures name in s.userList ==> |r.0.userList| == |s.userList| - 1
    ensures name in s.userList ==>
      var i := IndexOf(s.userList, name); r.0.userList == s.userList[..i] + s.userList[i + 1..]
    ensures forall n :: n != name ==> (n in r.0.userList <==> n in s.userList)
    ensures r.0.chat == s.chat && r.0.me == s.me && r.0.authenticated == s.authenticated
  {
    (s.(userList := RemoveFirst(s.userList, name)), [UserLeftSignal(name)])
  }

  /** No name listed twice. */
  predicate NoDuplicates(l: seq<string>) {
    forall i, j :: 0 <= i < j < |l| ==> l[i] != l[j]
  }

  /** Joining keeps the list free of duplicates. */
  lemma JoinedKeepsNoDuplicates(s: Session, name: string)
    requires NoDuplicates(s.userList)
    ensures NoDuplicates(HandleUserJoined(s, name).0.userList)
  {
  }

  /** On a list free of duplicates, a departure removes the name entirely and keeps every other one. */
  lemma {:induction false} LeftRemovesName(l: seq<string>, name: string)
    requires NoDuplicates(l)
    ensures name !in RemoveFirst(l, name)
    ensures NoDuplicates(RemoveFirst(l, name))
    ensures forall n :: n != name ==> (n in RemoveFirst(l, name) <==> n in l)
  {
    if name in l {
      var i := IndexOf(l, name);
      var r := RemoveFirst(l, name);
      assert r == l[..i] + l[i + 1..];
      forall k | 0 <= k < |r| ensures r[k] == l[if k < i then k else k + 1] {
        if k >= i { assert r[k] == l[i + 1..][k - i]; }
      }
      forall k | 0 <= k < |r| ensures r[k] != name {
        if k >= i { assert l[k + 1] != l[i]; }
      }
      forall a, b | 0 <= a < b < |r| ensures r[a] != r[b] {
        assert l[if a < i then a else a + 1] != l[if b < i then b else b + 1];
      }
    }
  }

  /** A join followed by a departure of the same new name restores the list. */
  lemma JoinThenLeave(s: Session, name: string)
    requires name != s.me && name !in s.userList
    ensures HandleUserLeft(HandleUserJoined(s, name).0, name).0 == s
  {
    RemoveFirstAppended(s.userList, name);
  }

  lemma {:induction false} RemoveFirstAppended(l: seq<string>, x: string)
    requires x !in l
    ensures RemoveFirst(l + [x], x) == l
  {
    if |l| > 0 {
      assert (l + [x])[1..] == l[1..] + [x];
      RemoveFirstAppended(l[1..], x);
    }
  }

  // ---------------------------------------------------------------------------
  // Chat history
  // ---------------------------------------------------------------------------

  /** Appending to the history and keeping the last 100 entries. */
  function Append(h: seq<ChatEntry>, e: ChatEntry): (h': seq<ChatEntry>)
    ensures h' == LastN(h + [e], ChatHistoryLimit)
    ensures |h| < ChatHistoryLimit ==> h' == h + [e]
    ensures |h'| > 0 && h'[|h'| - 1] == e
  {
    var h1 := h + [e];
    if |h1| > ChatHistoryLimit then h1[|h1| - ChatHistoryLimit..] else h1
  }

  /**
   `chat_message`: record the sender, the payload and the message's
   timestamp (or the arrival time), keep the last 100 entries, and signal.
   */
  function HandleChat(s: Session, fromUser: Option<string>, payload: Option<string>, timestamp: Option<real>, now: real)
    : (r: (Session, seq<Event>))
    ensures r.0.chat == Append(s.chat, ChatEntry(fromUser, payload, if timestamp.Some? then timestamp.value else now))
    ensures r.0.userList == s.userList && r.0.authenticated == s.authenticated
    ensures r.1 == [ChatReceived(fromUser, payload)]
  {
    var entry := ChatEntry(fromUser, payload, if timestamp.Some? then timestamp.value else now);
    (s.(chat := Append(s.chat, entry)), [ChatReceived(fromUser, payload)])
  }

  /** The history after receiving `es` in order. */
  function ReceiveAll(h: seq<ChatEntry>, es: seq<ChatEntry>): seq<ChatEntry>
    decreases |es|
  {
    if |es| == 0 then h else ReceiveAll(Append(h, es[0]), es[1..])
  }

  /**
   Starting from a history within the limit, after any number of messages
   the history is exactly the last 100 of everything received, in arrival
   order.
   */
  lemma {:induction false} HistoryIsLastHundred(h: seq<ChatEntry>, es: seq<ChatEntry>)
    requires |h| <= ChatHistoryLimit
    ensures ReceiveAll(h, es) == LastN(h + es, ChatHistoryLimit)
    decreases |es|
  {
    if |es| > 0 {
      var h1 := Append(h, es[0]);
      HistoryIsLastHundred(h1, es[1..]);
      AppendFirst(h, es);
      LastNOfLastN(h + [es[0]], es[1..], ChatHistoryLimit);
    } else {
      assert h + es == h;
    }
  }

  // ---------------------------------------------------------------------------
  // Sender identification
  // ---------------------------------------------------------------------------

  /** `stream_id & 0x0F` for the non-negative ids a packet carries. */
  function Nibble(streamId: nat): (n: nat)
    ensures n < 16
  {
    streamId % 16
  }

  /** Some candidate generates `streamId` for `k`. */
  predicate Generates(hash: StringHash, u: string, k: StreamKind, streamId: nat) {
    GenerateStreamId(hash, u, k) == streamId
  }

  /** The first of `users` whose id of kind `k` is `streamId`. */
  function FirstMatch(hash: StringHash, users: seq<string>, k: StreamKind, streamId: nat): (r: Option<nat>)
    ensures r.Some? ==>
      && r.value < |users| && Generates(hash, users[r.value], k, streamId)
      && forall i :: 0 <= i < r.value ==> !Generates(hash, users[i], k, streamId)
    ensures r.None? ==> forall i :: 0 <= i < |users| ==> !Generates(hash, users[i], k, streamId)
  {
    if |users| == 0 then None
    else if Generates(hash, users[0], k, streamId) then Some(0)
    else match FirstMatch(hash, users[1..], k, streamId)
      case None => None
      case Some(j) => Some(j + 1)
  }

  /**
   `_identify_sender_from_stream_id`: the low nibble selects audio (1) or
   video (2), anything else identifies nobody; then the first of the known
   users followed by the client itself whose generated id of that kind is
   the packet's id.
   */
  function IdentifySender(hash: StringHash, s: Session, streamId: nat): (r: Option<string>)
    ensures KindOfNibble(Nibble(streamId)).None? ==> r.None?
    ensures r.Some? ==>
      && r.value in s.userList + [s.me]
      && Generates(hash, r.value, KindOfNibble(Nibble(streamId)).value, streamId)
    ensures KindOfNibble(Nibble(streamId)).Some? ==>
      (r.None? <==> forall u :: u in s.userList + [s.me] ==> !Generates(hash, u, KindOfNibble(Nibble(streamId)).value, streamId))
  {
    var all := s.userList + [s.me];
    match KindOfNibble(Nibble(streamId))
    case None => None
    case Some(k) =>
      match FirstMatch(hash, all, k, streamId)
      case None => None
      case Some(i) => Some(all[i])
  }

  /**
   Identification recovers the sender when the receiver's `hash` agrees with
   the sender's on the sender's name (as within one process, or with a hash
   that is not salted per process): a packet stamped with the sender's id is
   attributed to a known user with that same id, and to the sender itself
   when the masked hashes of the names known to the receiver are pairwise
   distinct.
   */
  lemma IdentifiesGenerated(hs: StringHash, hr: StringHash, s: Session, u: string, k: StreamKind)
    requires u in s.userList + [s.me]
    requires Masked31(hr(u)) == Masked31(hs(u))
    ensures var r := IdentifySender(hr, s, GenerateStreamId(hs, u, k));
            r.Some? && GenerateStreamId(hr, r.value, k) == GenerateStreamId(hs, u, k)
    ensures (forall v :: v in s.userList + [s.me] && v != u ==> Masked31(hr(v)) != Masked31(hr(u))) ==>
      IdentifySender(hr, s, GenerateStreamId(hs, u, k)) == Some(u)
  {
    var id := GenerateStreamId(hs, u, k);
    assert KindOfNibble(Nibble(id)) == Some(k);
    StreamIdInjective(hr, u, u, k, k);
    assert Generates(hr, u, k, id);
    var r := IdentifySender(hr, s, id);
    assert r.Some?;
    StreamIdInjective(hr, r.value, u, k, k);
  }

  /**
   As written, sender and receiver each salt `hash` in their own process, so
   whenever the receiver's masked hashes of the names it knows all differ
   from the sender's masked hash of its own name, the sender's packets are
   attributed to nobody.
   */
  lemma ForeignSenderUnidentified(hs: StringHash, hr: StringHash, s: Session, u: string, k: StreamKind)
    requires forall v :: v in s.userList + [s.me] ==> Masked31(hr(v)) != Masked31(hs(u))
    ensures IdentifySender(hr, s, GenerateStreamId(hs, u, k)) == None
  {
    var id := GenerateStreamId(hs, u, k);
    assert KindOfNibble(Nibble(id)) == Some(k);
    forall v | v in s.userList + [s.me] ensures !Generates(hr, v, k, id) {
      StreamIdInjective(hr, v, v, k, k);
      assert GenerateStreamId(hr, v, k) / 16 == Masked31(hr(v));
      assert id / 16 == Masked31(hs(u));
    }
  }

  // ---------------------------------------------------------------------------
  // Authentication guards on outgoing messages
  // ---------------------------------------------------------------------------

  /** The outgoing control messages the guards protect. */
  datatype Outgoing =
    | ChatOut(fromUser: string, mode: MessageTypes.Mode, toUsers: seq<string>, payload: string)
    | OfferOut(fromUser: string, fileId: string, filename: string, fileSize: int,
               mode: MessageTypes.Mode, toUsers: seq<string>)

  /** `target_users or []`. */
  function Targets(targets: Option<seq<string>>): seq<string> {
    if targets.Some? then targets.value else []
  }

  /** `send_chat_message`: nothing is sent before authentication; otherwise the message names the client as sender. */
  function SendChat(s: Session, text: string, mode: MessageTypes.Mode, targets: Option<seq<string>>): (o: Option<Outgoing>)
    ensures o.Some? <==> s.authenticated
    ensures o.Some? ==> o.value == ChatOut(s.me, mode, Targets(targets), text)
  {
    if !s.authenticated then None else Some(ChatOut(s.me, mode, Targets(targets), text))
  }

  /** `send_file_offer`: nothing is sent before authentication. */
  function SendFileOffer(s: Session, fileId: string, filename: string, fileSize: int,
                         mode: MessageTypes.Mode, targets: Option<seq<string>>): (o: Option<Outgoing>)
    ensures o.Some? <==> s.authenticated
    ensures o.Some? ==> o.value == OfferOut(s.me, fileId, filename, fileSize, mode, Targets(targets))
  {
    if !s.authenticated then None else Some(OfferOut(s.me, fileId, filename, fileSize, mode, Targets(targets)))
  }

  /** Only a successful authentication reply unlocks sending. */
  lemma SendingNeedsAuthResponse(s: Session, success: bool, reason: Option<string>, text: string, mode: MessageTypes.Mode)
    requires !s.authenticated
    ensures SendChat(HandleAuthResponse(s, success, reason).0, text, mode, None).Some? <==> success
  {
  }
}
