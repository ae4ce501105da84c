/**
 `LANServer`: the control-message handlers of one TCP connection, the
 connection's frame loop and close, the UDP relay, the heartbeat check and
 the port probe. A handler gets the connection's current username and
 returns the new one together with the messages it sends; the JSON layer is
 abstracted by a `decode` parameter from frame bodies to `Msg` records.
 */
module Server {
  import opened Basics
  import opened Roster
  import opened StreamIds
  import MessageTypes
  import UdpPacket
  import Framing
  import Hex
  import opened TransferInfo
  import SF = ServerFiles

  /** The relay's state: the session id it was started with, the roster and the file store. */
  datatype Server = Server(sessionId: string, members: Members, files: SF.Store)

  predicate Valid(s: Server) {
    Wf(s.members) && SF.Inv(s.files)
  }

  /**
   An incoming control message after JSON decoding. `None` is a field the
   message does not carry (`message.get(...)` returning `None`).
   */
  datatype Msg =
    | Auth(username: Name, sessionId: Option<string>)
    | Chat(fromUser: Option<Name>, mode: MessageTypes.Mode, toUsers: seq<Name>)
    | Media(start: bool, streamer: Option<Name>, mediaType: Option<string>)
    | Offer(fromUser: Option<Name>, fileId: Option<string>, filename: Option<string>, fileSize: Option<int>,
            mode: MessageTypes.Mode, toUsers: seq<Name>)
    | Chunk(fileId: Option<string>, chunkIndex: Option<int>, data: Option<string>, checksum: Option<string>)
    | Request(fileId: Option<string>, fromUser: Option<Name>)
    | Complete(fileId: Option<string>)
    | Ping
    | Screen(fromUser: Option<Name>)
    | Leave
    | Unhandled

  /** Messages the server sends. */
  datatype Out =
    | AuthOk(username: Name)
    | AuthFailed(reason: string)
    | UserJoined(name: Name)
    | UserList(users: seq<Name>)
    | UserLeft(name: Name)
    | Forward(msg: Msg)
    | FileList(files: map<string, Info>)
    | FileNotFound(fileId: string)
    | Pong
    | ChunkOut(fileId: string, index: nat, total: int, hex: string, checksum: string)
    | CompleteOut(fileId: string, checksum: string)

  /** A message for the connection being served, or for the member with a given name. */
  datatype Delivery = ToSelf(out: Out) | ToMember(name: Name, out: Out)

  const InvalidSession: string := "Invalid session ID"
  const NameInUse: string := "Username already in use"

  /** Python truthiness of an optional string: present and non-empty. */
  predicate Truthy(o: Option<string>) {
    o.Some? && o.value != ""
  }

  /** The same message for each name, in order. */
  function ToEach(names: seq<Name>, o: Out): (ds: seq<Delivery>)
    ensures |ds| == |names|
    ensures forall i :: 0 <= i < |names| ==> ds[i] == ToMember(names[i], o)
  {
    if |names| == 0 then [] else [ToMember(names[0], o)] + ToEach(names[1..], o)
  }

  lemma ToEachMember(names: seq<Name>, o: Out, n: Name)
    ensures ToMember(n, o) in ToEach(names, o) <==> n in names
  {
    var ds := ToEach(names, o);
    if n in names {
      var i :| 0 <= i < |names| && names[i] == n;
      assert ds[i] == ToMember(n, o);
    }
  }

  /**
   The recipients of a chat message or file offer: broadcast to everyone
   but the sender, multicast to the listed members, unicast to the first
   listed name; names not in the roster are skipped.
   */
  function Targets(r: Members, mode: MessageTypes.Mode, fromUser: Option<Name>, toUsers: seq<Name>): (t: seq<Name>)
    ensures forall n :: n in t ==> Has(r, n)
    ensures mode.Broadcast? ==> forall n :: n in t <==> Has(r, n) && fromUser != Some(n)
    ensures mode.Multicast? ==> forall n :: n in t <==> n in toUsers && Has(r, n)
    ensures mode.Unicast? ==> t == (if |toUsers| > 0 && Has(r, toUsers[0]) then [toUsers[0]] else [])
    ensures mode.OtherMode? ==> t == []
  {
    match mode
    case Broadcast => BroadcastTo(r, fromUser)
    case Multicast => MulticastTo(r, toUsers)
    case Unicast => if |toUsers| > 0 then UnicastTo(r, toUsers[0]) else []
    case OtherMode(_) => []
  }

  /** Whether a message that `fromUser` routes by `mode` to `toUsers` reaches the member `n`. */
  ghost predicate Reaches(r: Members, mode: MessageTypes.Mode, fromUser: Option<Name>, toUsers: seq<Name>, n: Name) {
    && Has(r, n)
    && match mode
       case Broadcast => fromUser != Some(n)
       case Multicast => n in toUsers
       case Unicast => |toUsers| > 0 && n == toUsers[0]
       case OtherMode(_) => false
  }

  /** `ds` forwards `o`, and nothing else, to exactly the members the routing reaches. */
  ghost predicate Relayed(ds: seq<Delivery>, r: Members, mode: MessageTypes.Mode, fromUser: Option<Name>, toUsers: seq<Name>, o: Out) {
    && (forall d :: d in ds ==> d.ToMember? && d.out == o && Reaches(r, mode, fromUser, toUsers, d.name))
    && (forall n :: Reaches(r, mode, fromUser, toUsers, n) ==> ToMember(n, o) in ds)
  }

  /** Sending to the routing targets relays the message to exactly the members it reaches. */
  lemma TargetsRelayed(r: Members, mode: MessageTypes.Mode, fromUser: Option<Name>, toUsers: seq<Name>, o: Out)
    ensures Relayed(ToEach(Targets(r, mode, fromUser, toUsers), o), r, mode, fromUser, toUsers, o)
  {
    var t := Targets(r, mode, fromUser, toUsers);
    var ds := ToEach(t, o);
    forall n | Reaches(r, mode, fromUser, toUsers, n) ensures ToMember(n, o) in ds {
      ToEachMember(t, o, n);
    }
    forall d | d in ds ensures d.ToMember? && d.out == o && Reaches(r, mode, fromUser, toUsers, d.name) {
      var k :| 0 <= k < |ds| && ds[k] == d;
      assert d.name == t[k] && t[k] in t;
    }
  }

  // ---------------------------------------------------------------------------
  // Control messages
  // ---------------------------------------------------------------------------

  /**
   `auth_request`: a session id that is not exactly the server's is refused,
   and so is a name already in the roster; in both cases the roster is
   unchanged and the connection has no username afterwards. Otherwise the
   name joins the roster, the joiner gets a success reply, every other
   member gets `user_joined`, and the joiner gets the full name list.
   */
  function HandleAuth(s: Server, username: Name, sessionId: Option<string>, now: real): (r: (Server, Option<Name>, seq<Delivery>))
    requires Valid(s)
    ensures Valid(r.0) && r.0.sessionId == s.sessionId && r.0.files == s.files
    ensures sessionId != Some(s.sessionId) ==> r == (s, None, [ToSelf(AuthFailed(InvalidSession))])
    ensures sessionId == Some(s.sessionId) && Has(s.members, username) ==> r == (s, None, [ToSelf(AuthFailed(NameInUse))])
    ensures sessionId == Some(s.sessionId) && !Has(s.members, username) ==>
      && r.1 == Some(username)
      && Names(r.0.members) == Names(s.members) + [username]
      && |r.2| == |s.members| + 2
      && r.2[0] == ToSelf(AuthOk(username))
      && r.2[|r.2| - 1] == ToSelf(UserList(Names(s.members) + [username]))
      && (forall n :: ToMember(n, UserJoined(username)) in r.2 <==> Has(s.members, n))
  {
    if sessionId != Some(s.sessionId) then (s, None, [ToSelf(AuthFailed(InvalidSession))])
    else if Has(s.members, username) then (s, None, [ToSelf(AuthFailed(NameInUse))])
    else
      var members := Add(s.members, username, now);
      var joined := BroadcastTo(members, Some(username));
      assert |joined| == |s.members| by {
        BroadcastDistinct(members, Some(username));
        JoinedAreOthers(s.members, members, username, joined);
      }
      var out := [ToSelf(AuthOk(username))] + ToEach(joined, UserJoined(username)) + [ToSelf(UserList(Names(members)))];
      forall n
        ensures ToMember(n, UserJoined(username)) in out <==> Has(s.members, n)
      {
        ToEachMember(joined, UserJoined(username), n);
        assert Has(members, n) <==> Has(s.members, n) || n == username;
      }
      (s.(members := members), Some(username), out)
  }

  /** The members other than a newly added one are exactly the old roster, so there are as many. */
  lemma JoinedAreOthers(before: Members, members: Members, username: Name, joined: seq<Name>)
    requires Wf(before) && Names(members) == Names(before) + [username]
    requires Distinct(joined)
    requires forall n :: n in joined <==> Has(members, n) && n != username
    requires !Has(before, username)
    ensures |joined| == |before|
  {
    forall n
      ensures n in joined <==> n in Names(before)
    {
      assert Has(members, n) <==> n in Names(before) + [username];
    }
    assert Distinct(Names(before));
    DistinctSameElements(joined, Names(before));
  }

  /** Two duplicate-free sequences with the same elements have the same length. */
  lemma DistinctSameElements(a: seq<Name>, b: seq<Name>)
    requires Distinct(a) && Distinct(b)
    requires forall n :: n in a <==> n in b
    ensures |a| == |b|
  {
    assert (set n | n in a) == (set n | n in b);
    DistinctCard(a);
    DistinctCard(b);
  }

  lemma {:induction false} DistinctCard(a: seq<Name>)
    requires Distinct(a)
    ensures |set n | n in a| == |a|
  {
    if |a| > 0 {
      assert Distinct(a[1..]);
      DistinctCard(a[1..]);
      assert (set n | n in a) == {a[0]} + (set n | n in a[1..]);
      assert a[0] !in a[1..];
    } else {
      assert (set n | n in a) == {};
    }
  }

  /**
   `file_request`: a not-found error for an unavailable file. For an
   available one, `_send_file_to_user` as written raises on its first
   `create_message` (a plain string has no `.value`) and delivers nothing;
   corrected, it streams the file to the requester.
   */
  function HandleRequest(s: Server, fileId: Option<string>, fromUser: Option<Name>, v: Variant): (ds: seq<Delivery>)
    ensures !(Truthy(fileId) && Truthy(fromUser)) ==> ds == []
    ensures forall d :: d in ds ==> d.ToMember? && d.name == fromUser.value && Has(s.members, d.name)
    ensures Truthy(fileId) && Truthy(fromUser) && SF.FilePath(s.files, fileId.value).None? ==>
      ds == (if Has(s.members, fromUser.value) then [ToMember(fromUser.value, FileNotFound(fileId.value))] else [])
    ensures Truthy(fileId) && Truthy(fromUser) && SF.FilePath(s.files, fileId.value).Some? ==>
      (if v == AsWritten then ds == [] else ds == SendFile(s, fileId.value, fromUser.value))
  {
    if !(Truthy(fileId) && Truthy(fromUser)) then []
    else if SF.FilePath(s.files, fileId.value).Some? then
      if v == AsWritten then [] else SendFile(s, fileId.value, fromUser.value)
    else if Has(s.members, fromUser.value) then [ToMember(fromUser.value, FileNotFound(fileId.value))]
    else []
  }

  /** Read `i` of a file whose non-empty reads are `rs`; every read past the end is empty. */
  function ReadAt(rs: seq<Bytes>, i: nat): Bytes {
    if i < |rs| then rs[i] else []
  }

  /**
   The chunk messages of `_send_file_to_user` from index `i` on: each read
   of the file in hex, stopping at the chunk count or at the first empty
   read.
   */
  function FileChunks(fileId: string, rs: seq<Bytes>, i: nat, total: int, checksum: string): (os: seq<Out>)
    ensures |os| > 0 ==> i + |os| <= |rs|
    ensures forall k :: 0 <= k < |os| ==> os[k] == ChunkOut(fileId, i + k, total, Hex.ToHex(ReadAt(rs, i + k)), checksum)
    ensures (forall k :: 0 <= k < |rs| ==> rs[k] != []) && i <= total && i <= |rs| ==>
              |os| == (if total < |rs| then total else |rs|) - i
    decreases total - i
  {
    var chunk := ReadAt(rs, i);
    if i >= total || chunk == [] then []
    else
      var rest := FileChunks(fileId, rs, i + 1, total, checksum);
      var os := [ChunkOut(fileId, i, total, Hex.ToHex(chunk), checksum)] + rest;
      assert forall k {:trigger os[k]} :: 0 < k < |os| ==> os[k] == rest[k - 1];
      os
  }

  /**
   Sent with the chunk count of the file's own size, the chunk messages are
   the file's chunks in order, every one of them, and their bytes put back
   together are the file.
   */
  lemma FileChunksWholeFile(fileId: string, data: Bytes, checksum: string)
    ensures var os := FileChunks(fileId, Reads(data), 0, CeilChunks(|data|), checksum);
            && |os| == CeilChunks(|data|)
            && (forall k :: 0 <= k < |os| ==> os[k].hex == Hex.ToHex(ChunkOf(data, k)))
            && Concat(Reads(data)) == data
  {
    var rs := Reads(data);
    ReadsCount(data);
    ReadsConcat(data);
    var os := FileChunks(fileId, rs, 0, CeilChunks(|data|), checksum);
    forall k | 0 <= k < |os| ensures os[k].hex == Hex.ToHex(ChunkOf(data, k)) {
      ReadsAreChunks(data, k);
    }
  }

  /**
   `_send_file_to_user` for an available file, as evidently intended: every
   chunk and then `file_complete`, all to the requester, or nothing if the
   requester is not in the roster.
   */
  function SendFile(s: Server, fileId: string, user: Name): (ds: seq<Delivery>)
    requires SF.FilePath(s.files, fileId).Some?
    ensures !Has(s.members, user) ==> ds == []
    ensures Has(s.members, user) ==>
      var info := s.files.stored[fileId];
      var chunks := FileChunks(fileId, Reads(s.files.disk[SF.PathOfStored(s.files, fileId)]), 0, CeilChunks(info.fileSize), info.checksum);
      && |ds| == |chunks| + 1
      && (forall k :: 0 <= k < |chunks| ==> ds[k] == ToMember(user, chunks[k]))
      && ds[|chunks|] == ToMember(user, CompleteOut(fileId, info.checksum))
  {
    if !Has(s.members, user) then []
    else
      var info := s.files.stored[fileId];
      var data := s.files.disk[SF.PathOfStored(s.files, fileId)];
      var chunks := FileChunks(fileId, Reads(data), 0, CeilChunks(info.fileSize), info.checksum);
      ToUser(user, chunks) + [ToMember(user, CompleteOut(fileId, info.checksum))]
  }

  function ToUser(user: Name, os: seq<Out>): (ds: seq<Delivery>)
    ensures |ds| == |os| && forall k :: 0 <= k < |os| ==> ds[k] == ToMember(user, os[k])
  {
    if |os| == 0 then [] else [ToMember(user, os[0])] + ToUser(user, os[1..])
  }

  /** Which behaviour to model for the defects in the handlers. */
  datatype Variant = AsWritten | Corrected

  /** `file_id and filename and file_size`: the offer carries what the file store needs. */
  predicate OfferStorable(m: Msg)
    requires m.Offer?
  {
    Truthy(m.fileId) && Truthy(m.filename) && m.fileSize.Some? && m.fileSize.value != 0
  }

  /** `file_id and chunk_index is not None and chunk_data_hex`, and the hex text decodes. */
  predicate ChunkDecodes(m: Msg)
    requires m.Chunk?
  {
    Truthy(m.fileId) && m.chunkIndex.Some? && Truthy(m.data) && Hex.FromHex(m.data.value).Some?
  }

  /**
   `_handle_control_message`. Non-authentication messages are handled
   whether or not the connection has authenticated.
   */
  function HandleControl(s: Server, m: Msg, current: Option<Name>, now: real, sha: SF.Sha256, v: Variant)
    : (r: (Server, Option<Name>, seq<Delivery>))
    requires Valid(s)
    ensures Valid(r.0) && r.0.sessionId == s.sessionId
    ensures !m.Auth? && !m.Leave? ==> r.1 == current
    ensures m.Auth? ==> r == HandleAuth(s, m.username, m.sessionId, now)
    ensures m.Leave? ==> r == HandleLeave(s, current, v)
    // Relaying and answering messages leave the server state as it was.
    ensures m.Chat? || m.Media? || m.Screen? || m.Request? || m.Complete? || m.Unhandled? ==> r.0 == s
    ensures m.Chat? ==> Relayed(r.2, s.members, m.mode, m.fromUser, m.toUsers, Forward(m))
    ensures m.Media? && Truthy(m.streamer) && Truthy(m.mediaType) ==>
      Relayed(r.2, s.members, MessageTypes.Broadcast, m.streamer, [], Forward(m))
    ensures m.Media? && !(Truthy(m.streamer) && Truthy(m.mediaType)) ==> r.2 == []
    ensures m.Screen? ==> Relayed(r.2, s.members, MessageTypes.Broadcast, m.fromUser, [], Forward(m))
    // An offer is routed like a chat; a storable one is registered with the placeholder digest "".
    ensures m.Offer? ==> r.0.members == s.members && Relayed(r.2, s.members, m.mode, m.fromUser, m.toUsers, Forward(m))
    ensures m.Offer? && !OfferStorable(m) ==> r.0 == s
    ensures m.Offer? && OfferStorable(m) ==>
      var id := m.fileId.value;
      && id in r.0.files.stored && r.0.files.stored[id].checksum == ""
      && r.0.files.stored[id].filename == m.filename.value && r.0.files.stored[id].fileSize == m.fileSize.value
      && id in r.0.files.chunks && r.0.files.chunks[id] == map[] && r.0.files.disk == s.files.disk
    // A chunk is stored silently; one that is malformed or for a file never offered changes nothing.
    ensures m.Chunk? ==> r.2 == [] && r.0.members == s.members
    ensures m.Chunk? && !(ChunkDecodes(m) && m.fileId.value in s.files.chunks) ==> r.0 == s
    ensures m.Chunk? && ChunkDecodes(m) && v == AsWritten ==>
      r.0.files == SF.HandleChunk(s.files, m.fileId.value, m.chunkIndex.value, Hex.FromHex(m.data.value).value, sha).0
    ensures m.Chunk? && ChunkDecodes(m) && v == Corrected ==>
      r.0.files == SF.HandleChunkChecked(s.files, m.fileId.value, m.chunkIndex.value, Hex.FromHex(m.data.value).value,
                                         m.checksum, sha).0
    ensures m.Request? ==> r.2 == HandleRequest(s, m.fileId, m.fromUser, v)
    // Completion sends every member, in roster order, the list of available files.
    ensures m.Complete? ==>
      && |r.2| == |s.members|
      && forall k :: 0 <= k < |r.2| ==> r.2[k] == ToMember(s.members[k].name, FileList(SF.AvailableFiles(s.files)))
    ensures m.Ping? ==> r.2 == [ToSelf(Pong)] && r.0.members == Touch(s.members, if Truthy(current) then current else None, now)
    ensures m.Ping? ==> r.0.files == s.files
    ensures m.Unhandled? ==> r.2 == []
  {
    match m
    case Auth(username, sessionId) => HandleAuth(s, username, sessionId, now)
    case Chat(fromUser, mode, toUsers) =>
      TargetsRelayed(s.members, mode, fromUser, toUsers, Forward(m));
      (s, current, ToEach(Targets(s.members, mode, fromUser, toUsers), Forward(m)))
    case Media(_, username, mediaType) =>
      if Truthy(username) && Truthy(mediaType) then
        TargetsRelayed(s.members, MessageTypes.Broadcast, username, [], Forward(m));
        (s, current, ToEach(Targets(s.members, MessageTypes.Broadcast, username, []), Forward(m)))
      else (s, current, [])
    case Offer(fromUser, fileId, filename, fileSize, mode, toUsers) =>
      var files :=
        if OfferStorable(m) then
          SF.Offer(s.files, fileId.value, filename.value, fileSize.value, "",
                   if fromUser.Some? then fromUser.value else "", now)
        else s.files;
      TargetsRelayed(s.members, mode, fromUser, toUsers, Forward(m));
      (s.(files := files), current, ToEach(Targets(s.members, mode, fromUser, toUsers), Forward(m)))
    case Chunk(fileId, chunkIndex, data, checksum) =>
      if ChunkDecodes(m) then
        var bytes := Hex.FromHex(data.value).value;
        var files :=
          if v == AsWritten then SF.HandleChunk(s.files, fileId.value, chunkIndex.value, bytes, sha).0
          else SF.HandleChunkChecked(s.files, fileId.value, chunkIndex.value, bytes, checksum, sha).0;
        (s.(files := files), current, [])
      else (s, current, [])
    case Request(fileId, fromUser) => (s, current, HandleRequest(s, fileId, fromUser, v))
    case Complete(_) => (s, current, ToEach(Names(s.members), FileList(SF.AvailableFiles(s.files))))
    case Ping =>
      (s.(members := Touch(s.members, if Truthy(current) then current else None, now)), current, [ToSelf(Pong)])
    case Screen(fromUser) =>
      TargetsRelayed(s.members, MessageTypes.Broadcast, fromUser, [], Forward(m));
      (s, current, ToEach(Targets(s.members, MessageTypes.Broadcast, fromUser, []), Forward(m)))
    case Leave => HandleLeave(s, current, v)
    case Unhandled => (s, current, [])
  }

  /** `user_left` notices as deliveries. */
  function LeftDeliveries(ns: seq<LeftNotice>): (ds: seq<Delivery>)
    ensures |ds| == |ns| && forall k :: 0 <= k < |ns| ==> ds[k] == ToMember(ns[k].to, UserLeft(ns[k].left))
  {
    if |ns| == 0 then [] else [ToMember(ns[0].to, UserLeft(ns[0].left))] + LeftDeliveries(ns[1..])
  }

  /**
   `leave_session`. As written the handler only forgets the connection's
   username (so the close that follows removes nobody); the corrected
   handler removes the member and notifies the others first.
   */
  function HandleLeave(s: Server, current: Option<Name>, v: Variant): (r: (Server, Option<Name>, seq<Delivery>))
    requires Valid(s)
    ensures Valid(r.0) && r.0.sessionId == s.sessionId && r.1 == None
    ensures v == AsWritten ==> r.0 == s && r.2 == []
    ensures v == Corrected && Truthy(current) ==>
      && r.0.members == Without(s.members, current.value)
      && |r.2| == |r.0.members|
      && forall k :: 0 <= k < |r.2| ==> r.2[k] == ToMember(r.0.members[k].name, UserLeft(current.value))
  {
    if v == Corrected && Truthy(current) then
      var (members, notices) := RemoveClient(s.members, current.value);
      (s.(members := members), None, LeftDeliveries(notices))
    else (s, None, [])
  }

  /** The `finally` of `_handle_tcp_client`: remove the connection's member if it still has a username. */
  function Close(s: Server, current: Option<Name>): (r: (Server, seq<Delivery>))
    requires Valid(s)
    ensures Valid(r.0) && r.0.sessionId == s.sessionId
    ensures Truthy(current) ==> r.0.members == Without(s.members, current.value)
    ensures !Truthy(current) ==> r == (s, [])
  {
    if Truthy(current) then
      var (members, notices) := RemoveClient(s.members, current.value);
      (s.(members := members), LeftDeliveries(notices))
    else (s, [])
  }

  /** The frame bodies of one `recv`, handled in order; bodies that do not decode are skipped. */
  function HandleBodies(s: Server, current: Option<Name>, bodies: seq<Bytes>, now: real,
                        decode: Bytes -> Option<Msg>, sha: SF.Sha256, v: Variant)
    : (r: (Server, Option<Name>, seq<Delivery>))
    requires Valid(s)
    ensures Valid(r.0) && r.0.sessionId == s.sessionId
    decreases |bodies|
  {
    if |bodies| == 0 then (s, current, [])
    else
      var (s1, c1, out1) :=
        match decode(bodies[0])
        case None => (s, current, [])
        case Some(m) => HandleControl(s, m, current, now, sha, v);
      var (s2, c2, out2) := HandleBodies(s1, c1, bodies[1..], now, decode, sha, v);
      (s2, c2, out1 + out2)
  }

  /**
   The receive loop of `_handle_tcp_client`: each `recv` (with its arrival
   time) is appended to the buffer, every complete frame is handled and the
   remainder is kept; an empty `recv` (the peer closed) ends the loop.
   */
  function Serve(s: Server, current: Option<Name>, buffer: Bytes, recvs: seq<(real, Bytes)>,
                 decode: Bytes -> Option<Msg>, sha: SF.Sha256, v: Variant)
    : (r: (Server, Option<Name>, seq<Delivery>))
    requires Valid(s)
    ensures Valid(r.0) && r.0.sessionId == s.sessionId
    ensures |recvs| > 0 && recvs[0].1 == [] ==> r == (s, current, [])
    decreases |recvs|
  {
    if |recvs| == 0 || recvs[0].1 == [] then (s, current, [])
    else
      var (bodies, rest) := Framing.SplitFrames(buffer + recvs[0].1);
      var (s1, c1, out1) := HandleBodies(s, current, bodies, recvs[0].0, decode, sha, v);
      var (s2, c2, out2) := Serve(s1, c1, rest, recvs[1..], decode, sha, v);
      (s2, c2, out1 + out2)
  }

  /** A whole connection: serve every `recv`, then close. */
  function Connection(s: Server, recvs: seq<(real, Bytes)>, decode: Bytes -> Option<Msg>, sha: SF.Sha256, v: Variant)
    : (r: (Server, seq<Delivery>))
    requires Valid(s)
    ensures Valid(r.0) && r.0.sessionId == s.sessionId
  {
    var (s1, c1, out1) := Serve(s, None, [], recvs, decode, sha, v);
    var (s2, out2) := Close(s1, c1);
    (s2, out1 + out2)
  }

  /**
   As written, a member that authenticates and then sends `leave_session`
   is still in the roster after its connection closes: the leave handler
   forgets the username and the close has nobody to remove.
   */
  lemma LeaveKeepsMember(s: Server, name: Name, now: real, later: real, sha: SF.Sha256)
    requires Valid(s) && name != "" && !Has(s.members, name)
    ensures var (s1, c1, _) := HandleControl(s, Auth(name, Some(s.sessionId)), None, now, sha, AsWritten);
            var (s2, c2, _) := HandleControl(s1, Leave, c1, later, sha, AsWritten);
            Has(Close(s2, c2).0.members, name)
  {
    var (s1, c1, _) := HandleControl(s, Auth(name, Some(s.sessionId)), None, now, sha, AsWritten);
    assert Names(s1.members) == Names(s.members) + [name];
    assert Names(s1.members)[|s.members|] == name;
  }

  /**
   Corrected, the same member is gone once it leaves, and every member
   still present is told.
   */
  lemma LeaveRemovesMember(s: Server, name: Name, now: real, later: real, sha: SF.Sha256)
    requires Valid(s) && name != "" && !Has(s.members, name)
    ensures var (s1, c1, _) := HandleControl(s, Auth(name, Some(s.sessionId)), None, now, sha, Corrected);
            var (s2, c2, out) := HandleControl(s1, Leave, c1, later, sha, Corrected);
            && !Has(Close(s2, c2).0.members, name)
            && Close(s2, c2).0.members == s.members
            && |out| == |s.members|
            && forall k :: 0 <= k < |s.members| ==> out[k] == ToMember(s.members[k].name, UserLeft(name))
  {
    var (s1, c1, _) := HandleControl(s, Auth(name, Some(s.sessionId)), None, now, sha, Corrected);
    assert (s1, c1) == (s.(members := s.members + [Client(name, None, now)]), Some(name));
    WithoutAppended(s.members, Client(name, None, now));
    assert HandleControl(s1, Leave, c1, later, sha, Corrected) == HandleLeave(s1, c1, Corrected);
  }

  /** Removing the entry just appended gives the roster back. */
  lemma {:induction false} WithoutAppended(r: Members, c: Client)
    requires !Has(r, c.name)
    ensures Without(r + [c], c.name) == r
  {
    if |r| > 0 {
      assert (r + [c])[1..] == r[1..] + [c];
      assert Names(r) == [r[0].name] + Names(r[1..]);
      WithoutAppended(r[1..], c);
    }
  }

  /**
   As written, a file offered over the control channel is registered with
   an empty digest, so uploading all of its chunks never makes it
   available: the offer is followed by chunk messages for chunks `0 .. n - 1`.
   */
  lemma OfferedUploadUnavailable(s: Server, from: Name, fileId: string, filename: string, data: Bytes,
                                 now: real, sha: SF.Sha256)
    requires Valid(s) && fileId != "" && filename != "" && |data| > 0
    ensures var (s1, _, _) := HandleControl(s, Offer(Some(from), Some(fileId), Some(filename), Some(|data|),
                                                     MessageTypes.Broadcast, []), None, now, sha, AsWritten);
            SF.FilePath(SF.Deliver(s1.files, fileId, data, 0, sha), fileId).None?
  {
    var (s1, _, _) := HandleControl(s, Offer(Some(from), Some(fileId), Some(filename), Some(|data|),
                                             MessageTypes.Broadcast, []), None, now, sha, AsWritten);
    RangeSetSize(0, 0);
    SF.UploadNeverAvailable(s1.files, fileId, data, 0, sha);
  }

  /** Corrected, the same upload (chunks carrying the file's digest) leaves the file available with its exact bytes. */
  lemma OfferedUploadAvailable(s: Server, from: Name, fileId: string, filename: string, data: Bytes,
                               now: real, sha: SF.Sha256)
    requires Valid(s) && fileId != "" && filename != "" && |data| > 0
    ensures var (s1, _, _) := HandleControl(s, Offer(Some(from), Some(fileId), Some(filename), Some(|data|),
                                                     MessageTypes.Broadcast, []), None, now, sha, Corrected);
            var files := SF.DeliverChecked(s1.files, fileId, data, 0, sha);
            && SF.FilePath(files, fileId) == Some(SF.PathOf(fileId, filename))
            && files.disk[SF.PathOf(fileId, filename)] == data
  {
    var (s1, _, _) := HandleControl(s, Offer(Some(from), Some(fileId), Some(filename), Some(|data|),
                                             MessageTypes.Broadcast, []), None, now, sha, Corrected);
    SF.UploadAssembles(s1.files, fileId, data, 0, sha);
  }

  /**
   As written, a member's request for an available file is answered with
   nothing at all: `_send_file_to_user` raises before its first send.
   */
  lemma RequestDeliversNothing(s: Server, fileId: string, user: Name, current: Option<Name>, now: real, sha: SF.Sha256)
    requires Valid(s) && fileId != "" && user != "" && Has(s.members, user)
    requires SF.FilePath(s.files, fileId).Some?
    ensures HandleControl(s, Request(Some(fileId), Some(user)), current, now, sha, AsWritten) == (s, current, [])
  {
  }

  /**
   Corrected, a member's request for an available file whose stored size is
   its size on disk streams it to the requester: one message per chunk, the
   k-th carrying chunk k in hex, then `file_complete` with the digest.
   */
  lemma CorrectedRequestStreamsFile(s: Server, fileId: string, user: Name, current: Option<Name>, now: real,
                                    sha: SF.Sha256)
    requires Valid(s) && fileId != "" && user != "" && Has(s.members, user)
    requires SF.FilePath(s.files, fileId).Some?
    requires |s.files.disk[SF.PathOfStored(s.files, fileId)]| == s.files.stored[fileId].fileSize
    ensures var ds := HandleControl(s, Request(Some(fileId), Some(user)), current, now, sha, Corrected).2;
            var data := s.files.disk[SF.PathOfStored(s.files, fileId)];
            && |ds| == CeilChunks(|data|) + 1
            && (forall k :: 0 <= k < CeilChunks(|data|) ==>
                  ds[k].ToMember? && ds[k].name == user && ds[k].out.ChunkOut? && ds[k].out.index == k
                  && ds[k].out.hex == Hex.ToHex(ChunkOf(data, k)))
            && ds[CeilChunks(|data|)] == ToMember(user, CompleteOut(fileId, s.files.stored[fileId].checksum))
  {
    var data := s.files.disk[SF.PathOfStored(s.files, fileId)];
    var info := s.files.stored[fileId];
    FileChunksWholeFile(fileId, data, info.checksum);
  }

  // ---------------------------------------------------------------------------
  // UDP relay
  // ---------------------------------------------------------------------------

  /**
   One datagram of `_udp_receive_loop`: a datagram that does not unpack is
   dropped; stream id 0 is a hello and is never relayed; any other stream id
   is attributed by `LearnUdpAddress`, and a packet from an identified sender
   is sent unchanged to the learned address of every other member.
   `utf8` decodes a hello payload (`None` when it is not valid UTF-8).
   */
  function HandleDatagram(s: Server, data: Bytes, from: Addr, hash: StringHash, utf8: Bytes -> Option<string>)
    : (r: (Server, seq<(Addr, Bytes)>))
    requires Valid(s)
    ensures Valid(r.0) && r.0.sessionId == s.sessionId && r.0.files == s.files
    ensures Names(r.0.members) == Names(s.members)
    ensures forall k :: 0 <= k < |r.1| ==> r.1[k].1 == data
    ensures UdpPacket.Unpack(data).None? ==> r == (s, [])
    ensures UdpPacket.Unpack(data).Some? && UdpPacket.Unpack(data).value.streamId == 0 ==>
      r == (s.(members := HandleHello(s.members, utf8(UdpPacket.Unpack(data).value.payload), from)), [])
    ensures UdpPacket.Unpack(data).Some? && UdpPacket.Unpack(data).value.streamId != 0 ==>
      var (members, sender) := LearnUdpAddress(hash, s.members, UdpPacket.Unpack(data).value.streamId, from);
      && r.0.members == members
      && (Truthy(sender) ==> r.1 == Packets(RelayTargets(members, sender.value), data))
      && (!Truthy(sender) ==> r.1 == [])
  {
    match UdpPacket.Unpack(data)
    case None => (s, [])
    case Some(p) =>
      if p.streamId == 0 then (s.(members := HandleHello(s.members, utf8(p.payload), from)), [])
      else
        var (members, sender) := LearnUdpAddress(hash, s.members, p.streamId, from);
        assert Wf(members) by {
          assert forall i :: 0 <= i < |members| ==> members[i].name == Names(members)[i];
        }
        if Truthy(sender) then (s.(members := members), Packets(RelayTargets(members, sender.value), data))
        else (s.(members := members), [])
  }

  /** `data` once to each address, in order. */
  function Packets(to: seq<Addr>, data: Bytes): (ps: seq<(Addr, Bytes)>)
    ensures |ps| == |to| && forall k :: 0 <= k < |to| ==> ps[k] == (to[k], data)
  {
    if |to| == 0 then [] else [(to[0], data)] + Packets(to[1..], data)
  }

  /** `_heartbeat_loop`'s check at time `now`, with its `user_left` notices. */
  function Heartbeat(s: Server, now: real): (r: (Server, seq<Delivery>))
    requires Valid(s)
    ensures Valid(r.0) && r.0.sessionId == s.sessionId && r.0.files == s.files
    ensures forall c :: c in r.0.members <==> c in s.members && !TimedOut(c, now)
    // One `user_left` per staged notice: each expired name, in roster order, to every member left after it.
    ensures var ns := StagedNotices(s.members, Expired(s.members, now), 0);
            |r.1| == |ns| && forall k :: 0 <= k < |ns| ==> r.1[k] == ToMember(ns[k].to, UserLeft(ns[k].left))
  {
    var (members, notices) := EvictStale(s.members, now);
    (s.(members := members), LeftDeliveries(notices))
  }

  // ---------------------------------------------------------------------------
  // Port probe
  // ---------------------------------------------------------------------------

  /**
   `find_available_port`: the first of `start .. start + 9` that `isFree`
   accepts, or `start` itself when none is (the bind that follows then
   fails). `isFree` stands for the test bind.
   */
  method FindAvailablePort(start: int, isFree: int -> bool) returns (port: int)
    ensures start <= port < start + 10
    ensures (exists p :: start <= p < start + 10 && isFree(p)) ==>
      isFree(port) && forall q :: start <= q < port ==> !isFree(q)
    ensures (forall p :: start <= p < start + 10 ==> !isFree(p)) ==> port == start
  {
    var candidate := start;
    while candidate < start + 10
      invariant start <= candidate <= start + 10
      invariant forall q :: start <= q < candidate ==> !isFree(q)
    {
      if isFree(candidate) {
        return candidate;
      }
      candidate := candidate + 1;
    }
    return start;
  }
}
