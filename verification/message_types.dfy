/**
 The `type` discriminator of control messages (`MessageType`) and the
 addressing modes of chat and file offers (`CommunicationMode`).
 */
module MessageTypes {
  import opened Basics

  datatype MessageType =
    | AuthRequest | AuthResponse | JoinSession | LeaveSession | SessionUpdate
    | ChatMessage
    | FileOffer | FileRequest | FileChunk | FileComplete | FileList
    | MediaStart | MediaStop | ScreenShareStart | ScreenShareStop | ScreenFrame
    | UserJoined | UserLeft | UserList
    | Ping | Pong
    | Error

  /** The wire value of each member. */
  function Tag(t: MessageType): string {
    match t
    case AuthRequest => "auth_request"
    case AuthResponse => "auth_response"
    case JoinSession => "join_session"
    case LeaveSession => "leave_session"
    case SessionUpdate => "session_update"
    case ChatMessage => "chat_message"
    case FileOffer => "file_offer"
    case FileRequest => "file_request"
    case FileChunk => "file_chunk"
    case FileComplete => "file_complete"
    case FileList => "file_list"
    case MediaStart => "media_start"
    case MediaStop => "media_stop"
    case ScreenShareStart => "screen_share_start"
    case ScreenShareStop => "screen_share_stop"
    case ScreenFrame => "screen_frame"
    case UserJoined => "user_joined"
    case UserLeft => "user_left"
    case UserList => "user_list"
    case Ping => "ping"
    case Pong => "pong"
    case Error => "error"
  }

  /** `MessageType(s)`: the member whose value is `s`, or `None` for an unrecognised tag. */
  function Parse(s: string): (r: Option<MessageType>)
    ensures r.Some? ==> Tag(r.value) == s
  {
    if s == "auth_request" then Some(AuthRequest) else
    if s == "auth_response" then Some(AuthResponse) else
    if s == "join_session" then Some(JoinSession) else
    if s == "leave_session" then Some(LeaveSession) else
    if s == "session_update" then Some(SessionUpdate) else
    if s == "chat_message" then Some(ChatMessage) else
    if s == "file_offer" then Some(FileOffer) else
    if s == "file_request" then Some(FileRequest) else
    if s == "file_chunk" then Some(FileChunk) else
    if s == "file_complete" then Some(FileComplete) else
    if s == "file_list" then Some(FileList) else
    if s == "media_start" then Some(MediaStart) else
    if s == "media_stop" then Some(MediaStop) else
    if s == "screen_share_start" then Some(ScreenShareStart) else
    if s == "screen_share_stop" then Some(ScreenShareStop) else
    if s == "screen_frame" then Some(ScreenFrame) else
    if s == "user_joined" then Some(UserJoined) else
    if s == "user_left" then Some(UserLeft) else
    if s == "user_list" then Some(UserList) else
    if s == "ping" then Some(Ping) else
    if s == "pong" then Some(Pong) else
    if s == "error" then Some(Error) else
    None
  }

  /** Distinct members have distinct wire values, so every value parses back to its member. */
  lemma ParseTag(t: MessageType)
    ensures Parse(Tag(t)) == Some(t)
  {
    match Group(t)
    case 0 => ParseTag0(t);
    case 1 => ParseTag1(t);
    case 2 => ParseTag2(t);
    case _ => ParseTag3(t);
  }

  /** Where a member sits among the tests of `Parse`, in four runs of consecutive members. */
  function Group(t: MessageType): nat {
    match t
    case AuthRequest => 0
    case AuthResponse => 0
    case JoinSession => 0
    case LeaveSession => 0
    case SessionUpdate => 0
    case ChatMessage => 0
    case FileOffer => 0
    case FileRequest => 0
    case FileChunk => 1
    case FileComplete => 1
    case FileList => 1
    case MediaStart => 1
    case MediaStop => 1
    case ScreenShareStart => 1
    case ScreenShareStop => 2
    case ScreenFrame => 2
    case UserJoined => 2
    case UserLeft => 2
    case UserList => 3
    case Ping => 3
    case Pong => 3
    case Error => 3
  }

  lemma ParseTag0(t: MessageType)
    requires Group(t) == 0
    ensures Parse(Tag(t)) == Some(t)
  {
    match t
    case AuthRequest =>
    case AuthResponse =>
    case JoinSession =>
    case LeaveSession =>
    case SessionUpdate =>
    case ChatMessage =>
    case FileOffer =>
    case FileRequest =>
    case _ =>
  }

  lemma ParseTag1(t: MessageType)
    requires Group(t) == 1
    ensures Parse(Tag(t)) == Some(t)
  {
    match t
    case FileChunk =>
    case FileComplete =>
    case FileList =>
    case MediaStart =>
    case MediaStop =>
    case ScreenShareStart =>
    case _ =>
  }

  lemma ParseTag2(t: MessageType)
    requires Group(t) == 2
    ensures Parse(Tag(t)) == Some(t)
  {
    match t
    case ScreenShareStop =>
    case ScreenFrame =>
    case UserJoined =>
    case UserLeft =>
    case _ =>
  }

  lemma ParseTag3(t: MessageType)
    requires Group(t) == 3
    ensures Parse(Tag(t)) == Some(t)
  {
    match t
    case UserList =>
    case Ping =>
    case Pong =>
    case Error =>
    case _ =>
  }

  /** `CommunicationMode`; any other string routes nowhere. */
  datatype Mode = Broadcast | Multicast | Unicast | OtherMode(name: string)
}
