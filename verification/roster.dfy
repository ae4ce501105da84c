/**
 The relay server's roster, `LANServer.clients`: an insertion-ordered map
 from username to `ClientConnection`, written as a sequence of entries with
 distinct names (Python dicts iterate in insertion order, and that order
 decides both the `user_list` reply and which member `_learn_udp_address`
 finds first). Sockets are not modelled; a member is addressed by name.
 */
module Roster {
  import opened Basics
  import opened StreamIds

  type Name = string

  /** A UDP peer address `(host, port)`. */
  datatype Addr = Addr(host: string, port: int)

  /** `ClientConnection`: the learned UDP address and the last heartbeat time (seconds). */
  datatype Client = Client(name: Name, udpAddress: Option<Addr>, lastHeartbeat: real)

  type Members = seq<Client>

  /** `clients.keys()`, in insertion order. */
  function Names(r: Members): (ns: seq<Name>)
    ensures |ns| == |r|
    ensures forall i :: 0 <= i < |r| ==> ns[i] == r[i].name
  {
    if |r| == 0 then [] else [r[0].name] + Names(r[1..])
  }

  /** Usernames are keys: no two entries share one. */
  predicate Wf(r: Members) {
    forall i, j :: 0 <= i < j < |r| ==> r[i].name != r[j].name
  }

  /** `username in self.clients`. */
  predicate Has(r: Members, name: Name) {
    name in Names(r)
  }

  /** Registers a new member with no UDP address yet, at the end of the iteration order. */
  function Add(r: Members, name: Name, now: real): (r': Members)
    requires Wf(r) && !Has(r, name)
    ensures Wf(r') && Names(r') == Names(r) + [name]
    ensures r'[|r|] == Client(name, None, now)
  {
    r + [Client(name, None, now)]
  }

  /** `del self.clients[name]` if present. */
  function Without(r: Members, name: Name): (r': Members)
    ensures forall c :: c in r' <==> c in r && c.name != name
    ensures Wf(r) ==> Wf(r')
    ensures !Has(r, name) ==> r' == r
    ensures Has(r', name) == false
  {
    if |r| == 0 then []
    else if r[0].name == name then Without(r[1..], name)
    else [r[0]] + Without(r[1..], name)
  }

  /** Deleting twice is deleting once. */
  lemma WithoutIdempotent(r: Members, name: Name)
    ensures Without(Without(r, name), name) == Without(r, name)
  {
  }

  /** Deleting one name leaves every other name's membership as it was. */
  lemma {:induction false} WithoutNames(r: Members, name: Name, other: Name)
    requires other != name
    ensures Has(Without(r, name), other) <==> Has(r, other)
  {
    var r' := Without(r, name);
    HasEntry(r, other);
    HasEntry(r', other);
    assert (exists c :: c in r' && c.name == other) <==> (exists c :: c in r && c.name == other);
  }

  /** A name is in the roster exactly when some entry carries it. */
  lemma HasEntry(r: Members, name: Name)
    ensures Has(r, name) <==> exists c :: c in r && c.name == name
  {
    if Has(r, name) {
      var i :| 0 <= i < |r| && Names(r)[i] == name;
      assert r[i] in r;
    }
  }

  // ---------------------------------------------------------------------------
  // Recipient sets of the three addressing modes
  // ---------------------------------------------------------------------------

  /** `_broadcast_message(exclude)`: every member in roster order except `exclude`. */
  function BroadcastTo(r: Members, exclude: Option<Name>): (to: seq<Name>)
    ensures forall n :: n in to <==> Has(r, n) && exclude != Some(n)
    ensures |to| <= |r|
    ensures exclude.None? ==> to == Names(r)
  {
    if |r| == 0 then []
    else
      var rest := BroadcastTo(r[1..], exclude);
      assert Names(r) == [r[0].name] + Names(r[1..]);
      if exclude == Some(r[0].name) then rest else [r[0].name] + rest
  }

  /** No element occurs twice. */
  predicate Distinct<T(==)>(s: seq<T>) {
    forall i, j :: 0 <= i < j < |s| ==> s[i] != s[j]
  }

  lemma ConsDistinct<T>(x: T, s: seq<T>)
    requires x !in s && Distinct(s)
    ensures Distinct([x] + s)
  {
  }

  /** Broadcast never reaches a member twice. */
  lemma {:induction false} BroadcastDistinct(r: Members, exclude: Option<Name>)
    requires Wf(r)
    ensures Distinct(BroadcastTo(r, exclude))
  {
    if |r| > 0 {
      var rest := BroadcastTo(r[1..], exclude);
      assert Wf(r[1..]);
      BroadcastDistinct(r[1..], exclude);
      assert Names(r[1..]) == Names(r)[1..];
      assert !Has(r[1..], r[0].name);
      if exclude != Some(r[0].name) {
        ConsDistinct(r[0].name, rest);
      }
    }
  }

  /** `_multicast_message`: each listed target present in the roster, in list order. */
  function MulticastTo(r: Members, targets: seq<Name>): (to: seq<Name>)
    ensures forall n :: n in to <==> n in targets && Has(r, n)
    ensures |to| <= |targets|
    // A target listed twice is sent to twice; an absent one not at all.
    ensures forall n :: multiset(to)[n] == if Has(r, n) then multiset(targets)[n] else 0
  {
    if |targets| == 0 then []
    else
      var rest := MulticastTo(r, targets[1..]);
      assert targets == [targets[0]] + targets[1..];
      assert multiset(targets) == multiset{targets[0]} + multiset(targets[1..]);
      if Has(r, targets[0]) then [targets[0]] + rest else rest
  }

  /** `_unicast_message`: the target alone, if present. */
  function UnicastTo(r: Members, target: Name): (to: seq<Name>)
    ensures to == (if Has(r, target) then [target] else [])
  {
    if Has(r, target) then [target] else []
  }

  // ---------------------------------------------------------------------------
  // UDP address learning and relay
  // ---------------------------------------------------------------------------

  /** The member's expected audio or video stream id is `streamId`. */
  predicate ClaimsStream(hash: StringHash, c: Client, streamId: int) {
    streamId == GenerateStreamId(hash, c.name, Audio) || streamId == GenerateStreamId(hash, c.name, Video)
  }

  /** One iteration of `_learn_udp_address`'s loop returns at this member. */
  predicate Identifies(hash: StringHash, c: Client, streamId: int, addr: Addr) {
    ClaimsStream(hash, c, streamId) || c.udpAddress == Some(addr)
  }

  /** The first index at or after `from` whose member the loop returns at. */
  function FirstIdentified(hash: StringHash, r: Members, streamId: int, addr: Addr, from: nat): (k: Option<nat>)
    requires from <= |r|
    ensures k.Some? ==> from <= k.value < |r| && Identifies(hash, r[k.value], streamId, addr)
    ensures k.Some? ==> forall i :: from <= i < k.value ==> !Identifies(hash, r[i], streamId, addr)
    ensures k.None? ==> forall i :: from <= i < |r| ==> !Identifies(hash, r[i], streamId, addr)
    decreases |r| - from
  {
    if from == |r| then None
    else if Identifies(hash, r[from], streamId, addr) then Some(from)
    else FirstIdentified(hash, r, streamId, addr, from + 1)
  }

  /**
   `_learn_udp_address`: a single pass in roster order that stops at the
   first member whose expected stream id matches (its address is then set to
   the source) or whose learned address already equals the source.
   */
  function LearnUdpAddress(hash: StringHash, r: Members, streamId: int, addr: Addr): (res: (Members, Option<Name>))
    ensures |res.0| == |r| && Names(res.0) == Names(r)
    ensures res.1.None? <==> forall i :: 0 <= i < |r| ==> !Identifies(hash, r[i], streamId, addr)
    ensures res.1.None? ==> res.0 == r
    ensures res.1.Some? ==> exists k :: (
      && 0 <= k < |r| && r[k].name == res.1.value
      && Identifies(hash, r[k], streamId, addr)
      && (forall i :: 0 <= i < k ==> !Identifies(hash, r[i], streamId, addr))
      && (ClaimsStream(hash, r[k], streamId) ==> res.0 == r[k := r[k].(udpAddress := Some(addr))])
      && (!ClaimsStream(hash, r[k], streamId) ==> res.0 == r))
  {
    match FirstIdentified(hash, r, streamId, addr, 0)
    case None => (r, None)
    case Some(k) =>
      var r' := if ClaimsStream(hash, r[k], streamId) then r[k := r[k].(udpAddress := Some(addr))] else r;
      assert Names(r') == Names(r);
      (r', Some(r[k].name))
  }

  /** Sets the UDP address of the member called `name`, leaving everything else as it was. */
  function SetUdpAddress(r: Members, name: Name, addr: Addr): (r': Members)
    ensures |r'| == |r| && Names(r') == Names(r)
    ensures forall i :: 0 <= i < |r| ==>
      r'[i] == (if r[i].name == name then r[i].(udpAddress := Some(addr)) else r[i])
  {
    if |r| == 0 then []
    else [if r[0].name == name then r[0].(udpAddress := Some(addr)) else r[0]] + SetUdpAddress(r[1..], name, addr)
  }

  const HelloPrefix: string := "HELLO:"

  /**
   `_handle_udp_hello`, given the payload decoded as UTF-8 (`None` when it is
   not valid UTF-8, which the source swallows): `HELLO:<name>` sets the
   address of an existing member and is otherwise ignored.
   */
  function HandleHello(r: Members, text: Option<string>, addr: Addr): (r': Members)
    ensures Names(r') == Names(r)
    ensures (text.Some? && |text.value| >= 6 && text.value[..6] == HelloPrefix && Has(r, text.value[6..]))
        ==> r' == SetUdpAddress(r, text.value[6..], addr)
    ensures !(text.Some? && |text.value| >= 6 && text.value[..6] == HelloPrefix && Has(r, text.value[6..]))
        ==> r' == r
  {
    if text.Some? && |text.value| >= 6 && text.value[..6] == HelloPrefix && Has(r, text.value[6..])
    then SetUdpAddress(r, text.value[6..], addr)
    else r
  }

  /** `_relay_udp_packet`: the learned addresses of every member other than the sender. */
  function RelayTargets(r: Members, sender: Name): (to: seq<Addr>)
    ensures forall a :: a in to <==> exists c :: c in r && c.name != sender && c.udpAddress == Some(a)
  {
    if |r| == 0 then []
    else
      var rest := RelayTargets(r[1..], sender);
      assert forall c :: c in r <==> c == r[0] || c in r[1..];
      if r[0].name != sender && r[0].udpAddress.Some? then [r[0].udpAddress.value] + rest else rest
  }

  // ---------------------------------------------------------------------------
  // Heartbeat eviction
  // ---------------------------------------------------------------------------

  const HeartbeatInterval: real := 30.0
  const HeartbeatTimeout: real := 90.0

  /** `current_time - client.last_heartbeat > HEARTBEAT_TIMEOUT`. */
  predicate TimedOut(c: Client, now: real) {
    now - c.lastHeartbeat > HeartbeatTimeout
  }

  /** The names the heartbeat loop collects, in roster order. */
  function Expired(r: Members, now: real): (ns: seq<Name>)
    ensures forall n :: n in ns <==> exists c :: c in r && c.name == n && TimedOut(c, now)
  {
    if |r| == 0 then []
    else
      assert forall c :: c in r <==> c == r[0] || c in r[1..];
      (if TimedOut(r[0], now) then [r[0].name] else []) + Expired(r[1..], now)
  }

  /** The members that have not timed out, in roster order. */
  function Live(r: Members, now: real): (r': Members)
    ensures forall c :: c in r' <==> c in r && !TimedOut(c, now)
  {
    if |r| == 0 then []
    else
      assert forall c :: c in r <==> c == r[0] || c in r[1..];
      (if TimedOut(r[0], now) then [] else [r[0]]) + Live(r[1..], now)
  }

  /** The entries whose names are not listed. */
  function FilterOut(r: Members, ns: seq<Name>): (r': Members) {
    if |r| == 0 then []
    else (if r[0].name in ns then [] else [r[0]]) + FilterOut(r[1..], ns)
  }

  /** A `user_left` notice delivered to a remaining member. */
  datatype LeftNotice = LeftNotice(to: Name, left: Name)

  /** `_remove_client`: delete the entry (if any), then tell every remaining member. */
  function RemoveClient(r: Members, name: Name): (res: (Members, seq<LeftNotice>))
    ensures res.0 == Without(r, name)
    ensures |res.1| == |res.0|
    ensures forall i :: 0 <= i < |res.1| ==> res.1[i] == LeftNotice(res.0[i].name, name)
  {
    var r' := Without(r, name);
    (r', Notices(Names(r'), name))
  }

  function Notices(to: seq<Name>, left: Name): (ns: seq<LeftNotice>)
    ensures |ns| == |to| && forall i :: 0 <= i < |to| ==> ns[i] == LeftNotice(to[i], left)
  {
    if |to| == 0 then [] else [LeftNotice(to[0], left)] + Notices(to[1..], left)
  }

  /** `_remove_client` applied to each name in turn. */
  function RemoveEach(r: Members, ns: seq<Name>): (res: (Members, seq<LeftNotice>))
    decreases |ns|
  {
    if |ns| == 0 then (r, [])
    else
      var (r1, out1) := RemoveClient(r, ns[0]);
      var (r2, out2) := RemoveEach(r1, ns[1..]);
      (r2, out1 + out2)
  }

  lemma {:induction false} FilterOutWithout(r: Members, x: Name, ns: seq<Name>)
    ensures FilterOut(Without(r, x), ns) == FilterOut(r, [x] + ns)
  {
    if |r| > 0 {
      FilterOutWithout(r[1..], x, ns);
    }
  }

  lemma {:induction false} RemoveEachFilters(r: Members, ns: seq<Name>)
    ensures RemoveEach(r, ns).0 == FilterOut(r, ns)
    decreases |ns|
  {
    if |ns| == 0 {
      FilterOutNothing(r);
    } else {
      RemoveEachFilters(Without(r, ns[0]), ns[1..]);
      FilterOutWithout(r, ns[0], ns[1..]);
      assert [ns[0]] + ns[1..] == ns;
    }
  }

  lemma {:induction false} FilterOutNothing(r: Members)
    ensures FilterOut(r, []) == r
  {
    if |r| > 0 {
      FilterOutNothing(r[1..]);
    }
  }

  lemma {:induction false} FilterOutIrrelevant(r: Members, x: Name, ns: seq<Name>)
    requires !Has(r, x)
    ensures FilterOut(r, [x] + ns) == FilterOut(r, ns)
  {
    if |r| > 0 {
      assert Names(r) == [r[0].name] + Names(r[1..]);
      FilterOutIrrelevant(r[1..], x, ns);
    }
  }

  lemma {:induction false} FilterExpiredIsLive(r: Members, now: real)
    requires Wf(r)
    ensures FilterOut(r, Expired(r, now)) == Live(r, now)
  {
    if |r| > 0 {
      var c := r[0];
      var rest := r[1..];
      assert Wf(rest);
      assert !Has(rest, c.name);
      FilterExpiredIsLive(rest, now);
      var ex := Expired(rest, now);
      assert c.name !in ex;
      if TimedOut(c, now) {
        assert Expired(r, now) == [c.name] + ex;
        FilterOutIrrelevant(rest, c.name, ex);
      } else {
        assert Expired(r, now) == ex;
      }
    }
  }

  /**
   The notices of removing the names `ex[j..]` one after another: the
   removal of `ex[i]` tells, in roster order, every member of `r` whose name
   is none of `ex[0]`, ..., `ex[i]`.
   */
  function StagedNotices(r: Members, ex: seq<Name>, j: nat): (ns: seq<LeftNotice>)
    requires j <= |ex|
    decreases |ex| - j
  {
    if j == |ex| then []
    else Notices(Names(FilterOut(r, ex[..j + 1])), ex[j]) + StagedNotices(r, ex, j + 1)
  }

  /** Removing a name from a filtered roster filters that name too. */
  lemma {:induction false} WithoutFilterOut(r: Members, ns: seq<Name>, x: Name)
    ensures Without(FilterOut(r, ns), x) == FilterOut(r, ns + [x])
  {
    if |r| > 0 {
      var f := FilterOut(r, ns);
      var f' := FilterOut(r[1..], ns);
      WithoutFilterOut(r[1..], ns, x);
      assert r[0].name in ns + [x] <==> r[0].name in ns || r[0].name == x;
      if r[0].name !in ns {
        assert f == [r[0]] + f';
        assert f[0] == r[0] && f[1..] == f';
      } else {
        assert f == f';
      }
    }
  }

  /** One step of `RemoveEach`: the first removal's notices, then the rest. */
  lemma RemoveEachStep(r: Members, ns: seq<Name>)
    requires |ns| > 0
    ensures RemoveEach(r, ns).1
         == Notices(Names(Without(r, ns[0])), ns[0]) + RemoveEach(Without(r, ns[0]), ns[1..]).1
  {
  }

  /** `RemoveEach` sends exactly the staged notices, whatever was removed before. */
  lemma {:induction false} RemoveEachNotices(r: Members, ex: seq<Name>, j: nat)
    requires j <= |ex|
    ensures RemoveEach(FilterOut(r, ex[..j]), ex[j..]).1 == StagedNotices(r, ex, j)
    decreases |ex| - j
  {
    if j < |ex| {
      var f := FilterOut(r, ex[..j]);
      var rest := ex[j..];
      var x := rest[0];
      WithoutFilterOut(r, ex[..j], x);
      assert ex[..j] + [x] == ex[..j + 1];
      var g := FilterOut(r, ex[..j + 1]);
      assert Without(f, x) == g;
      assert rest[1..] == ex[j + 1..];
      RemoveEachStep(f, rest);
      RemoveEachNotices(r, ex, j + 1);
      assert RemoveEach(f, rest).1 == Notices(Names(g), x) + StagedNotices(r, ex, j + 1);
    } else {
      assert ex[j..] == [];
    }
  }

  /** An entry whose name is not listed survives the filter. */
  lemma {:induction false} FilterOutKeeps(r: Members, ns: seq<Name>, c: Client)
    requires c in r && c.name !in ns
    ensures c in FilterOut(r, ns)
  {
    var pre := if r[0].name in ns then [] else [r[0]];
    assert FilterOut(r, ns) == pre + FilterOut(r[1..], ns);
    if r[0] != c {
      assert c in r[1..];
      FilterOutKeeps(r[1..], ns, c);
    }
  }

  /** Each stage's notices are among the staged notices from any earlier stage on. */
  lemma {:induction false} StagedNoticesContain(r: Members, ex: seq<Name>, j: nat, i: nat, n: LeftNotice)
    requires j <= i < |ex|
    requires n in Notices(Names(FilterOut(r, ex[..i + 1])), ex[i])
    ensures n in StagedNotices(r, ex, j)
    decreases i - j
  {
    if j < i {
      StagedNoticesContain(r, ex, j + 1, i, n);
    }
  }

  /** The staged notices from stage `j` on name only the departures `ex[j..]`. */
  lemma {:induction false} StagedNoticesLeft(r: Members, ex: seq<Name>, j: nat, n: LeftNotice)
    requires j <= |ex| && n in StagedNotices(r, ex, j)
    ensures n.left in ex[j..]
    decreases |ex| - j
  {
    var head := Notices(Names(FilterOut(r, ex[..j + 1])), ex[j]);
    if n in head {
      var k :| 0 <= k < |head| && head[k] == n;
      assert ex[j..][0] == ex[j];
    } else {
      StagedNoticesLeft(r, ex, j + 1, n);
      assert ex[j + 1..] == ex[j..][1..];
    }
  }

  /**
   Every evicted name is announced to every member that survives the
   heartbeat check, and no other name is announced.
   */
  lemma EvictionAnnounced(r: Members, now: real)
    requires Wf(r)
    ensures forall c, e :: c in Live(r, now) && e in Expired(r, now) ==> LeftNotice(c.name, e) in EvictStale(r, now).1
    ensures forall n :: n in EvictStale(r, now).1 ==> n.left in Expired(r, now)
  {
    var ex := Expired(r, now);
    forall c, e | c in Live(r, now) && e in ex ensures LeftNotice(c.name, e) in StagedNotices(r, ex, 0) {
      var i :| 0 <= i < |ex| && ex[i] == e;
      assert c.name !in ex;
      FilterOutKeeps(r, ex[..i + 1], c);
      var fo := FilterOut(r, ex[..i + 1]);
      var k :| 0 <= k < |fo| && fo[k] == c;
      var to := Names(fo);
      assert to[k] == c.name;
      assert Notices(to, e)[k] == LeftNotice(c.name, e);
      StagedNoticesContain(r, ex, 0, i, LeftNotice(c.name, e));
    }
    forall n | n in StagedNotices(r, ex, 0) ensures n.left in ex {
      StagedNoticesLeft(r, ex, 0, n);
      assert ex[0..] == ex;
    }
  }

  /**
   The heartbeat check of `_heartbeat_loop` at time `now`: every member
   silent for more than 90 seconds is removed (with a `user_left` to the
   members still present at that point), and exactly the others remain.
   */
  function EvictStale(r: Members, now: real): (res: (Members, seq<LeftNotice>))
    requires Wf(r)
    ensures res.0 == Live(r, now)
    ensures forall c :: c in res.0 <==> c in r && !TimedOut(c, now)
    ensures Wf(res.0)
    ensures res.1 == StagedNotices(r, Expired(r, now), 0)
  {
    var ex := Expired(r, now);
    RemoveEachFilters(r, ex);
    RemoveEachNotices(r, ex, 0);
    assert ex[..0] == [] && ex[0..] == ex;
    FilterOutNothing(r);
    FilterExpiredIsLive(r, now);
    assert Wf(Live(r, now)) by {
      LiveWf(r, now);
    }
    RemoveEach(r, ex)
  }

  lemma {:induction false} LiveWf(r: Members, now: real)
    requires Wf(r)
    ensures Wf(Live(r, now))
  {
    var l := Live(r, now);
    forall i, j | 0 <= i < j < |l|
      ensures l[i].name != l[j].name
    {
      LiveOrder(r, now, i, j);
    }
  }

  /** Two positions of `Live` come from two increasing positions of the roster. */
  lemma {:induction false} LiveOrder(r: Members, now: real, i: nat, j: nat)
    requires Wf(r)
    requires i < j < |Live(r, now)|
    ensures Live(r, now)[i].name != Live(r, now)[j].name
  {
    var l := Live(r, now);
    var rest := r[1..];
    assert Wf(rest);
    if TimedOut(r[0], now) {
      assert l == Live(rest, now);
      LiveOrder(rest, now, i, j);
    } else {
      assert l == [r[0]] + Live(rest, now);
      if i == 0 {
        assert l[j] in Live(rest, now);
        var k :| 0 <= k < |rest| && rest[k] == l[j];
        assert r[k + 1] == l[j];
      } else {
        LiveOrder(rest, now, i - 1, j - 1);
      }
    }
  }

  /** A ping on a connection refreshes its current member's heartbeat; nothing else changes. */
  function Touch(r: Members, name: Option<Name>, now: real): (r': Members)
    ensures |r'| == |r| && Names(r') == Names(r)
    ensures forall i :: 0 <= i < |r| ==>
      r'[i] == (if Some(r[i].name) == name then r[i].(lastHeartbeat := now) else r[i])
  {
    if |r| == 0 then []
    else [if Some(r[0].name) == name then r[0].(lastHeartbeat := now) else r[0]] + Touch(r[1..], name, now)
  }
}
