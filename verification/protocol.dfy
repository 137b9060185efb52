/**
 The socket.io handlers of the chat server as pure transitions over one state
 record: the `MEMBER` registry, the `MEMBER_COUNT` counter, the number of
 filtering `post` listeners each socket has had attached by successful joins,
 and an outbox standing for the emits, in the order they are made.
 */
module Protocol {
  import opened Wrappers
  import opened Registry
  import ContentFilter

  /** Who an emit is addressed to: `io.to(socket.id)`, `socket.broadcast`
      (every socket but the sender), or `io` (every socket). */
  datatype Target = ToSelf | ToOthers | ToAll

  /** "token", "join-result", "member-join", "member-post", "member-quit",
      "quit-result". */
  datatype EventName = TokenEvent | JoinResult | MemberJoin | MemberPost | MemberQuit | QuitResult

  /** The client's `join` data, `{token, name}`; a null name is `None`. */
  datatype JoinRequest = JoinRequest(token: Token, name: Option<string>)

  /** The client's `post` data, `{token, text}`. */
  datatype PostRequest = PostRequest(token: Token, text: string)

  /** The objects the server emits. */
  datatype Payload =
    | TokenIssued(token: Token)                        // {token}
    | JoinAck(status: bool, list: Option<seq<Member>>) // {status, list} or {status}
    | JoinEcho(join: JoinRequest)                      // the join data as received
    | JoinNotice(name: Option<string>, count: nat)     // {name, token: count}
    | PostData(post: PostRequest)                      // the post data object itself
    | PostNotice(text: string, count: nat)             // {text, token: count}
    | QuitAck(status: bool)                            // {status}
    | QuitNotice(count: nat)                           // {token: count}

  /** One emit made while handling an event of connection `origin`. */
  datatype Emit = Emit(origin: ConnId, target: Target, event: EventName, payload: Payload)

  /** The server state; `filters[id]` counts the filtering `post` listeners
      attached to socket `id` (absent for a socket that never connected). */
  datatype ChatState = ChatState(
    members: Registry,
    memberCount: nat,
    filters: map<ConnId, nat>,
    outbox: seq<Emit>)

  /** `MEMBER = {}`, `MEMBER_COUNT = 1`, nothing emitted. */
  const Init: ChatState := ChatState(Empty, 1, map[], [])

  /** How many filtering listeners socket `id` carries. */
  function Listeners(st: ChatState, id: ConnId): nat {
    if id in st.filters then st.filters[id] else 0
  }

  /** What every reachable state satisfies: the registry is well formed,
      every stored count lies in 1 .. MEMBER_COUNT - 1, no two sessions share
      a count, and every session belongs to a socket that connected. */
  predicate Valid(st: ChatState) {
    && WellFormed(st.members)
    && st.memberCount >= 1
    && (forall id :: id in st.members.sessions ==> 1 <= st.members.sessions[id].count < st.memberCount)
    && (forall a, b :: a in st.members.sessions && b in st.members.sessions && a != b ==>
          st.members.sessions[a].count != st.members.sessions[b].count)
    && (forall id :: id in st.members.sessions ==> id in st.filters)
  }

  /** Every stored token is the one `mint` derives from the session's id. */
  predicate Minted(st: ChatState, mint: ConnId -> Token) {
    forall id :: id in st.members.sessions ==> st.members.sessions[id].token == mint(id)
  }

  /** The connection handler: store `{token: mint(id), name: null,
      count: MEMBER_COUNT}`, increment the counter, send the token to the new
      socket only. */
  function Connect(st: ChatState, id: ConnId, mint: ConnId -> Token): ChatState {
    var token := mint(id);
    ChatState(
      Put(st.members, id, Session(token, None, st.memberCount)),
      st.memberCount + 1,
      st.filters[id := 0],
      st.outbox + [Emit(id, ToSelf, TokenEvent, TokenIssued(token))])
  }

  /** The `join` handler. With a valid token: snapshot the member list, send
      it, set the name, echo the join data to the joiner, announce
      `{name, token: count}` to the others and attach one more filtering
      `post` listener. Otherwise: send `{status: false}` and change nothing. */
  function Join(st: ChatState, id: ConnId, req: JoinRequest): ChatState {
    if AuthToken(st.members, id, req.token) then
      var list := MemberList(st.members);
      var members := SetName(st.members, id, req.name);
      var count := members.sessions[id].count;
      ChatState(
        members,
        st.memberCount,
        st.filters[id := Listeners(st, id) + 1],
        st.outbox + [
          Emit(id, ToSelf, JoinResult, JoinAck(true, Some(list))),
          Emit(id, ToSelf, MemberJoin, JoinEcho(req)),
          Emit(id, ToOthers, MemberJoin, JoinNotice(req.name, count))])
    else
      st.(outbox := st.outbox + [Emit(id, ToSelf, JoinResult, JoinAck(false, None))])
  }

  /** The message a filtering listener broadcasts: the data object with its
      text rewritten through the filter, token included. */
  function Filtered(msg: PostRequest): PostRequest {
    msg.(text := ContentFilter.Filter(msg.text))
  }

  /** The message object after `n` filtering listeners have each rewritten
      its text in place. */
  function Rewritten(msg: PostRequest, n: nat): PostRequest
    decreases n
  {
    if n == 0 then msg else Filtered(Rewritten(msg, n - 1))
  }

  /** The emits of `k` filtering listeners run one after another on the same
      message object: listener `i` sends the object as the `i + 1` listeners
      so far have left it, to every socket. */
  function FilteredPosts(id: ConnId, msg: PostRequest, k: nat): seq<Emit> {
    seq(k, i requires 0 <= i < k => Emit(id, ToAll, MemberPost, PostData(Rewritten(msg, i + 1))))
  }

  /** Because the filter is idempotent, rewriting once or many times gives
      the same object. */
  lemma {:induction false} RewrittenSettles(msg: PostRequest, n: nat)
    requires n >= 1
    ensures Rewritten(msg, n) == Filtered(msg)
    decreases n
  {
    if n > 1 {
      RewrittenSettles(msg, n - 1);
      ContentFilter.FilterIdempotent(msg.text);
    }
  }

  /** All `k` listeners broadcast the same object: the sender's data with
      the text filtered once. */
  lemma FilteredPostsAgree(id: ConnId, msg: PostRequest, k: nat)
    ensures |FilteredPosts(id, msg, k)| == k
    ensures forall i :: 0 <= i < k ==>
              FilteredPosts(id, msg, k)[i] == Emit(id, ToAll, MemberPost, PostData(Filtered(msg)))
  {
    forall i | 0 <= i < k
      ensures FilteredPosts(id, msg, k)[i] == Emit(id, ToAll, MemberPost, PostData(Filtered(msg)))
    {
      RewrittenSettles(msg, i + 1);
    }
  }

  /** A `post` event: first the handler registered at connection time (with
      a valid token, echo the data to the sender and send `{text, token:
      count}` to the others; otherwise nothing), then each filtering listener
      attached by a join, none of which checks the token. */
  function Post(st: ChatState, id: ConnId, req: PostRequest): ChatState {
    var top :=
      if AuthToken(st.members, id, req.token) then
        [ Emit(id, ToSelf, MemberPost, PostData(req)),
          Emit(id, ToOthers, MemberPost, PostNotice(req.text, st.members.sessions[id].count))]
      else [];
    st.(outbox := st.outbox + top + FilteredPosts(id, req, Listeners(st, id)))
  }

  /** The `quit` handler. With a valid token: acknowledge to self, send
      `{token: count}` to the others, delete the entry. Otherwise:
      acknowledge failure and change nothing. */
  function Quit(st: ChatState, id: ConnId, token: Token): ChatState {
    if AuthToken(st.members, id, token) then
      ChatState(
        Delete(st.members, id),
        st.memberCount,
        st.filters,
        st.outbox + [
          Emit(id, ToSelf, QuitResult, QuitAck(true)),
          Emit(id, ToOthers, MemberQuit, QuitNotice(st.members.sessions[id].count))])
    else
      st.(outbox := st.outbox + [Emit(id, ToSelf, QuitResult, QuitAck(false))])
  }

  /** The events the server reacts to. */
  datatype Event =
    | Connected(id: ConnId)
    | JoinSent(id: ConnId, join: JoinRequest)
    | PostSent(id: ConnId, post: PostRequest)
    | QuitSent(id: ConnId, token: Token)

  /** One event handled to completion. */
  function Step(st: ChatState, ev: Event, mint: ConnId -> Token): ChatState {
    match ev
    case Connected(id) => Connect(st, id, mint)
    case JoinSent(id, req) => Join(st, id, req)
    case PostSent(id, req) => Post(st, id, req)
    case QuitSent(id, token) => Quit(st, id, token)
  }

  /** The events handled one after another, to completion, in order. */
  function Run(st: ChatState, evs: seq<Event>, mint: ConnId -> Token): ChatState
    decreases |evs|
  {
    if |evs| == 0 then st
    else Step(Run(st, evs[..|evs| - 1], mint), evs[|evs| - 1], mint)
  }

  /** The number of connections among `evs`. */
  function Connections(evs: seq<Event>): nat
    decreases |evs|
  {
    if |evs| == 0 then 0
    else Connections(evs[..|evs| - 1]) + (if evs[|evs| - 1].Connected? then 1 else 0)
  }

  /** The socket ids that connect in `evs`. */
  function ConnectedIds(evs: seq<Event>): set<ConnId> {
    set i | 0 <= i < |evs| && evs[i].Connected? :: evs[i].id
  }

  /** socket.io never hands the same id to two connections. */
  predicate NoReusedIds(evs: seq<Event>) {
    forall i, j :: 0 <= i < j < |evs| && evs[i].Connected? && evs[j].Connected? ==> evs[i].id != evs[j].id
  }

  /** `before` is an initial part of `after`: nothing emitted is taken back. */
  predicate Prefix(before: seq<Emit>, after: seq<Emit>) {
    |before| <= |after| && after[..|before|] == before
  }

  // ---------------------------------------------------------------------
  // Effects of the handlers
  // ---------------------------------------------------------------------

  /** A connection stores `{token: mint(id), name: null, count: MEMBER_COUNT}`,
      advances the counter, touches no other session, and sends the token to
      the new socket only. */
  lemma ConnectEffect(st: ChatState, id: ConnId, mint: ConnId -> Token)
    ensures var r := Connect(st, id, mint);
            && id in r.members.sessions && r.members.sessions[id] == Session(mint(id), None, st.memberCount)
            && r.members.sessions.Keys == st.members.sessions.Keys + {id}
            && (forall other :: other in st.members.sessions && other != id ==>
                  r.members.sessions[other] == st.members.sessions[other])
            && r.memberCount == st.memberCount + 1
            && Listeners(r, id) == 0
            && (forall other :: other != id ==> Listeners(r, other) == Listeners(st, other))
            && r.outbox == st.outbox + [Emit(id, ToSelf, TokenEvent, TokenIssued(mint(id)))]
  {
  }

  /** An accepted join changes only the joiner's name, keeps its token and
      count, attaches one more filtering listener, and makes three emits in
      this order: the list as it was before the name was set, the join data
      echoed to the joiner, and `{name, token: count}` to the others. */
  lemma JoinAccepted(st: ChatState, id: ConnId, req: JoinRequest)
    requires AuthToken(st.members, id, req.token)
    ensures var r := Join(st, id, req);
            && r.memberCount == st.memberCount
            && r.members.order == st.members.order
            && r.members.sessions.Keys == st.members.sessions.Keys
            && (forall other :: other in st.members.sessions && other != id ==>
                  r.members.sessions[other] == st.members.sessions[other])
            && r.members.sessions[id].name == req.name
            && r.members.sessions[id].token == st.members.sessions[id].token
            && r.members.sessions[id].count == st.members.sessions[id].count
            && Listeners(r, id) == Listeners(st, id) + 1
            && (forall other :: other != id ==> Listeners(r, other) == Listeners(st, other))
            && r.outbox == st.outbox + [
                 Emit(id, ToSelf, JoinResult, JoinAck(true, Some(MemberList(st.members)))),
                 Emit(id, ToSelf, MemberJoin, JoinEcho(req)),
                 Emit(id, ToOthers, MemberJoin, JoinNotice(req.name, st.members.sessions[id].count))]
  {
  }

  /** A refused join changes nothing and makes exactly one emit, the
      failure notice to the sender. */
  lemma JoinRejected(st: ChatState, id: ConnId, req: JoinRequest)
    requires !AuthToken(st.members, id, req.token)
    ensures var r := Join(st, id, req);
            && r.members == st.members && r.memberCount == st.memberCount && r.filters == st.filters
            && r.outbox == st.outbox + [Emit(id, ToSelf, JoinResult, JoinAck(false, None))]
  {
  }

  /** A `post` never changes the registry, the counter or the listeners.
      With a valid token the sender gets its data back and the others get
      `{text, token: count}`; then every filtering listener the socket
      carries sends the data with the text filtered once to every socket,
      whatever the token. */
  lemma PostEffect(st: ChatState, id: ConnId, req: PostRequest)
    ensures var r := Post(st, id, req);
            && r.members == st.members && r.memberCount == st.memberCount && r.filters == st.filters
            && |r.outbox| == |st.outbox| + (if AuthToken(st.members, id, req.token) then 2 else 0) + Listeners(st, id)
            && r.outbox[..|st.outbox|] == st.outbox
            && (AuthToken(st.members, id, req.token) ==>
                  && r.outbox[|st.outbox|] == Emit(id, ToSelf, MemberPost, PostData(req))
                  && r.outbox[|st.outbox| + 1] ==
                       Emit(id, ToOthers, MemberPost, PostNotice(req.text, st.members.sessions[id].count)))
            && (forall i :: |r.outbox| - Listeners(st, id) <= i < |r.outbox| ==>
                  r.outbox[i] == Emit(id, ToAll, MemberPost, PostData(Filtered(req))))
  {
    var r := Post(st, id, req);
    var k := Listeners(st, id);
    var posts := FilteredPosts(id, req, k);
    FilteredPostsAgree(id, req, k);
    forall i | |r.outbox| - k <= i < |r.outbox|
      ensures r.outbox[i] == Emit(id, ToAll, MemberPost, PostData(Filtered(req)))
    {
      assert r.outbox[i] == posts[i - (|r.outbox| - k)];
    }
  }

  /** With no listener attached and an invalid token, a `post` emits
      nothing at all. */
  lemma PostIgnored(st: ChatState, id: ConnId, req: PostRequest)
    requires !AuthToken(st.members, id, req.token) && Listeners(st, id) == 0
    ensures Post(st, id, req) == st
  {
    assert st.outbox + [] + FilteredPosts(id, req, 0) == st.outbox;
  }

  /** An accepted quit acknowledges to the sender, sends `{token: count}`
      to the others, and removes exactly the caller's entry. */
  lemma QuitAccepted(st: ChatState, id: ConnId, token: Token)
    requires AuthToken(st.members, id, token)
    ensures var r := Quit(st, id, token);
            && r.memberCount == st.memberCount && r.filters == st.filters
            && r.members.sessions == st.members.sessions - {id}
            && (WellFormed(st.members) ==> WellFormed(r.members))
            && r.outbox == st.outbox + [
                 Emit(id, ToSelf, QuitResult, QuitAck(true)),
                 Emit(id, ToOthers, MemberQuit, QuitNotice(st.members.sessions[id].count))]
  {
  }

  /** A refused quit changes nothing and makes exactly one emit, the failure
      notice to the sender. */
  lemma QuitRejected(st: ChatState, id: ConnId, token: Token)
    requires !AuthToken(st.members, id, token)
    ensures var r := Quit(st, id, token);
            && r.members == st.members && r.memberCount == st.memberCount && r.filters == st.filters
            && r.outbox == st.outbox + [Emit(id, ToSelf, QuitResult, QuitAck(false))]
  {
  }

  // ---------------------------------------------------------------------
  // Invariants
  // ---------------------------------------------------------------------

  /** The invariant, handler by handler; each lemma also says how the
      listener entries, the counter and the outbox move. */
  lemma ConnectKeepsValid(st: ChatState, id: ConnId, mint: ConnId -> Token)
    requires Valid(st)
    ensures Valid(Connect(st, id, mint))
    ensures Minted(st, mint) ==> Minted(Connect(st, id, mint), mint)
    ensures Connect(st, id, mint).filters.Keys == st.filters.Keys + {id}
    ensures Connect(st, id, mint).memberCount == st.memberCount + 1
    ensures Prefix(st.outbox, Connect(st, id, mint).outbox)
  {
    var r := Connect(st, id, mint);
    ConnectEffect(st, id, mint);
    assert WellFormed(r.members);
    forall a, b | a in r.members.sessions && b in r.members.sessions && a != b
      ensures r.members.sessions[a].count != r.members.sessions[b].count
    {
      if a != id && b != id {
        assert r.members.sessions[a] == st.members.sessions[a];
        assert r.members.sessions[b] == st.members.sessions[b];
      }
    }
  }

  lemma JoinKeepsValid(st: ChatState, id: ConnId, req: JoinRequest, mint: ConnId -> Token)
    requires Valid(st)
    ensures Valid(Join(st, id, req))
    ensures Minted(st, mint) ==> Minted(Join(st, id, req), mint)
    ensures Join(st, id, req).filters.Keys == st.filters.Keys
    ensures Join(st, id, req).memberCount == st.memberCount
    ensures Prefix(st.outbox, Join(st, id, req).outbox)
  {
    var r := Join(st, id, req);
    if AuthToken(st.members, id, req.token) {
      JoinAccepted(st, id, req);
      assert WellFormed(r.members) by {
        assert r.members == SetName(st.members, id, req.name);
      }
      assert forall x :: x in r.members.sessions ==>
               r.members.sessions[x].count == st.members.sessions[x].count
               && r.members.sessions[x].token == st.members.sessions[x].token;
    } else {
      JoinRejected(st, id, req);
    }
  }

  lemma PostKeepsValid(st: ChatState, id: ConnId, req: PostRequest, mint: ConnId -> Token)
    requires Valid(st)
    ensures Valid(Post(st, id, req))
    ensures Minted(st, mint) ==> Minted(Post(st, id, req), mint)
    ensures Post(st, id, req).filters.Keys == st.filters.Keys
    ensures Post(st, id, req).memberCount == st.memberCount
    ensures Prefix(st.outbox, Post(st, id, req).outbox)
  {
    PostEffect(st, id, req);
  }

  lemma QuitKeepsValid(st: ChatState, id: ConnId, token: Token, mint: ConnId -> Token)
    requires Valid(st)
    ensures Valid(Quit(st, id, token))
    ensures Minted(st, mint) ==> Minted(Quit(st, id, token), mint)
    ensures Quit(st, id, token).filters.Keys == st.filters.Keys
    ensures Quit(st, id, token).memberCount == st.memberCount
    ensures Prefix(st.outbox, Quit(st, id, token).outbox)
  {
    if AuthToken(st.members, id, token) {
      QuitAccepted(st, id, token);
    } else {
      QuitRejected(st, id, token);
    }
  }

  /** Every handler keeps the state valid and the stored tokens minted. */
  lemma StepKeepsValid(st: ChatState, ev: Event, mint: ConnId -> Token)
    requires Valid(st)
    ensures Valid(Step(st, ev, mint))
    ensures Minted(st, mint) ==> Minted(Step(st, ev, mint), mint)
  {
    match ev
    case Connected(id) => ConnectKeepsValid(st, id, mint);
    case JoinSent(id, req) => JoinKeepsValid(st, id, req, mint);
    case PostSent(id, req) => PostKeepsValid(st, id, req, mint);
    case QuitSent(id, token) => QuitKeepsValid(st, id, token, mint);
  }

  /** Only a connection adds a socket or advances the counter. */
  lemma StepCounts(st: ChatState, ev: Event, mint: ConnId -> Token)
    requires Valid(st)
    ensures Step(st, ev, mint).filters.Keys == st.filters.Keys + (if ev.Connected? then {ev.id} else {})
    ensures Step(st, ev, mint).memberCount == st.memberCount + (if ev.Connected? then 1 else 0)
  {
    match ev
    case Connected(id) => ConnectKeepsValid(st, id, mint);
    case JoinSent(id, req) => JoinKeepsValid(st, id, req, mint);
    case PostSent(id, req) => PostKeepsValid(st, id, req, mint);
    case QuitSent(id, token) => QuitKeepsValid(st, id, token, mint);
  }

  /** No handler takes back an emit. */
  lemma StepExtendsOutbox(st: ChatState, ev: Event, mint: ConnId -> Token)
    requires Valid(st)
    ensures Prefix(st.outbox, Step(st, ev, mint).outbox)
  {
    match ev
    case Connected(id) => ConnectKeepsValid(st, id, mint);
    case JoinSent(id, req) => JoinKeepsValid(st, id, req, mint);
    case PostSent(id, req) => PostKeepsValid(st, id, req, mint);
    case QuitSent(id, token) => QuitKeepsValid(st, id, token, mint);
  }

  /** Handling any sequence of events keeps the state valid and the stored
      tokens minted. */
  lemma {:induction false} RunKeepsValid(st: ChatState, evs: seq<Event>, mint: ConnId -> Token)
    requires Valid(st)
    ensures Valid(Run(st, evs, mint))
    ensures Minted(st, mint) ==> Minted(Run(st, evs, mint), mint)
    decreases |evs|
  {
    if |evs| > 0 {
      var n := |evs| - 1;
      RunKeepsValid(st, evs[..n], mint);
      StepKeepsValid(Run(st, evs[..n], mint), evs[n], mint);
    }
  }

  /** Over any sequence of events the counter advances by the number of
      connections, and exactly the connecting sockets gain a listener
      entry. */
  lemma {:induction false} RunCounts(st: ChatState, evs: seq<Event>, mint: ConnId -> Token)
    requires Valid(st)
    ensures Run(st, evs, mint).filters.Keys == st.filters.Keys + ConnectedIds(evs)
    ensures Run(st, evs, mint).memberCount == st.memberCount + Connections(evs)
    decreases |evs|
  {
    if |evs| > 0 {
      var n := |evs| - 1;
      RunCounts(st, evs[..n], mint);
      RunKeepsValid(st, evs[..n], mint);
      StepCounts(Run(st, evs[..n], mint), evs[n], mint);
      ConnectedIdsSnoc(evs);
    }
  }

  /** Emits accumulate: nothing sent is ever taken back. */
  lemma {:induction false} RunExtendsOutbox(st: ChatState, evs: seq<Event>, mint: ConnId -> Token)
    requires Valid(st)
    ensures Prefix(st.outbox, Run(st, evs, mint).outbox)
    decreases |evs|
  {
    if |evs| > 0 {
      var n := |evs| - 1;
      var mid := Run(st, evs[..n], mint);
      RunExtendsOutbox(st, evs[..n], mint);
      RunKeepsValid(st, evs[..n], mint);
      StepExtendsOutbox(mid, evs[n], mint);
      PrefixTransitive(st.outbox, mid.outbox, Run(st, evs, mint).outbox);
    }
  }

  lemma PrefixTransitive(a: seq<Emit>, b: seq<Emit>, c: seq<Emit>)
    requires Prefix(a, b) && Prefix(b, c)
    ensures Prefix(a, c)
  {
    assert c[..|a|] == c[..|b|][..|a|];
  }

  lemma ConnectedIdsSnoc(evs: seq<Event>)
    requires |evs| > 0
    ensures ConnectedIds(evs) ==
              ConnectedIds(evs[..|evs| - 1]) + (if evs[|evs| - 1].Connected? then {evs[|evs| - 1].id} else {})
  {
    var n := |evs| - 1;
    var init := evs[..n];
    forall x | x in ConnectedIds(evs)
      ensures x in ConnectedIds(init) || (evs[n].Connected? && x == evs[n].id)
    {
      var i :| 0 <= i < |evs| && evs[i].Connected? && evs[i].id == x;
      if i < n {
        assert init[i] == evs[i];
      }
    }
    forall x | x in ConnectedIds(init)
      ensures x in ConnectedIds(evs)
    {
      var i :| 0 <= i < |init| && init[i].Connected? && init[i].id == x;
      assert evs[i] == init[i];
    }
  }

  /** Every state the server reaches is valid, stores only minted tokens,
      and its counter is one more than the number of connections so far. */
  lemma Reachable(evs: seq<Event>, mint: ConnId -> Token)
    ensures Valid(Run(Init, evs, mint)) && Minted(Run(Init, evs, mint), mint)
    ensures Run(Init, evs, mint).memberCount == 1 + Connections(evs)
  {
    RunKeepsValid(Init, evs, mint);
    RunCounts(Init, evs, mint);
  }

  // ---------------------------------------------------------------------
  // Counts
  // ---------------------------------------------------------------------

  /** The n-th connection (counting from 1) is stored with count n: the first
      count is 1 and no count is handed out twice. */
  lemma ConnectCountIsOrdinal(evs: seq<Event>, id: ConnId, mint: ConnId -> Token)
    ensures id in Run(Init, evs + [Connected(id)], mint).members.sessions
    ensures Run(Init, evs + [Connected(id)], mint).members.sessions[id].count == 1 + Connections(evs)
  {
    var all := evs + [Connected(id)];
    assert all[..|all| - 1] == evs;
    Reachable(evs, mint);
  }

  /** A joiner whose name was still null is absent from the list it is
      sent: no entry carries its count. */
  lemma JoinerAbsentFromOwnList(st: ChatState, id: ConnId)
    requires Valid(st)
    requires id in st.members.sessions && !Joined(st.members.sessions[id])
    ensures forall m :: m in MemberList(st.members) ==> m.count != st.members.sessions[id].count
  {
    forall m | m in MemberList(st.members)
      ensures m.count != st.members.sessions[id].count
    {
      var other :| other in st.members.sessions && Joined(st.members.sessions[other])
                   && Listing(st.members.sessions[other]) == m;
      assert other != id;
    }
  }

  /** After an accepted join with a name, the joiner is listed with its
      count and that name. */
  lemma JoinedIsListed(st: ChatState, id: ConnId, req: JoinRequest)
    requires Valid(st)
    requires AuthToken(st.members, id, req.token) && req.name.Some?
    ensures Member(st.members.sessions[id].count, req.name.value) in MemberList(Join(st, id, req).members)
  {
    var r := Join(st, id, req);
    assert WellFormed(r.members);
    assert Listing(r.members.sessions[id]) == Member(st.members.sessions[id].count, req.name.value);
  }

  /** After an accepted quit, no list entry carries the quitter's count. */
  lemma QuitterUnlisted(st: ChatState, id: ConnId, token: Token)
    requires Valid(st)
    requires AuthToken(st.members, id, token)
    ensures forall m :: m in MemberList(Quit(st, id, token).members) ==> m.count != st.members.sessions[id].count
  {
    var r := Quit(st, id, token);
    forall m | m in MemberList(r.members)
      ensures m.count != st.members.sessions[id].count
    {
      var other :| other in r.members.sessions && Joined(r.members.sessions[other])
                   && Listing(r.members.sessions[other]) == m;
      assert other != id && r.members.sessions[other] == st.members.sessions[other];
    }
  }

  // ---------------------------------------------------------------------
  // Tokens
  // ---------------------------------------------------------------------

  /** In every reachable state a token validates for a socket exactly when
      the socket is registered and the token is the one minted for it. */
  lemma AuthIffMinted(evs: seq<Event>, mint: ConnId -> Token, id: ConnId, t: Token)
    ensures AuthToken(Run(Init, evs, mint).members, id, t) <==>
              id in Run(Init, evs, mint).members.sessions && t == mint(id)
  {
    Reachable(evs, mint);
  }

  /** A token minted for one socket validates for another only when the
      digests of the two ids collide. */
  lemma ForeignTokenRejected(evs: seq<Event>, mint: ConnId -> Token, id: ConnId, other: ConnId)
    requires AuthToken(Run(Init, evs, mint).members, other, mint(id))
    ensures mint(other) == mint(id)
  {
    AuthIffMinted(evs, mint, other, mint(id));
  }

  /** After an accepted quit no token validates for the socket, so a later
      join with any token is refused and changes nothing. */
  lemma QuitRevokes(st: ChatState, id: ConnId, token: Token, req: JoinRequest)
    requires AuthToken(st.members, id, token)
    ensures forall t :: !AuthToken(Quit(st, id, token).members, id, t)
    ensures Join(Quit(st, id, token), id, req).members == Quit(st, id, token).members
  {
    var r := Quit(st, id, token);
    assert id !in r.members.sessions;
  }

  /** The filtering listeners check no token: once a socket has joined,
      every `post` it sends is broadcast to all sockets with the text
      filtered, even after it has quit, and the broadcast carries the token
      the sender supplied. */
  lemma PostAfterQuitStillBroadcast(st: ChatState, id: ConnId, jreq: JoinRequest, preq: PostRequest)
    requires AuthToken(st.members, id, jreq.token)
    ensures var joined := Join(st, id, jreq);
            var quit := Quit(joined, id, jreq.token);
            var posted := Post(quit, id, preq);
            && !AuthToken(quit.members, id, preq.token)
            && |posted.outbox| > |quit.outbox|
            && posted.outbox[|posted.outbox| - 1] == Emit(id, ToAll, MemberPost, PostData(PostRequest(preq.token, ContentFilter.Filter(preq.text))))
  {
    var joined := Join(st, id, jreq);
    JoinAccepted(st, id, jreq);
    QuitAccepted(joined, id, jreq.token);
    var quit := Quit(joined, id, jreq.token);
    PostEffect(quit, id, preq);
  }

  // ---------------------------------------------------------------------
  // Order of the member list
  // ---------------------------------------------------------------------

  /** Count order, handler by handler. */
  lemma ConnectKeepsAscending(st: ChatState, id: ConnId, mint: ConnId -> Token)
    requires Valid(st) && Ascending(st.members) && id !in st.members.sessions
    ensures Ascending(Connect(st, id, mint).members)
  {
    PutFreshKeepsAscending(st.members, id, Session(mint(id), None, st.memberCount));
  }

  lemma JoinKeepsAscending(st: ChatState, id: ConnId, req: JoinRequest)
    requires Ascending(st.members)
    ensures Ascending(Join(st, id, req).members)
  {
    if AuthToken(st.members, id, req.token) {
      var r := Join(st, id, req);
      JoinAccepted(st, id, req);
      assert WellFormed(r.members) by {
        assert r.members == SetName(st.members, id, req.name);
      }
      assert forall x :: x in r.members.sessions ==> r.members.sessions[x].count == st.members.sessions[x].count;
    } else {
      JoinRejected(st, id, req);
    }
  }

  lemma QuitKeepsAscending(st: ChatState, id: ConnId, token: Token)
    requires Ascending(st.members)
    ensures Ascending(Quit(st, id, token).members)
  {
    if AuthToken(st.members, id, token) {
      DeleteKeepsAscending(st.members, id);
    } else {
      QuitRejected(st, id, token);
    }
  }

  /** A handler keeps the registry in count order, provided a connection
      does not reuse a registered id. */
  lemma StepKeepsAscending(st: ChatState, ev: Event, mint: ConnId -> Token)
    requires Valid(st) && Ascending(st.members)
    requires ev.Connected? ==> ev.id !in st.members.sessions
    ensures Ascending(Step(st, ev, mint).members)
  {
    match ev
    case Connected(id) => ConnectKeepsAscending(st, id, mint);
    case JoinSent(id, req) => JoinKeepsAscending(st, id, req);
    case PostSent(id, req) => PostEffect(st, id, req);
    case QuitSent(id, token) => QuitKeepsAscending(st, id, token);
  }

  /** Under never-reused socket ids the registry stays in count order. */
  lemma {:induction false} RunKeepsAscending(st: ChatState, evs: seq<Event>, mint: ConnId -> Token)
    requires Valid(st) && Ascending(st.members)
    requires NoReusedIds(evs)
    requires forall id :: id in ConnectedIds(evs) ==> id !in st.filters
    ensures Ascending(Run(st, evs, mint).members)
    decreases |evs|
  {
    if |evs| > 0 {
      var n := |evs| - 1;
      var init := evs[..n];
      ConnectedIdsSnoc(evs);
      assert NoReusedIds(init);
      RunKeepsAscending(st, init, mint);
      RunKeepsValid(st, init, mint);
      RunCounts(st, init, mint);
      var mid := Run(st, init, mint);
      if evs[n].Connected? {
        var id := evs[n].id;
        assert id !in mid.filters;
      }
      StepKeepsAscending(mid, evs[n], mint);
    }
  }

  /** With never-reused socket ids, `getMemberList` lists members by
      increasing count, which is the order in which they connected. */
  lemma MemberListInConnectionOrder(evs: seq<Event>, mint: ConnId -> Token)
    requires NoReusedIds(evs)
    ensures SortedByCount(MemberList(Run(Init, evs, mint).members))
  {
    RunKeepsAscending(Init, evs, mint);
    MemberListSorted(Run(Init, evs, mint).members);
  }
}
