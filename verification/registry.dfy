/**
 The `MEMBER` object of the chat server: one session record per socket id,
 kept in the order the ids were first stored (the iteration order of a
 JavaScript object whose keys are non-numeric strings), together with the two
 helpers that read it, `authToken` and `getMemberList`.
 */
module Registry {
  import opened Wrappers

  /** A socket.io connection id. */
  type ConnId = string

  /** A hex digest handed to the connection when it connects. */
  type Token = string

  /** `{token, name, count}`; `name` is null until a successful join. */
  datatype Session = Session(token: Token, name: Option<string>, count: nat)

  /** One element of the `getMemberList` result, `{token: count, name}`. */
  datatype Member = Member(count: nat, name: string)

  /** The `MEMBER` object: `order` is its key iteration order. */
  datatype Registry = Registry(order: seq<ConnId>, sessions: map<ConnId, Session>)

  /** No id is listed twice. */
  predicate Distinct(order: seq<ConnId>) {
    forall i, j :: 0 <= i < j < |order| ==> order[i] != order[j]
  }

  /** The keys listed in `order` are exactly the stored ids, each once. */
  predicate WellFormed(reg: Registry) {
    && Distinct(reg.order)
    && (forall id :: id in reg.order ==> id in reg.sessions)
    && (forall id :: id in reg.sessions ==> id in reg.order)
  }

  /** A session counts as joined once its name is non-null. */
  predicate Joined(s: Session) {
    s.name.Some?
  }

  const Empty: Registry := Registry([], map[])

  /** `MEMBER[id] = s`: a new key goes to the end of the iteration order,
      an existing key keeps its place. */
  function Put(reg: Registry, id: ConnId, s: Session): (r: Registry)
    ensures WellFormed(reg) ==> WellFormed(r)
    ensures r.sessions == reg.sessions[id := s]
    ensures id in reg.sessions ==> r.order == reg.order
    ensures id !in reg.sessions ==> r.order == reg.order + [id]
  {
    if id in reg.sessions then Registry(reg.order, reg.sessions[id := s])
    else Registry(reg.order + [id], reg.sessions[id := s])
  }

  /** `order` without `id`. */
  function Without(order: seq<ConnId>, id: ConnId): (r: seq<ConnId>)
    ensures forall x :: x in r <==> x in order && x != id
    ensures |r| <= |order|
  {
    if |order| == 0 then []
    else if order[0] == id then Without(order[1..], id)
    else [order[0]] + Without(order[1..], id)
  }

  /** `delete MEMBER[id]`: the other keys keep their relative iteration
      order; deleting a missing key changes nothing. */
  function Delete(reg: Registry, id: ConnId): (r: Registry)
    ensures WellFormed(reg) ==> WellFormed(r)
    ensures r.sessions == reg.sessions - {id}
    ensures exists f :: SubsequenceMap(r.order, reg.order, f)
    ensures id !in reg.sessions ==> r == reg
  {
    WithoutKeepsDistinct(reg.order, id);
    WithoutSubsequence(reg.order, id);
    assert SubsequenceMap(reg.order, reg.order, seq(|reg.order|, i requires 0 <= i < |reg.order| => i));
    if id in reg.sessions then Registry(Without(reg.order, id), reg.sessions - {id})
    else reg
  }

  /** `MEMBER[id].name = name` on a stored id: only that entry's name
      changes, and the key order is kept. */
  function SetName(reg: Registry, id: ConnId, name: Option<string>): (r: Registry)
    requires id in reg.sessions
    ensures WellFormed(reg) ==> WellFormed(r)
    ensures r.order == reg.order
    ensures r.sessions.Keys == reg.sessions.Keys
    ensures r.sessions[id] == reg.sessions[id].(name := name)
    ensures forall other :: other in reg.sessions && other != id ==> r.sessions[other] == reg.sessions[other]
  {
    Put(reg, id, reg.sessions[id].(name := name))
  }

  /** `authToken(socketid, token)`. */
  predicate AuthToken(reg: Registry, id: ConnId, token: Token) {
    id in reg.sessions && reg.sessions[id].token == token
  }

  /** The list entry of a joined session. */
  function Listing(s: Session): Member
    requires Joined(s)
  {
    Member(s.count, s.name.value)
  }

  /** `getMemberList()`: one entry per joined session, in key order. */
  function MemberList(reg: Registry): (list: seq<Member>)
    ensures |list| <= |reg.order|
    ensures forall m :: m in list ==>
              exists id :: id in reg.sessions && Joined(reg.sessions[id]) && Listing(reg.sessions[id]) == m
    ensures WellFormed(reg) ==>
              forall id :: id in reg.sessions && Joined(reg.sessions[id]) ==> Listing(reg.sessions[id]) in list
  {
    ListOf(reg.order, reg.sessions)
  }

  /** The joined sessions of `order`, in that order; ids without a session
      (which a well-formed registry does not have) are skipped. */
  function ListOf(order: seq<ConnId>, sessions: map<ConnId, Session>): (list: seq<Member>)
    ensures |list| <= |order|
    ensures forall m :: m in list ==>
              exists id :: id in order && id in sessions && Joined(sessions[id]) && Listing(sessions[id]) == m
    ensures forall id :: id in order && id in sessions && Joined(sessions[id]) ==> Listing(sessions[id]) in list
  {
    if |order| == 0 then []
    else
      var rest := ListOf(order[1..], sessions);
      if order[0] in sessions && Joined(sessions[order[0]]) then [Listing(sessions[order[0]])] + rest
      else rest
  }

  /** The list of a concatenation of key orders is the concatenation of
      their lists: entries follow key order. */
  lemma {:induction false} ListOfAppend(a: seq<ConnId>, b: seq<ConnId>, sessions: map<ConnId, Session>)
    ensures ListOf(a + b, sessions) == ListOf(a, sessions) + ListOf(b, sessions)
    decreases |a|
  {
    if |a| == 0 {
      assert a + b == b;
    } else {
      assert (a + b)[1..] == a[1..] + b;
      ListOfAppend(a[1..], b, sessions);
    }
  }

  /** A single key contributes its entry exactly when its session is
      stored and joined. */
  lemma ListOfOne(id: ConnId, sessions: map<ConnId, Session>)
    ensures id in sessions && Joined(sessions[id]) ==> ListOf([id], sessions) == [Listing(sessions[id])]
    ensures !(id in sessions && Joined(sessions[id])) ==> ListOf([id], sessions) == []
  {
    assert [id][1..] == [];
  }

  /** `getMemberList` walks the keys in order: the entries of keys stored
      before `id` come first, then `id`'s entry if it has joined, then the
      entries of later keys. */
  lemma MemberListSplit(reg: Registry, i: nat)
    requires i < |reg.order|
    ensures var id := reg.order[i];
            MemberList(reg) == ListOf(reg.order[..i], reg.sessions)
                               + (if id in reg.sessions && Joined(reg.sessions[id]) then [Listing(reg.sessions[id])] else [])
                               + ListOf(reg.order[i + 1..], reg.sessions)
  {
    var id := reg.order[i];
    assert reg.order == reg.order[..i] + [id] + reg.order[i + 1..];
    ListOfAppend(reg.order[..i] + [id], reg.order[i + 1..], reg.sessions);
    ListOfAppend(reg.order[..i], [id], reg.sessions);
    ListOfOne(id, reg.sessions);
  }

  /** Sessions appear in `order` by increasing count. Under socket.io's
      never-reused connection ids this is the same as insertion order. */
  predicate Ascending(reg: Registry) {
    && WellFormed(reg)
    && forall i, j :: 0 <= i < j < |reg.order| ==>
         reg.sessions[reg.order[i]].count < reg.sessions[reg.order[j]].count
  }

  /** Entries strictly increase in count. */
  predicate SortedByCount(list: seq<Member>) {
    forall i, j :: 0 <= i < j < |list| ==> list[i].count < list[j].count
  }

  /** On a registry kept in count order, `getMemberList` is sorted by count,
      so its entries follow key insertion order and no count repeats. */
  lemma MemberListSorted(reg: Registry)
    requires Ascending(reg)
    ensures SortedByCount(MemberList(reg))
  {
    assert MemberList(reg) == ListOf(reg.order, reg.sessions);
    ListOfSorted(reg.order, reg.sessions);
  }

  lemma {:induction false} ListOfSorted(order: seq<ConnId>, sessions: map<ConnId, Session>)
    requires forall id :: id in order ==> id in sessions
    requires forall i, j :: 0 <= i < j < |order| ==> sessions[order[i]].count < sessions[order[j]].count
    ensures SortedByCount(ListOf(order, sessions))
  {
    if |order| > 0 {
      var tail := order[1..];
      assert forall i, j :: 0 <= i < j < |tail| ==> sessions[tail[i]].count < sessions[tail[j]].count by {
        assert forall k :: 0 <= k < |tail| ==> tail[k] == order[k + 1];
      }
      ListOfSorted(tail, sessions);
      var s := sessions[order[0]];
      if Joined(s) {
        forall id | id in tail
          ensures id in sessions && s.count < sessions[id].count
        {
          var k :| 0 <= k < |tail| && tail[k] == id;
          assert order[k + 1] == id;
        }
        ListOfCountsAbove(tail, sessions, s.count);
        ConsSorted(Listing(s), ListOf(tail, sessions));
      }
    }
  }

  /** Every entry of the list of keys whose counts exceed `c` has a count
      above `c`. */
  lemma ListOfCountsAbove(order: seq<ConnId>, sessions: map<ConnId, Session>, c: int)
    requires forall id :: id in order ==> id in sessions && c < sessions[id].count
    ensures forall m :: m in ListOf(order, sessions) ==> c < m.count
  {
  }

  /** An entry below every entry of a sorted list extends it sorted. */
  lemma ConsSorted(m: Member, rest: seq<Member>)
    requires SortedByCount(rest)
    requires forall e :: e in rest ==> m.count < e.count
    ensures SortedByCount([m] + rest)
  {
    var list := [m] + rest;
    forall i, j | 0 <= i < j < |list|
      ensures list[i].count < list[j].count
    {
      assert list[j] == rest[j - 1];
      if i > 0 {
        assert list[i] == rest[i - 1];
      } else {
        assert rest[j - 1] in rest;
      }
    }
  }

  /** Putting a fresh id whose count exceeds every stored count keeps the
      registry in count order. */
  lemma PutFreshKeepsAscending(reg: Registry, id: ConnId, s: Session)
    requires Ascending(reg) && id !in reg.sessions
    requires forall other :: other in reg.sessions ==> reg.sessions[other].count < s.count
    ensures Ascending(Put(reg, id, s))
  {
    var r := Put(reg, id, s);
    forall i, j | 0 <= i < j < |r.order|
      ensures r.sessions[r.order[i]].count < r.sessions[r.order[j]].count
    {
      assert r.order[i] == reg.order[i];
      if j < |reg.order| {
        assert r.order[j] == reg.order[j];
      }
    }
  }

  /** Deleting keeps the registry in count order. */
  lemma DeleteKeepsAscending(reg: Registry, id: ConnId)
    requires Ascending(reg)
    ensures Ascending(Delete(reg, id))
  {
    if id in reg.sessions {
      var r := Delete(reg, id);
      forall i, j | 0 <= i < j < |r.order|
        ensures r.sessions[r.order[i]].count < r.sessions[r.order[j]].count
      {
        var f :| SubsequenceMap(r.order, reg.order, f);
        assert reg.order[f[i]] == r.order[i] && reg.order[f[j]] == r.order[j];
      }
    }
  }

  /** `f` maps the positions of `sub` increasingly onto equal elements of `sup`. */
  ghost predicate SubsequenceMap(sub: seq<ConnId>, sup: seq<ConnId>, f: seq<nat>) {
    && |f| == |sub|
    && (forall i :: 0 <= i < |f| ==> f[i] < |sup| && sup[f[i]] == sub[i])
    && (forall i, j :: 0 <= i < j < |f| ==> f[i] < f[j])
  }

  lemma {:induction false} WithoutSubsequence(order: seq<ConnId>, id: ConnId)
    ensures exists f :: SubsequenceMap(Without(order, id), order, f)
  {
    if |order| == 0 {
      assert Without(order, id) == [];
      assert SubsequenceMap([], order, []);
    } else {
      WithoutSubsequence(order[1..], id);
      var g :| SubsequenceMap(Without(order[1..], id), order[1..], g);
      var rest := Without(order[1..], id);
      if order[0] == id {
        assert Without(order, id) == rest;
        SubsequenceSkip(rest, order, g);
      } else {
        assert Without(order, id) == [order[0]] + rest;
        SubsequenceKeep(rest, order, g);
      }
    }
  }

  /** A subsequence of the tail is a subsequence of the whole. */
  lemma SubsequenceSkip(sub: seq<ConnId>, sup: seq<ConnId>, g: seq<nat>)
    requires |sup| > 0 && SubsequenceMap(sub, sup[1..], g)
    ensures exists f :: SubsequenceMap(sub, sup, f)
  {
    var f := seq(|g|, i requires 0 <= i < |g| => g[i] + 1);
    forall i | 0 <= i < |f|
      ensures f[i] < |sup| && sup[f[i]] == sub[i]
    {
      assert sup[1..][g[i]] == sub[i];
    }
    assert SubsequenceMap(sub, sup, f);
  }

  /** Keeping the head of `sup` in front of a subsequence of its tail gives
      a subsequence of `sup`. */
  lemma SubsequenceKeep(sub: seq<ConnId>, sup: seq<ConnId>, g: seq<nat>)
    requires |sup| > 0 && SubsequenceMap(sub, sup[1..], g)
    ensures exists f :: SubsequenceMap([sup[0]] + sub, sup, f)
  {
    var f := [0] + seq(|g|, i requires 0 <= i < |g| => g[i] + 1);
    var s := [sup[0]] + sub;
    forall i | 0 <= i < |f|
      ensures f[i] < |sup| && sup[f[i]] == s[i]
    {
      if i > 0 {
        assert sup[1..][g[i - 1]] == sub[i - 1];
      }
    }
    assert SubsequenceMap(s, sup, f);
  }

  lemma {:induction false} WithoutKeepsDistinct(order: seq<ConnId>, id: ConnId)
    ensures Distinct(order) ==> Distinct(Without(order, id))
  {
    if |order| > 0 && Distinct(order) {
      var rest := Without(order[1..], id);
      assert Distinct(order[1..]);
      WithoutKeepsDistinct(order[1..], id);
      if order[0] != id {
        assert order[0] !in order[1..];
        DistinctCons(order[0], rest);
      }
    }
  }

  lemma DistinctCons(x: ConnId, rest: seq<ConnId>)
    requires Distinct(rest) && x !in rest
    ensures Distinct([x] + rest)
  {
    var s := [x] + rest;
    forall i, j | 0 <= i < j < |s|
      ensures s[i] != s[j]
    {
      assert s[j] == rest[j - 1];
      if i > 0 {
        assert s[i] == rest[i - 1];
      }
    }
  }
}
