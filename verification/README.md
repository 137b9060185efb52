# Socket.io chat server: session registry, protocol and emoji filter

A Dafny model of the core of `chat/chat/serve.js`, a small socket.io chat
server. There are three modules and a helper:

- **`Registry`** (`registry.dfy`) is the `MEMBER` object. It maps each
  socket id to `{token, name, count}`. The model keeps the key iteration
  order explicitly, because `getMemberList` lists entries in that order.
  The module has `Put`, `Delete` and `SetName`, which correspond to
  `MEMBER[id] = …`, `delete MEMBER[id]` and `MEMBER[id].name = …`. It also
  has the two helpers `authToken` (`AuthToken`) and `getMemberList`
  (`MemberList`).
- **`ContentFilter`** (`filter.dfy`) is the chain of 33 `.replace(/literal/g, …)`
  calls that the join-attached listener applies to a post's text.
  - `ReplaceAll` is one global, left-to-right, non-overlapping replacement.
  - `Patterns` and `Replacements` list the 33 literals in line order, and
    `Table` pairs them into rules.
  - `ApplyRules` and `Filter` fold `ReplaceAll` over the table.
- **`Protocol`** (`protocol.dfy`) models the connection handler and the
  `join`, `post` and `quit` handlers as pure transitions over a `ChatState`.
  The state holds four things:
  - the registry;
  - `MEMBER_COUNT`;
  - the number of filtering `post` listeners each socket has been given by
    successful joins;
  - an outbox of emits, in order. Each emit records its origin, its target
    (`io.to(id)` = `ToSelf`, `socket.broadcast` = `ToOthers`,
    `io.emit` = `ToAll`), the event name and the payload.

  `Step` dispatches one event, and `Run` handles a sequence of events in
  order, each to completion. Node's single event loop guarantees this
  run-to-completion behaviour.
- **`Wrappers`** (`wrappers.dfy`) holds `Option`, which models the nullable
  `name`.

`makeToken` (SHA-1 of a hard-coded secret plus the id) is a parameter
`mint: ConnId -> Token`. Nothing assumes it is injective.
`ForeignTokenRejected` states what a digest collision would allow.

Three behaviours of the code are modelled as written, and lemmas state them:

- The `post` listener that `join` attaches checks no token. It broadcasts
  the whole message object to every socket, the sender included, and so also
  broadcasts the token string the sender supplied.
- A second join attaches a second such listener. Each listener rewrites
  `msg.text` in place before it emits.
- The filter is idempotent (`FilterIdempotent`). So with `k` listeners, all
  `k` broadcasts carry the same once-filtered text (`FilteredPostsAgree`).
  A socket that joined and then quit still has its posts broadcast
  (`PostAfterQuitStillBroadcast`).

Three things one might expect of a chat server are not in the code, and the
model follows the code:

- There is no `disconnect` handler. A dropped socket's entry stays in
  `MEMBER`, so the model has no transition that removes a session without
  `quit`.
- The connection-time `post` handler does not filter. With a valid token it
  echoes the data to the sender and sends `{text, token: count}` to the
  others. Only the join-attached listeners filter, and they send the whole
  `msg` to everyone.
- A joined socket may join again. That sets its name again and attaches one
  more listener.

The top-level `post` handler emits `data` before any filtering listener
rewrites `data.text`. The model assumes socket.io encodes a packet when
`emit` is called, so that first echo carries the unfiltered text.

## Model

| member | source | states |
|---|---|---|
| `Registry.Put` | chat/chat/serve.js:71 | Storing under a new id appends it to the key order. Storing under an existing id keeps its place. The map gets exactly that entry. Well-formedness (keys listed once, order and map agree) is kept. |
| `Registry.Without` | chat/chat/serve.js:175 | Removing an id from the key order keeps exactly the other ids and never lengthens it. |
| `Registry.Delete` | chat/chat/serve.js:175 | `delete MEMBER[id]` removes exactly that key and keeps the registry well formed. The remaining keys keep their relative iteration order (the new order is a subsequence of the old). Deleting a missing key changes nothing. |
| `Registry.AuthToken` | chat/chat/serve.js:214-218 | `authToken`: the id is a key and the token equals its stored token. It has no contract of its own; `Protocol.AuthIffMinted`, `Protocol.ForeignTokenRejected` and `Protocol.QuitRevokes` state what it accepts in reachable states. |
| `Registry.SetName` | chat/chat/serve.js:91 | Only the named session's `name` changes. Key order, key set, token, count and every other session stay as they were. |
| `Registry.MemberList` | chat/chat/serve.js:225-234 | Every listed `{count, name}` belongs to a stored session with a non-null name. In a well-formed registry, every such session is listed. |
| `Registry.ListOf` | chat/chat/serve.js:227-233 | The loop over keys in order keeps exactly the joined sessions, and the list is no longer than the key order. |
| `Registry.ListOfAppend` | chat/chat/serve.js:227-233 | The loop's result over keys `a` then `b` is the result over `a` followed by the result over `b`, so entries come in key order. |
| `Registry.ListOfOne` | chat/chat/serve.js:228-231 | One key yields exactly one entry `{count, name}` when its session is stored and its name is non-null, and no entry otherwise. |
| `Registry.MemberListSplit` | chat/chat/serve.js:225-234 | For any key position, `getMemberList` is the entries of the earlier keys, then that key's entry if it has joined, then the entries of the later keys: one entry per joined session, in key order. |
| `Registry.MemberListSorted` | chat/chat/serve.js:225-234 | When sessions were stored in count order, the list is strictly increasing in count, so it follows insertion order and no count repeats. |
| `Registry.PutFreshKeepsAscending` | chat/chat/serve.js:71-72 | Storing a new id whose count exceeds every stored count keeps key order equal to count order. |
| `Registry.DeleteKeepsAscending` | chat/chat/serve.js:175 | Deleting a key keeps key order equal to count order. |
| `Registry.WithoutKeepsDistinct` | chat/chat/serve.js:175 | Removing an id from a duplicate-free key order leaves it duplicate-free. |
| `ContentFilter.ReplaceAll` | chat/chat/serve.js:97 | One `.replace(/literal/g, rep)`. It has no contract of its own. `ReplaceAllUnchanged` (no occurrence: unchanged) and `ReplaceAllLeftmost` (first occurrence: the text before it kept, the occurrence replaced, the rest handled the same way) together fix its result on every input, against the independent `Contains`. `ReplaceAllSplit`, `ReplaceAllRemovesPattern` and `ReplaceAllAddsNoOccurrence` state consequences. |
| `ContentFilter.ApplyRules` | chat/chat/serve.js:97-129 | The chain of replacements in table order. It has no contract of its own; `ApplyRulesCompose`, `ApplyRulesUnchanged` and `ApplyRulesCleans` state its behaviour. |
| `ContentFilter.Filter` | chat/chat/serve.js:97-129 | The 33-rule chain the join-attached listener applies to `msg.text`. It has no contract of its own. `FilterReplacesOccurrence` (each pattern becomes its emoji, surrounding text kept) and `FilterSplit` (the filter works separately on either side of a character that occurs in no pattern) state what the output contains. `FilterOutputClean`, `FilterFixedIffClean`, `FilterIdempotent` and `FilterExample` state further properties. |
| `ContentFilter.ReplaceAllUnchanged` | chat/chat/serve.js:97 | `s.replace(/p/g, r)` returns `s` itself when `p` does not occur in `s`. |
| `ContentFilter.ReplaceAllLeftmost` | chat/chat/serve.js:97 | When `x + pat` holds no occurrence of `pat` before the end of `pat`, replacing in `x + pat + y` yields `x`, then `rep`, then the replacement of `y`: the leftmost occurrence is replaced, the text before it is kept and scanning resumes after it. |
| `ContentFilter.ReplaceAllSplit` | chat/chat/serve.js:97 | A global replacement distributes over a character that is not in the pattern: no occurrence spans it, and the text on each side is replaced separately. |
| `ContentFilter.ReplaceAllRemovesPattern` | chat/chat/serve.js:97 | A global replacement leaves no occurrence of its pattern when the replacement shares no character with the pattern. |
| `ContentFilter.ReplaceAllAddsNoOccurrence` | chat/chat/serve.js:97-129 | A replacement whose text shares no character with a word `w` never creates an occurrence of `w`. |
| `ContentFilter.ContainsSkipForeign` | chat/chat/serve.js:97-129 | Characters that do not occur in `w` cannot take part in an occurrence of `w`. |
| `ContentFilter.ApplyRulesUnchanged` | chat/chat/serve.js:97-129 | Text containing none of the patterns passes the whole chain unchanged. |
| `ContentFilter.ApplyRulesCompose` | chat/chat/serve.js:97-129 | Applying the chain `a + b` is applying `a` and then `b`, so the links act in line order. |
| `ContentFilter.ApplyRulesCleans` | chat/chat/serve.js:97-129 | For a table whose replacements contain no pattern character, the chain's output contains none of the patterns. |
| `ContentFilter.ApplyRulesReplacesOccurrence` | chat/chat/serve.js:97-129 | In a well-formed chain where no pattern contains an earlier one, one occurrence of rule `i`'s pattern becomes rule `i`'s replacement and both surrounding texts are kept. The surrounding texts must be made of characters that occur in no pattern. |
| `ContentFilter.ApplyRulesSplit` | chat/chat/serve.js:97-129 | A chain distributes over a character that occurs in none of its patterns. |
| `ContentFilter.AvoidsPatternsClean` | chat/chat/serve.js:97-129 | Text whose characters occur in no pattern contains none of the patterns. |
| `ContentFilter.NoPatternCharsAvoid` | chat/chat/serve.js:97-129 | For a well-formed table, text with no character in U+3000–U+9FFF, no full-width `？` and no `z` avoids every pattern. |
| `ContentFilter.TableIsUnnested` | chat/chat/serve.js:97-129 | No pattern of the 33 contains an earlier pattern, so no link rewrites part of a later link's pattern. |
| `ContentFilter.TableIsWellFormed` | chat/chat/serve.js:97-129 | Every one of the 33 literal patterns is non-empty and written in kana, ideographs, the ideographic space, full-width `？` or `z`. No replacement contains any of those characters. |
| `ContentFilter.FilterOutputClean` | chat/chat/serve.js:97-129 | The filter's output contains none of the 33 patterns. |
| `ContentFilter.FilterFixedIffClean` | chat/chat/serve.js:97-129 | The filter leaves text unchanged exactly when the text contains none of the patterns. |
| `ContentFilter.FilterIdempotent` | chat/chat/serve.js:97-129 | Filtering twice is filtering once. |
| `ContentFilter.FilterKeepsForeignText` | chat/chat/serve.js:97-129 | Text whose characters occur in none of the 33 patterns passes unchanged. |
| `ContentFilter.ApplyTwoRules` | chat/chat/serve.js:97-98 | A two-link chain is the first replacement followed by the second. |
| `ContentFilter.FilterReplacesOccurrence` | chat/chat/serve.js:97-129 | For each of the 33 rules, the pattern becomes that rule's emoji and the texts before and after are kept, when those texts are made of characters that occur in no pattern. |
| `ContentFilter.FilterSplit` | chat/chat/serve.js:97-129 | Filtering `x + [c] + y`, where `c` occurs in none of the 33 patterns, is filtering `x`, keeping `c` and filtering `y`. So on text whose pattern occurrences are separated by such characters, every occurrence becomes its emoji and the rest is kept. |
| `ContentFilter.FilterSplitsAtNo` | chat/chat/serve.js:97-129 | The kana `の`, which occurs in no pattern, splits the filter: `x + "の" + y` is filtered as `x` and `y` separately. |
| `ContentFilter.FilterExample` | chat/chat/serve.js:97-98 | `"ぴえんうーん"` becomes `"🥺🤔"`. |
| `Protocol.Connect` | chat/chat/serve.js:66-76 | The connection handler. It carries no ensures, so that unfolding a run stays cheap; `ConnectEffect`, `ConnectKeepsValid` and `ConnectKeepsAscending` state its effect. |
| `Protocol.Join` | chat/chat/serve.js:81-140 | The `join` handler, including the attached filtering listener. It carries no ensures; `JoinAccepted`, `JoinRejected`, `JoinKeepsValid`, `JoinKeepsAscending`, `JoinedIsListed` and `JoinerAbsentFromOwnList` state its effect. |
| `Protocol.Post` | chat/chat/serve.js:96-158 | A `post` event: the connection-time handler, then each join-attached listener in attach order. It carries no ensures; `PostEffect`, `PostIgnored`, `FilteredPostsAgree` and `PostKeepsValid` state its effect. |
| `Protocol.Quit` | chat/chat/serve.js:163-184 | The `quit` handler. It carries no ensures; `QuitAccepted`, `QuitRejected`, `QuitKeepsValid`, `QuitKeepsAscending`, `QuitterUnlisted` and `QuitRevokes` state its effect. |
| `Protocol.Step` | chat/chat/serve.js:62-186 | One event handled to completion by its handler. It carries no ensures; `StepKeepsValid`, `StepCounts`, `StepExtendsOutbox` and `StepKeepsAscending` state what every step keeps. |
| `Protocol.Run` | chat/chat/serve.js:62-186 | A sequence of events handled in order. It carries no ensures; `RunKeepsValid`, `RunCounts`, `RunExtendsOutbox`, `RunKeepsAscending` and `Reachable` state what every run keeps. |
| `Protocol.ConnectEffect` | chat/chat/serve.js:66-76 | A connection stores `{token: mint(id), name: null, count: MEMBER_COUNT}`, advances the counter by one, leaves other sessions and listeners alone, and emits only the token, only to the new socket. |
| `Protocol.JoinAccepted` | chat/chat/serve.js:85-96 | With a valid token, only the joiner's name changes; its token and count stay. One more filtering listener is attached. The three emits follow in order: `join-result {status: true, list}` with the list taken before the name was set, the raw data echoed as `member-join`, and `{name, token: count}` to the others. |
| `Protocol.JoinRejected` | chat/chat/serve.js:136-139 | With an invalid token, registry, counter and listeners are unchanged, and the only emit is `join-result {status: false}` to the sender. |
| `Protocol.RewrittenSettles` | chat/chat/serve.js:96-131 | However many listeners rewrite the same message object in place, its text ends up filtered exactly once. |
| `Protocol.FilteredPostsAgree` | chat/chat/serve.js:96-131 | All `k` listener broadcasts are the same object: the sender's data, token included, with the text filtered once. |
| `Protocol.PostEffect` | chat/chat/serve.js:145-158 | A post never changes registry, counter or listeners. A valid token yields exactly two emits, the data echoed to the sender and `{text, token: count}` to the others. They are followed by one `ToAll` broadcast of the filtered data per attached listener, whatever the token. |
| `Protocol.PostIgnored` | chat/chat/serve.js:149-157 | On a socket with no attached listener, a post with an invalid token emits nothing and changes nothing. |
| `Protocol.QuitAccepted` | chat/chat/serve.js:167-176 | With a valid token, `quit-result {status: true}` goes to the sender and `member-quit {token: count}` to the others. Then exactly the caller's entry is removed. |
| `Protocol.QuitRejected` | chat/chat/serve.js:180-183 | With an invalid token, nothing changes and the only emit is `quit-result {status: false}` to the sender. |
| `Protocol.ConnectKeepsValid` | chat/chat/serve.js:66-76 | A connection keeps the state invariant (well-formed registry, counts unique and in `1 .. MEMBER_COUNT - 1`, every session has a listener entry) and keeps tokens minted. |
| `Protocol.JoinKeepsValid` | chat/chat/serve.js:81-140 | `join` keeps the state invariant and leaves every token as minted. |
| `Protocol.PostKeepsValid` | chat/chat/serve.js:145-158 | `post` keeps the state invariant. |
| `Protocol.QuitKeepsValid` | chat/chat/serve.js:163-184 | `quit` keeps the state invariant. |
| `Protocol.StepKeepsValid` | chat/chat/serve.js:62-186 | Every handler keeps the state invariant and the minted tokens. |
| `Protocol.StepCounts` | chat/chat/serve.js:66-76 | Only a connection adds a socket or advances the counter, and it advances it by one. |
| `Protocol.StepExtendsOutbox` | chat/chat/serve.js:62-186 | No handler takes back an emit. |
| `Protocol.RunKeepsValid` | chat/chat/serve.js:62-186 | Any sequence of events keeps the state invariant and the minted tokens. |
| `Protocol.RunCounts` | chat/chat/serve.js:36-72 | Over any sequence of events, the counter advances by exactly the number of connections, and nothing decrements it. |
| `Protocol.RunExtendsOutbox` | chat/chat/serve.js:62-186 | Emits only accumulate. |
| `Protocol.PrefixTransitive` | chat/chat/serve.js:62-186 | An initial part of an initial part of the outbox is an initial part of it. |
| `Protocol.ConnectedIdsSnoc` | chat/chat/serve.js:62-76 | The connected ids of a longer run are those of the shorter run plus the last connection. |
| `Protocol.Reachable` | chat/chat/serve.js:28-36 | Starting from `MEMBER = {}` and `MEMBER_COUNT = 1`, every reachable state satisfies the invariant and holds only minted tokens. Its counter is one more than the number of connections so far. |
| `Protocol.ConnectCountIsOrdinal` | chat/chat/serve.js:36-72 | The n-th connection is stored with count n, so the first count is 1 and counts are never reused, even after quits. |
| `Protocol.JoinerAbsentFromOwnList` | chat/chat/serve.js:87-91 | A joiner whose name was still null finds no entry with its count in the list it is sent. |
| `Protocol.JoinedIsListed` | chat/chat/serve.js:91 | After an accepted join with a name, the joiner appears in `getMemberList` with its count and that name. |
| `Protocol.QuitterUnlisted` | chat/chat/serve.js:175 | After an accepted quit, no list entry carries the quitter's count. |
| `Protocol.AuthIffMinted` | chat/chat/serve.js:214-218 | In every reachable state, a token validates for a socket exactly when the socket is registered and the token is the one minted for it. |
| `Protocol.ForeignTokenRejected` | chat/chat/serve.js:202-218 | A token minted for one socket validates for another only if the two ids' digests collide. |
| `Protocol.QuitRevokes` | chat/chat/serve.js:163-176 | After an accepted quit, no token validates for that socket, and a later join leaves the registry unchanged. |
| `Protocol.PostAfterQuitStillBroadcast` | chat/chat/serve.js:96-131 | After join then quit, the token no longer validates, yet the socket's next post is still broadcast to all with the text filtered and the supplied token attached. |
| `Protocol.ConnectKeepsAscending` | chat/chat/serve.js:66-76 | Connecting a socket whose id is not registered keeps key order equal to count order. |
| `Protocol.JoinKeepsAscending` | chat/chat/serve.js:81-140 | `join` keeps key order equal to count order. |
| `Protocol.QuitKeepsAscending` | chat/chat/serve.js:163-184 | `quit` keeps key order equal to count order. |
| `Protocol.StepKeepsAscending` | chat/chat/serve.js:62-186 | Every handler keeps key order equal to count order, provided a connection does not reuse a registered id. |
| `Protocol.RunKeepsAscending` | chat/chat/serve.js:62-186 | Any run with never-reused socket ids keeps key order equal to count order. |
| `Protocol.MemberListInConnectionOrder` | chat/chat/serve.js:225-234 | With never-reused socket ids, `getMemberList` lists members by strictly increasing count, which is the order they connected in. |

## Left out

- The Express routes and `sendFile` (chat/chat/serve.js:44-53) and server
  start-up and logging (chat/chat/serve.js:191-193) are I/O, outside the
  protocol.
- `makeToken`'s SHA-1 digest and hard-coded secret (chat/chat/serve.js:22,
  202-205) are a foreign crypto call. They are the parameter `mint`, which is
  not assumed injective.
- socket.io delivery is not modelled: fan-out to actual sockets, ordering
  across recipients, and who is connected at delivery time. An emit is an
  outbox entry with its target.
- Disconnects are not modelled. The code registers no `disconnect` handler,
  so no transition removes a session without `quit`.
- JavaScript strings are sequences of UTF-16 code units; the model's text is
  `seq<char>`. Every pattern is made of Basic Multilingual Plane characters,
  so a code-unit match and a character match find the same occurrences.
- Malformed client data is out of scope: a missing `data`, or a non-string
  `text` or `name`. In JavaScript these throw or store odd values; the model's
  requests are typed.
- JavaScript lists integer-like object keys first. socket.io ids are
  20-character non-numeric strings, so the model's key order is plain
  insertion order.
- Registry.AuthToken: `socketid in MEMBER` (chat/chat/serve.js:216) also
  finds names inherited from `Object.prototype`, such as `"constructor"`.
  For such an id the stored token would be `undefined`, and a request without
  a token would pass. socket.io never generates such ids, so the model's
  membership is the map's own keys only.
- `ContentFilter.ReplaceAll` requires a non-empty pattern. Every pattern in
  the table is non-empty, and the empty-regex behaviour of `.replace` is not
  needed.
- Registry.MemberList: completeness (every joined session is listed) is
  stated only for well-formed registries. Every reachable state is well
  formed (`Protocol.Reachable`).
- Protocol.ConnectCountIsOrdinal: counts are unbounded integers. `MEMBER_COUNT`
  (chat/chat/serve.js:36, 72) is a JavaScript number, and from 2^53 on
  `MEMBER_COUNT++` leaves it unchanged, so every later connection would get
  the same count. The lemma, the unique counts in `Protocol.Valid` and the
  count order of `getMemberList` hold only for the first 2^53 connections.
- Protocol.MemberListInConnectionOrder: assumes socket.io never hands the
  same id to two connections. A reused id would keep its old place in the
  key order while taking a new count.
- Protocol.StepKeepsAscending: requires that a connection not reuse a
  registered id, for the same reason.
