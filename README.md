# Repository list screen: list-state model

This project models the list-state controller of a small React Native screen
that shows "repositories" (records with an id, a title, a list of
technologies and a like count) and lets the user like one. The screen holds
one piece of state, the `repositories` list. Two handlers change it:

- the initial load (`fetchRepositories`) replaces the whole list with the
  body of the read reply;
- the like handler (`handleLikeRepository`) accepts only a reply with
  status 200. It copies the current list, finds the first index whose `id`
  matches with a `findIndex` scan, writes the returned record at that index
  and installs the copy as the new state. Any other outcome is logged, and
  the state is left untouched.

Layout:

- `repositories.dfy`, module `Repositories`, holds the values. It has the
  `Repo` record and the `Reply<T>` request outcome (`Received(status, data)`
  or `Failed`, a rejected promise). It defines the meaning of a like as
  functions (`FirstIndexOf`, `AssignAt`, `LikeUpdated`) and an independent
  recursive reference (`ReplaceFirst`), with the lemmas about them.
- `app.dfy`, module `AppState`, holds the component. Class `App` keeps the
  state in an `array<Repo>` field. Its methods mirror the two handlers, and
  `FindIndex` is the `findIndex` scan as a loop. Each handler's `ensures`
  ties the new state to the reply body or to `LikeUpdated`. `LikeScenario` replays the
  two-record example: a load, a successful like, then a like that fails.

The replies of the HTTP client are method parameters. The boolean each
handler returns says whether it reported an error to the console.

When the id is absent, `findIndex` yields -1. The JavaScript assignment
`newRepositories[-1] = …` then adds a non-index property to the copy. It
changes no element and not the length, so the model writes no element in
that case (`AssignAt`).

`fetchRepositories` does not inspect the status of the read reply: any
reply that arrives replaces the list (src/App.js:19-20).

## Model

| member | source | states |
|---|---|---|
| `Repositories.FirstIndexOf` | src/App.js:34-36 | The search yields -1 or a valid index. At a non-negative result the record has the target id. No earlier record has it, and when the result is -1 no record at all has it. |
| `Repositories.FirstIndexOfIsFirstMatch` | src/App.js:34-36 | A matching index with no match before it is exactly the index the search yields. `findIndex` therefore stops at the first match. |
| `Repositories.AssignAt` | src/App.js:37 | Writing at the found index keeps the length. The record lands at that index when it is a real index, and every other position keeps its record. At -1 no element changes. |
| `Repositories.LikeUpdated` | src/App.js:33-37 | A status-200 like preserves the length of the list, whether or not the id is found. |
| `Repositories.LikeReplacesFirstMatch` | src/App.js:33-37 | If the first record with the id is at `i`, the new list equals the old one with position `i` set to the returned record, and nothing else differs. |
| `Repositories.LikeAbsentIsNoop` | src/App.js:34-37 | If no record has the id, the search yields -1 and the list after a status-200 like equals the list before it. |
| `Repositories.LikeLeavesLaterDuplicates` | src/App.js:34-37 | If the id occurs at `i` and again at a later `j`, position `j` is unchanged. Only the first occurrence is replaced. |
| `Repositories.LikeMatchesReplaceFirst` | src/App.js:33-38 | The copy-search-assign update equals the recursive "replace the first record with this id" definition on every list. |
| `Repositories.FirstIndexOfAfterWrite` | src/App.js:34-37 | Overwriting a position with a record that matches a given id exactly when the old one did leaves the first index of that id unchanged. |
| `Repositories.LikeKeepsIdsUnique` | src/App.js:32-38 | If the list's ids are unique and the returned record carries the liked id, the ids stay unique after the update. |
| `Repositories.LikeLastResponseWins` | src/App.js:28-38 | Two status-200 replies for the same id, the first carrying that id, handled one after the other, give the same list as the second alone. Arrival order decides the displayed record. |
| `Repositories.LikeDifferentIdsCommute` | src/App.js:28-38 | Status-200 replies for two different ids, each carrying its own id, handled one after the other, each on the list the previous one installed, give the same list in either order. |
| `AppState.FindIndex` | src/App.js:34-36 | The left-to-right scan returns exactly `FirstIndexOf` of the array. It is -1 iff no element has the id, and otherwise a valid index holding the id with no earlier match. |
| `AppState.App.constructor` | src/App.js:14 | The state starts as the empty list. |
| `AppState.App.FetchRepositories` | src/App.js:17-25 | A received reply replaces the list with its body, in the same order, in a fresh array. A rejected request is reported and leaves the array and its contents unchanged, so the list stays empty after a failed first load. |
| `AppState.App.HandleLikeRepository` | src/App.js:28-51 | An error is reported iff the reply is not a received status 200. On status 200 the state becomes `LikeUpdated` of the old list in a freshly allocated array. Otherwise the same array with the same contents stays. The previously held array is never modified. |

## Left out

- The HTTP client (`./services/api`) is not part of this model. Its replies
  are the `Reply` parameters. `Failed` stands for every rejected request,
  including any status the client itself refuses.
- AppState.App.FetchRepositories: a body that is not a list of records
  cannot occur, because the reply's type is `seq<Repo>`. The received body
  is copied into a fresh array. The model therefore does not capture that
  the state shares the parsed body object with the reply.
- AppState.App.HandleLikeRepository: the like reply's body is assumed to be
  a record, because the reply's type is `Reply<Repo>`. The code writes
  whatever body arrives into the list unchecked, so a non-record body
  written into the list is not captured.
- React hooks, rendering and styles (`useEffect` scheduling, the
  `FlatList` tree, `testID`s, `StyleSheet` constants) are UI with no logic.
- The text of the `console.error` calls and the `JSON.stringify` message
  are not modelled. Only the fact that an error is reported is modelled,
  as the handlers' boolean result.
- Concurrency is not modelled: likes in flight at the same time, and a
  handler that captured a stale `repositories` list at render time. Every
  handler here runs on the current state, one after another.
  `LikeLastResponseWins` and `LikeDifferentIdsCommute` cover only the order
  in which replies are applied.
- Repositories.LikeDifferentIdsCommute: when both like requests are in flight at once,
  each handler copies the list captured at render time, so the reply
  handled second installs that old list plus only its own change and the
  earlier update is lost. The lemma describes handlers run one after the
  other, not concurrent likes.
- The JavaScript array keeps a `"-1"` property after a like for an absent
  id. The model keeps only the observable effect: no element changes.
- The non-negativity of `likes`, the uniqueness of ids and that a like
  reply's body carries the liked id are promised by the service, not
  checked by the screen. `likes` is an unbounded `int`. Uniqueness appears
  only as a hypothesis of `LikeKeepsIdsUnique`. The body's id is a
  hypothesis of `LikeKeepsIdsUnique`, `LikeLastResponseWins` and
  `LikeDifferentIdsCommute`.
- Ignoring replies that arrive after the screen is torn down is not
  modelled. The code has no such guard.
