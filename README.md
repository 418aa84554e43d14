# GoBan user directory: selection and visibility controller

The `App` component of this user-directory browser keeps a list of fetched
users and a search query. It derives the listed users from these with a
case-insensitive substring filter. It also keeps a selection: the current
user, the history of users displaced by later selections, and two flags that
show or hide the "Current" and "Previous" panels. This project models that
controller and proves what its events do to it.

- `users.dfy` (module `Users`): the user record, an optional value, ASCII
  case folding (`Lower`), substring search (`Contains`), and the `selected`
  flag of a rendered item (`IsSelected`).
- `search.dfy` (module `Search`): the live filter (`Filter`, for
  `users.filter`) and the Enter-key lookup (`FindExact`, for `users.find`),
  with lemmas about both. These are pure functions, as in the source.
- `controller.dfy` (module `Controller`): class `App` with the component's
  state as fields. It has one method per event: `SelectUser`, `EnterCommit`,
  `ToggleCurrent`, `TogglePrevious` and `OutsideClick`. `ReceiveUsers` and
  `SetSearchQuery` stand for the two setters the controller reads from; they
  keep the invariant below. A ghost field `selections` records every
  selection made. `Valid()` states the
  invariant: the current user is the last selection, and `previousUsers` is
  every earlier selection in order. The two scenario methods at the end
  run on the directory Ann (1), Bob (2), Anna (3). `ScenarioBrowse`: query
  "an" lists Ann and Anna; select Ann then Bob; open Previous; click outside.
  `ScenarioReselect`: select Bob twice; then Enter with query "ANN" selects Ann.

Three behaviours of the code are easy to misread, and the model follows the code:

- Reselecting the user who is already current appends that user to the
  history again (src/App.jsx:145-151). It is not a no-op.
- So the history can contain the present current user. `Valid()` states
  what does hold: the history is all selections but the last.
- The history is a prefix of its later values, and once a current user
  exists it is never cleared.

## Model

| member | source | states |
|---|---|---|
| `Users.LowerChar` | src/App.jsx:158 | ASCII case folding of one character: upper-case letters move down by 32, everything else is kept, and no result is an upper-case letter |
| `Users.Lower` | src/App.jsx:158 | `Lower` keeps the length and folds every character in place |
| `Users.LowerIdempotent` | src/App.jsx:158 | folding a folded string changes nothing |
| `Users.Contains` | src/App.jsx:168 | `includes`: true exactly when `needle` is a prefix of `hay` or occurs in its tail; true for the empty needle and for any prefix, false when the needle is longer than the haystack; see `ContainsIff` |
| `Users.ContainsIff` | src/App.jsx:168 | `includes` holds exactly when the needle occurs at some position of the haystack |
| `Users.IsSelected` | src/App.jsx:212 | the `selected` flag of a list item: set only when a current user exists, always set on the current user's own item, never set without a current user |
| `Users.AtMostOneSelected` | src/App.jsx:212 | when ids are distinct, at most one rendered item has `selected` set (current user present and ids equal) |
| `Search.Matches` | src/App.jsx:168 | the filter callback: the empty query matches every user, an exact match up to case is also a substring match, and a query longer than the name never matches |
| `Search.NameEquals` | src/App.jsx:158 | the `find` callback: equal names up to case have equal length, and a name equal to the query always matches |
| `Search.Filter` | src/App.jsx:167-169 | a user is listed exactly when it is in `users` and its lower-cased name contains the lower-cased query; the result is no longer than the input |
| `Search.FilterIsSubsequence` | src/App.jsx:167-169 | the listed users are a subsequence of `users`, in their original order |
| `Search.FilterCount` | src/App.jsx:167-169 | each matching user is listed as many times as it occurs in `users`, and each non-matching user not at all |
| `Search.FilterEmptyQuery` | src/App.jsx:167-169 | with the empty query every user is listed, unchanged and in order |
| `Search.FilterKeepsUniqueIds` | src/App.jsx:167-169 | when the ids in `users` are distinct, they stay distinct in the listed users |
| `Search.FindExact` | src/App.jsx:157-159 | no result exactly when no name equals the query up to case; otherwise the first such user in list order |
| `Search.ExactMatchIsListed` | src/App.jsx:157-169 | the user found by the Enter lookup is always among the listed users |
| `Search.FindExactOnFiltered` | src/App.jsx:157-169 | looking up in the full list, as the source does, gives the same user as looking up in the filtered list |
| `Controller.DirectoryListing` | src/App.jsx:167-169 | on the directory Ann, Bob, Anna the query "an" lists Ann and Anna |
| `Controller.DirectoryLookup` | src/App.jsx:157-159 | on the same directory the query "ANN" finds Ann |
| `Controller.Archive` | src/App.jsx:145-150 | the `setPreviousUsers` updater: the old history is a prefix of the new; with no current user it is unchanged; otherwise exactly the current user is appended at the end |
| `Controller.App.FilteredUsers` | src/App.jsx:167-169 | the listed users are those of the stored list that match the stored query |
| `Controller.App.constructor` | src/App.jsx:100-105 | initially: no users, empty query, no current user, empty history, both panels hidden |
| `Controller.App.ReceiveUsers` | src/App.jsx:118 | the delivered list replaces the stored one; nothing else changes; the invariant is kept |
| `Controller.App.SetSearchQuery` | src/App.jsx:199 | the typed text replaces the query; nothing else changes; the invariant is kept |
| `Controller.App.SelectUser` | src/App.jsx:144-152 | `user` becomes current; the old current user, if any, is appended to the history, also when it equals `user`; the old history is a prefix of the new; the flags, list and query are untouched; exactly the items with `user`'s id are now selected; the invariant is kept |
| `Controller.App.EnterCommit` | src/App.jsx:155-164 | on "Enter" with an exact match in the full list, selects the first such user, with the same history update as `SelectUser`; on any other key or with no match nothing changes |
| `Controller.App.ToggleCurrent` | src/App.jsx:227-229 | flips `showCurrent` only when a current user exists; otherwise a no-op; no other field changes |
| `Controller.App.TogglePrevious` | src/App.jsx:236-238 | flips `showPrevious` only when the history is not empty; otherwise a no-op; no other field changes |
| `Controller.App.OutsideClick` | src/App.jsx:130-135 | a pointer-down outside clears both flags and leaves the selection alone; one inside changes nothing |

## Left out

- The network fetch, its `AbortController` cancellation and the `isLoading` transitions (src/App.jsx:110-126) are I/O. `ReceiveUsers` takes the list the fetch delivers as a parameter.
- The JSON payload's extra fields are dropped. A record is only its `id` and `name`.
- Registering and removing the document listener (src/App.jsx:137-140) and the hit test `listRef.current.contains(event.target)` (src/App.jsx:131) are DOM work. `OutsideClick` receives the outcome as `inside`. `listRef` is attached to both lists (src/App.jsx:206, 243), and which element it ends up naming is a DOM detail outside the model. The model assumes the ref is attached, which holds once the second list is rendered.
- Users.Lower: folds ASCII letters only. JavaScript's `toLowerCase` applies full Unicode case mapping, which the model does not reproduce. Every property is stated relative to this `Lower`.
- React's batching of state updates is not modelled. Each event handler runs as one atomic state change, which matches how the handlers here behave: each event performs at most one selection.
- The dark-mode switch (src/App.jsx:186) only flips a boolean that selects a theme. It and all styling and markup (src/App.jsx:24-95, 171-259) are presentation.
- src/User.jsx is a presentational list item. Only the `selected` value it is given is modelled (`Users.IsSelected`).
