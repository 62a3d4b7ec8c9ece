# Rick and Morty episode browser — verified model of its screen logic

The app browses episodes of the Rick and Morty API. It has three screens:

- **Episode List.** It searches the fetched episodes by name, ignoring case, and shows the results on two fixed pages of ten.
- **Episode Details.** It lets the user like up to ten of the episode's characters, toggling one tile at a time.
- **Favorite Characters.** It renders the liked characters as cards coloured by life status. When a removal callback is supplied, a confirmed removal disables a card. As the screen is opened from Episode Details, no callback is supplied, so confirming throws and the card stays enabled (see Findings).

This project models the logic of those screens as pure Dafny functions over immutable sequences of `Episode` and `Character` records, and proves the properties the screens rely on.

Files:

- `model.dfy` (module `Model`): the `Episode` and `Character` records.
- `text.dfy` (module `Text`): ASCII lower-casing and a model of `String.prototype.includes`.
- `seqs.dfy` (module `Seqs`): order-preserving subsequences and duplicate-free sequences.
- `episode_list.dfy` (module `EpisodeList`): the search filter, JavaScript's `slice`, and the two pager pages.
- `episode_details.dfy` (module `EpisodeDetails`): the bounded like-toggle.
- `favorites.dfy` (module `Favorites`): status colours, the pending-removal markers, and the callback as the navigation supplies it.

Modelling choices:

- One tap on a tile is one atomic step on the current liked list.
- The limit alert is the outcome `LimitReached`.
- The confirm/cancel dialog is a `Choice` input.
- Calls to the removal callback are returned as a list of the characters it was called with. The callback's effect belongs to the caller and is not modelled.
- The search box holds the lower-cased text: `HandleSearch` stores it and `Visible` filters by it.

## Model

| member | source | states |
|---|---|---|
| `Text.Lower` | 1-first/views/episodeList.js:49 | lower-casing keeps the length and lowers each character on its own (ASCII letters only) |
| `Text.Contains` | 1-first/views/episodeList.js:54 | the left-to-right scan modelling `includes` holds exactly when the query occurs at some index of the name (both directions, empty query included) |
| `Text.ContainsTransitive` | 1-first/views/episodeList.js:54 | an occurrence of u inside an occurrence of t inside s is an occurrence of u in s |
| `Text.LowerPreservesContains` | 1-first/views/episodeList.js:49-54 | if t occurs in s, lower(t) occurs in lower(s) |
| `Text.UpperIsRecasing` | 1-first/views/episodeList.js:49 | upper-casing a text only re-cases it: it lower-cases to the same string |
| `Text.SameIgnoringCaseIffSameLower` | 1-first/views/episodeList.js:49 | two strings lower-case to the same string iff they differ only in the case of letters |
| `EpisodeList.HandleSearch` | 1-first/views/episodeList.js:48-50 | the stored query equals the typed text up to case and has no upper-case letter |
| `EpisodeList.FilterEpisodes` | 1-first/views/episodeList.js:53-55 | the filtered list is no longer than the fetched list and every entry's lower-cased name includes the query |
| `EpisodeList.Visible` | 1-first/views/episodeList.js:48-55 | the listed episodes form a subsequence of the fetched ones, each with lower(name) including lower(typed text) |
| `EpisodeList.FilterCounts` | 1-first/views/episodeList.js:53-55 | each episode value occurs in the filtered list exactly as often as in the fetched list when it matches, and never otherwise; with the subsequence fact this fixes the result exactly |
| `EpisodeList.FilterIsSubsequence` | 1-first/views/episodeList.js:53-55 | the filtered list is an order-preserving subsequence of the fetched episodes |
| `EpisodeList.FilterMembers` | 1-first/views/episodeList.js:53-55 | an episode is in the filtered list iff it was fetched and its lower-cased name includes the stored query |
| `EpisodeList.VisibleMembers` | 1-first/views/episodeList.js:48-55 | an episode is listed iff it was fetched and lower(name) includes lower(typed text) |
| `EpisodeList.EmptySearchKeepsAll` | 1-first/views/episodeList.js:53-55 | with the initial empty query (line 14) the filtered list is the whole fetched list, in order |
| `EpisodeList.SearchIgnoresCase` | 1-first/views/episodeList.js:48-55 | a query and any re-casing of it list the same episodes |
| `EpisodeList.SearchIgnoresUpperCase` | 1-first/views/episodeList.js:48-55 | typing the query in upper case lists the same episodes |
| `EpisodeList.FilterNarrows` | 1-first/views/episodeList.js:53-55 | if the longer stored query includes the shorter, its result is a subsequence of the shorter one's |
| `EpisodeList.SearchNarrows` | 1-first/views/episodeList.js:48-55 | typing a query that includes the previous one yields a subsequence, hence a subset, of the previous result |
| `EpisodeList.FilterKeepsIdsUnique` | 1-first/views/episodeList.js:53-55 | filtering keeps episode identifiers distinct |
| `EpisodeList.Slice` | 1-first/views/episodeList.js:65-66 | `slice(start, end)` clamps to the length: its length is min(end, n) - start or 0, and entry k is s[start + k] |
| `EpisodeList.FirstPage` | 1-first/views/episodeList.js:65 | page 1 is the first min(n,10) filtered episodes |
| `EpisodeList.SecondPage` | 1-first/views/episodeList.js:66 | page 2 is the filtered episodes from position min(n,10) up to min(n,20) |
| `EpisodeList.PagesAreWindows` | 1-first/views/episodeList.js:65-66 | page 1 is filtered[0..min(n,10)] and page 2 is filtered[min(n,10)..min(n,20)]; each has at most 10 entries; page 2 is empty when n ≤ 10; together they are the length-min(n,20) prefix |
| `EpisodeList.ShownIffAmongFirstTwenty` | 1-first/views/episodeList.js:65-66 | an episode is on a page iff it sits at one of the first min(n,20) positions of the filtered list |
| `EpisodeList.PagesIgnoreBeyondTwenty` | 1-first/views/episodeList.js:65-66 | whatever follows the 20th filtered episode changes neither page |
| `EpisodeList.PagesDisjoint` | 1-first/views/episodeList.js:65-66 | with distinct identifiers no episode appears on both pages |
| `EpisodeList.ShowPages` | 1-first/views/episodeList.js:53-66 | page 1 is the first min(n,10) listed episodes and page 2 those from min(n,10) up to min(n,20); each holds at most ten; together they are the first min(n,20); only matching fetched episodes are shown |
| `EpisodeList.SearchExample` | 1-first/views/episodeList.js:48-55 | of "Pilot", "Lawnmower Dog" and "Anatomy Park", the query "a" lists the last two, in order |
| `EpisodeDetails.InitialLikesValid` | 1-first/views/episodeDetails.js:10 | the liked list starts empty: it meets the invariant and no heart is full |
| `EpisodeDetails.RemoveId` | 1-first/views/episodeDetails.js:36 | removing by id gives an order-preserving subsequence holding exactly the values with other ids and no entry with that id |
| `EpisodeDetails.RemoveIdCounts` | 1-first/views/episodeDetails.js:36 | every entry with another id keeps all its copies and every entry with the id is dropped; with the subsequence fact this fixes the result exactly |
| `EpisodeDetails.HandleLikeCharacter` | 1-first/views/episodeDetails.js:34-44 | unlike iff liked (every entry with that id removed, every copy of the others kept, in order); else append iff fewer than 10 are liked; else list unchanged with the limit alert; a non-refused toggle flips the heart shown at line 67 |
| `EpisodeDetails.RemoveIdKeepsIdsUnique` | 1-first/views/episodeDetails.js:36 | removing by id keeps identifiers distinct |
| `EpisodeDetails.ToggleKeepsValid` | 1-first/views/episodeDetails.js:34-44 | every toggle preserves the invariant: at most 10 entries, no two sharing an id |
| `EpisodeDetails.RemoveAppendedId` | 1-first/views/episodeDetails.js:36-39 | removing the id of a just-appended, previously absent character gives back the list before the append |
| `EpisodeDetails.LikeThenUnlikeRestores` | 1-first/views/episodeDetails.js:35-39 | liking an unliked character with room to spare, then tapping it again, restores the list exactly |
| `EpisodeDetails.UniqueMemberOnce` | 1-first/views/episodeDetails.js:34-44 | in a liked list whose ids are distinct, as every toggle keeps them, each liked character occurs exactly once |
| `EpisodeDetails.RemoveUniqueMember` | 1-first/views/episodeDetails.js:36 | with distinct ids, removing a member's id removes exactly that member |
| `EpisodeDetails.UnlikeThenLikeSameEntries` | 1-first/views/episodeDetails.js:35-39 | unliking a liked character and liking it again gives the same entries (as a multiset), with the character moved to the end |
| `EpisodeDetails.LikeFreshInTurn` | 1-first/views/episodeDetails.js:38-39 | liking fresh, distinct characters in turn appends each in tap order while the total stays ≤ 10 |
| `EpisodeDetails.EleventhLikeRefused` | 1-first/views/episodeDetails.js:38-41 | ten distinct likes from empty all succeed; an eleventh new character is refused with the alert and the list is still exactly the ten |
| `Favorites.ColorsFor` | 1-first/views/likedCharactersScreen.js:26-38 | every status gets exactly one of three colour pairs: "Dead" iff #FF6347 on #FADBD8, "Alive" iff #32CD32 on #D4EFDF, anything else iff orange on #FFDAB9 |
| `Favorites.InexactStatusesFallBack` | 1-first/views/likedCharactersScreen.js:29-37 | "alive", "dead" and "unknown" all get the fallback orange colours |
| `Favorites.OpenFavorites` | 1-first/views/likedCharactersScreen.js:5-6 | the screen renders the list it was handed and starts with no row disabled |
| `Favorites.RenderRow` | 1-first/views/likedCharactersScreen.js:25-44 | a card is disabled iff its id is in the removed list; it is green exactly for "Alive", red exactly for "Dead", and orange on #FFDAB9 for every other status |
| `Favorites.HandleRemoveFromFavorites` | 1-first/views/likedCharactersScreen.js:8-23 | confirming calls the callback once with the character and appends its id; cancelling changes nothing; the rendered list never changes and no disabled row becomes enabled |
| `Favorites.PressRow` | 1-first/views/likedCharactersScreen.js:43-44 | a tap on a disabled row does nothing; otherwise it opens the removal dialog; the removed list only grows |
| `Favorites.RunInvariant` | 1-first/views/likedCharactersScreen.js:16-18 | over any run of taps the list is untouched, removed ids only grow and never repeat, and the k-th callback call carries the k-th newly removed id |
| `Favorites.RemovalLeavesListIntact` | 1-first/views/likedCharactersScreen.js:75-76 | however removals go, the screen still renders exactly the list it was opened with |
| `Favorites.ParamsFromDetails` | 1-first/views/episodeDetails.js:78 | the Episode Details button passes the liked list and no removal callback |
| `Favorites.HandleRemoveAsWritten` | 1-first/views/likedCharactersScreen.js:16-18 | with a callback supplied the dialog behaves as `HandleRemoveFromFavorites`; without one, confirming throws before the id is marked |
| `Favorites.ConfirmFromDetailsLeavesRowEnabled` | 1-first/views/likedCharactersScreen.js:16-18 | on the screen as opened from Episode Details, confirming a removal throws and the row stays enabled; with a callback it would be disabled |

## Left out

- Network fetching of episodes and characters (`episodeList.js:18-32`, `episodeDetails.js:12-32`) is left out because it is asynchronous I/O. This includes the all-or-nothing `Promise.all` batch, error logging, and loading flags. The model takes the fetched lists as inputs.
- React state and rendering are left out: hooks, re-render timing, keys, and the difference between the closure-read `likedCharacters` and the functional `prevLiked` update at `episodeDetails.js:35-39`. A toggle is one atomic step on the current list.
- Navigation wiring (`App.js`, `navigation.navigate`) is left out, apart from what the Episode Details button passes (`Favorites.ParamsFromDetails`).
- Two-way synchronisation between Favorites and Episode Details is not modelled. Removal callbacks are returned as events and change nothing else.
- The perpetual loading state of Episode Details without an episode (`episodeDetails.js:46-52`) is left out as UI.
- `Alert.alert` and `alert` dialogs are left out as UI. They become the `Choice` input and the `LimitReached` outcome.
- Styling, the pager widget, dot indicators and `onPageSelected` (`episodeList.js:69-71`) are left out. They affect only the active dot, never the lists.
- `Text.Lower`: lower-cases only the ASCII letters A-Z, not the full Unicode `toLowerCase`. Every search property is stated relative to this function.
- `EpisodeList.Slice`: models `slice` only for non-negative bounds. Those are the only bounds the source uses (0, 10, 20).
- `Favorites.ColorsFor`: the initial `'#000'` and `'#D4EFDF'` assignments (`likedCharactersScreen.js:26-27`) are not modelled. Every branch overwrites them.

## Findings

| source | as written | input that shows it | evidently intended | confidence | as-written member | corrected member |
|---|---|---|---|---|---|---|
| 1-first/views/episodeDetails.js:78 with 1-first/views/likedCharactersScreen.js:16-18 | The Favorites screen is opened with `{ likedCharacters }` only. Its confirm handler calls the missing `removeFromFavorites` before marking the id. | Like any character, open Favorites from Episode Details, tap its card and confirm "Remove". The call throws, line 18 never runs, and the card stays enabled. | Confirming marks the id and disables the card. The callback, when present, is told of the removal. | medium, not executed | `Favorites.HandleRemoveAsWritten` (shown by `Favorites.ConfirmFromDetailsLeavesRowEnabled`) | `Favorites.HandleRemoveFromFavorites` (with `Favorites.PressRow` and `Favorites.RunInvariant`) |
