# Story list screen: fetch, accumulate, search

This project models the `Home` screen of a small React Native app that lists
recent stories from a public search API. The screen keeps three pieces of
state: a page cursor `page`, the records received so far `data`, and the text
typed into the search box `search`. On mount it fetches the first page and
then keeps polling for the next one. A successful response appends the page's
hits and advances the cursor. Any failure is caught and changes nothing. The
rendered list is `data` itself when the search is empty. Otherwise it holds
the records whose title or author contains the search text, ignoring case.
Pressing a rendered record navigates to the details screen with that record.

Layout:

- `wrappers.dfy` (`Wrappers`): `Option`.
- `text.dfy` (`Text`): ASCII lower-casing and substring search (`includes`), with a proof
  that `Contains` means "occurs at some index".
- `records.dfy` (`Records`): the story `Record`, the `Outcome` of one request
  (`Resolved(status, hits)` or `Rejected`), and the `Navigation` request.
- `search_view.dfy` (`SearchView`): `Select` (what `Array.prototype.filter` does) with its
  lemmas, the screen's `Matches` predicate, `Filter` and the rendered `View`.
- `paging.dfy` (`Paging`): the state as a value (`ListingState`), one fetch as
  `Step`, and `Run` over any sequence of outcomes, with the accumulation lemmas.
- `home.dfy` (`HomeScreen`): class `Home` with the fields `page`, `data` and
  `search`, and the handlers. Each handler is proved against `Paging.Step` or
  states its new fields outright. It also holds the test suite's scenarios
  (`Scenarios`, `PeterMatchesAuthor`, `JestMatchesNothing`).

The network request is not modelled as a call. `GetData` takes the awaited
outcome as a parameter. `Resolved(200, None)` stands for a 200 response without
a `hits` array. Spreading that throws a `TypeError`, which the handler's
`catch` swallows.

Nothing in `getData` (Screens/Home.tsx:55-69) guards against a response that
arrives after `componentWillUnmount`. The timer and unmount are not modelled,
so the model says nothing about either.

## Model

| member | source | states |
|---|---|---|
| `HomeScreen.Home.constructor` | Screens/Home.tsx:33-37 | the screen starts at page 0 with no records and an empty search |
| `HomeScreen.Home.GetData` | Screens/Home.tsx:55-69 | the new state is `Paging.Step` of the old one. A status-200 outcome with hits appends them after the old records, in order, and advances `page` by one, even for an empty page. Any other status, a rejected request or missing hits leave `data` and `page` unchanged. `search` never changes |
| `HomeScreen.Home.InitialData` | Screens/Home.tsx:46-49 | the first fetch followed by re-setting `data` to a copy of itself has exactly the effect of one fetch step |
| `HomeScreen.Home.ChangeText` | Screens/Home.tsx:125-127 | `search` becomes exactly the typed text; `data` and `page` are unchanged; the rendered list becomes the view of the old records under the new text |
| `HomeScreen.Home.Press` | Screens/Home.tsx:76-78 | pressing the k-th rendered item yields `navigate('Details', {data: item})` with exactly that item. The item is one of the accumulated records and matches the current search. No state changes |
| `Paging.Step` | Screens/Home.tsx:55-69 | the specification of one awaited `getData`, which `GetData` and `InitialData` are proved against. The old records stay a prefix of the new ones, `page` never goes back, and `search` is kept. The state is unchanged exactly when `page` did not advance |
| `Paging.Run` | Screens/Home.tsx:55-69 | the state after a sequence of fetches, one `Step` each. Across the whole sequence the old records stay a prefix, `page` never goes back, and `search` is kept |
| `Paging.StepAppends` | Screens/Home.tsx:60-64 | one fetch appends what it delivers, advances `page` by one exactly when it delivers, keeps `search`, and is the identity on failure |
| `Paging.RunAccumulates` | Screens/Home.tsx:55-69 | after any sequence of outcomes, `data` is the old records followed by all delivered hit lists in arrival order, `page` has advanced once per delivery, and `search` is unchanged |
| `Paging.NeverShrinks` | Screens/Home.tsx:61-64 | at every later point of a run, the earlier list is a prefix of the later one: it never shrinks, is never reordered, and `page` never goes back |
| `Paging.FromInitialAllDelivered` | Screens/Home.tsx:33-69 | from the initial state, n fetches that all deliver give `page == n` and `data` equal to the n hit lists concatenated in order |
| `Paging.ViewAfterStep` | Screens/Home.tsx:134-146 | whatever the search text, a fetch only adds to the end of the rendered list: new view = old view followed by the view of the delivered hits |
| `SearchView.Select` | Screens/Home.tsx:137-145 | `filter` returns no more elements than it was given, and each of them is from the input and satisfies the predicate |
| `SearchView.SelectKeepsExactly` | Screens/Home.tsx:137-145 | an element of the input is in the filtered result if and only if the predicate accepts it |
| `SearchView.SelectPicksAccepted` | Screens/Home.tsx:137-145 | position k of the filtered result holds the input element at the k-th accepted index. These indices increase strictly and are exactly the accepted ones, so the result is the order-preserving subsequence of accepted elements |
| `SearchView.SelectConcat` | Screens/Home.tsx:137-145 | filtering a concatenation is concatenating the filtered parts |
| `SearchView.SelectIdempotent` | Screens/Home.tsx:137-145 | filtering a filtered list with the same predicate changes nothing |
| `SearchView.SelectAll` | Screens/Home.tsx:137-145 | a predicate accepting every element keeps the list unchanged |
| `SearchView.Matches` | Screens/Home.tsx:138-144 | the predicate passed to `filter`: the lower-cased title or author contains the lower-cased search. Every record matches the empty search |
| `SearchView.Filter` | Screens/Home.tsx:137-145 | `data.filter(Matches)`. The result is no longer than `data`, and every kept record is from `data` and matches the search |
| `SearchView.View` | Screens/Home.tsx:134-146 | the `data` prop of the list: `data` for an empty search, otherwise the filter. Every shown record comes from `data` and matches the search |
| `SearchView.ViewIsFilter` | Screens/Home.tsx:135-136 | with an empty search the view is `data` itself. The empty-search shortcut agrees with the filter, since every title includes the empty string |
| `SearchView.ViewKeepsExactlyMatching` | Screens/Home.tsx:137-145 | the view is the order-preserving subsequence of `data`, no longer than `data`. It keeps exactly the records whose lower-cased title or author contains the lower-cased search. A dropped record contains it in neither field |
| `SearchView.ViewConcat` | Screens/Home.tsx:134-146 | the view of two concatenated lists is the concatenation of their views |
| `SearchView.ViewIdempotent` | Screens/Home.tsx:134-146 | filtering the rendered list again by the same search changes nothing |
| `SearchView.MatchesIgnoresSearchCase` | Screens/Home.tsx:139-144 | lower-casing the search text first does not change which records match |
| `Text.LowerChar` | Screens/Home.tsx:140 | a lowered character is never an upper-case letter, and it is a lower-case letter exactly when the input was a letter of either case |
| `Text.Lower` | Screens/Home.tsx:140 | lower-casing keeps the length and leaves no upper-case letter |
| `Text.LowerIdempotent` | Screens/Home.tsx:140-141 | lower-casing twice is lower-casing once |
| `Text.Contains` | Screens/Home.tsx:141 | `includes`: some suffix of the haystack starts with the needle. It can hold only when the needle is no longer than the haystack |
| `Text.ContainsIff` | Screens/Home.tsx:141 | `includes` holds exactly when the needle occurs in the haystack at some index |
| `Text.ContainsEmpty` | Screens/Home.tsx:141 | every string includes the empty string |
| `Text.ContainsFirstChar` | Screens/Home.tsx:141 | a string that includes a non-empty needle contains the needle's first character |
| `HomeScreen.PeterMatchesAuthor` | __tests__/App.test.tsx:67-73 | the sample record's lower-cased author contains "peter", so the record matches the search "Peter" |
| `HomeScreen.JestMatchesNothing` | __tests__/App.test.tsx:95-101 | the sample record matches the search "Jest" in neither title nor author, so the view of a list holding only that record is empty. `HomeScreen.Scenarios` (a method without a contract, not listed separately) replays the suite at __tests__/App.test.tsx:24-133 against the class contracts: one fetch, the "Peter" and "Jest" searches, a press and a rejected fetch |

## Left out

- The axios request, its URL and the page number it sends (Screens/Home.tsx:57-59). This is network I/O. `GetData` takes the awaited outcome as an input.
- The `console.log` of a caught error (Screens/Home.tsx:67). It is an observability side effect with no state.
- The polling timer, the `interval` field, `componentDidMount` and `componentWillUnmount` (Screens/Home.tsx:40-45, 51-53). This is timing. Each fetch is modelled as one atomic step.
- Overlapping in-flight fetches that read the same `page`. This is concurrency, and React's batching of `setState` is part of it.
- `HomeScreen.Home.InitialData`: assumes each `setState` takes effect before the next statement reads `this.state`. Under batched updates the copy at Screens/Home.tsx:48 would read `data` from before the fetch. It would then overwrite the page just appended, while `page` still advances.
- Rendering: the JSX layout, `renderItem`'s display of fields, the non-empty-list guard (Screens/Home.tsx:131) and the styles (Screens/Home.tsx:157-250).
- `moment` date formatting and `Linking.openURL` (Screens/Home.tsx:91, 99). These are external libraries and platform I/O.
- `Text.Lower`: models `toLowerCase` for ASCII letters only. Full Unicode case mapping, which can change a string's length, is not modelled.
- Records whose `title` or `author` is null or undefined. The filter would throw inside `render`, which is not a stated behaviour. In the model both are always strings.
- Payloads whose `hits` is some other iterable, such as a string spread character by character. `hits` is either a list of records or missing.
- `page` is a JavaScript number. It is an unbounded `nat` here, and precision loss past 2^53 is not modelled.
- Screens/Details.tsx (a JSON dump of the navigation parameter) and App.tsx (navigator wiring) are not part of this model.
