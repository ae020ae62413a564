# Random-user directory: navigation, search and formatters in Dafny

This project models the interactive core of a small browser directory
(`js/script.js`). The page fetches a batch of twelve user profiles and shows
them as a gallery of cards. Clicking a card opens a modal with Prev/Next/close
controls, usable by mouse or keyboard. A search box filters the gallery by name
as the user types. Two small formatters prepare the phone number and the
birthday for display.

The page's global variables (`allUsers`, `searchOutput`, `isSearchActive`,
`currentIndex`, `activeUser` and whether the modal is shown) become one
immutable `Directory.State`. Each event handler becomes a pure transition on
that state. The three regular-expression replaces become functions
on `string`. The global replace that strips non-digits becomes `Digits`. The
phone and date replaces become leftmost-match functions.

Modules:

- `Options`: `Option`, standing in for JavaScript's `undefined`.
- `Text`: the `\d` class, JavaScript white space and line terminators, and
  `toLowerCase`, `trim` and `includes`.
- `Formatters`: `formatPhoneNumber` and `formatDate`.
- `Search`: the user record, the normalised query, and the name filter with
  its reference definition `Positions`. `Positions` lists the indices of the
  matching users in increasing order.
- `Directory`: the state, the handlers, the event type, and the lemmas about
  the cursor and the controls.

The model keeps these details of js/script.js:

- A search sets `currentIndex` to 0. It does not clear the cursor.
- The modal is closed after a search because re-rendering the gallery
  re-creates the modal hidden. In the no-results case the modal is removed
  from the page instead, which has the same effect.
- A click whose target text is `X` closes the modal even if the target is not
  the close button. In the real page that target is the glyph inside the
  button. The keyboard path closes only on the button's id or on Escape.
- The keys are compared with the literal names `"Escape"`, `"Enter"` and
  `"Space"`, exactly as written. A browser reports the space bar's key as
  `" "`, and `"Space"` is only its key code, so the `"Space"` branch never
  fires from a real keyboard (`Directory.KeyHandlerIgnoresSpaceBar`).
- Enter or Space on a focused button also makes the browser fire a click on it.
  So one Enter on Next runs the key handler and then the click handler, and it
  can step twice. The space bar on Next still steps once, through the click
  alone (`Directory.SpaceOnNextStillSteps`). `Directory.Run` allows these pairs
  of events, so the lemmas over runs cover them.

## Model

| member | source | states |
|---|---|---|
| Text.LowerChar | js/script.js:61-63 | lower-casing maps `A`-`Z` to `a`-`z`, changes nothing else, and never creates or removes white space |
| Text.Lower | js/script.js:61-63 | `toLowerCase` keeps the length and lower-cases each character in place |
| Text.LeadingBlanks | js/script.js:61-63 | the counted prefix is all white space and is followed by a non-blank character or the end |
| Text.TrailingBlanks | js/script.js:61-63 | the counted suffix is all white space and is preceded by a non-blank character or the start |
| Text.Trim | js/script.js:61-63 | `trim` returns the infix between the leading and trailing white-space runs; the result neither starts nor ends with white space, and it is empty exactly when the leading run covers the whole string |
| Text.TrimEmptyIffBlank | js/script.js:61-68 | trimming gives the empty string if and only if every character is white space |
| Text.LowerKeepsBlank | js/script.js:61-63 | a string is all white space before lower-casing if and only if it is all white space after |
| Text.LowerAppend | js/script.js:75 | lower-casing a concatenation is the concatenation of the lower-cased parts |
| Text.ContainsAt | js/script.js:76 | `includes` holds whenever the needle occurs at some offset |
| Text.ContainsWitness | js/script.js:76 | whenever `includes` holds, the needle occurs at some offset |
| Text.ContainsIff | js/script.js:76 | `includes` holds if and only if the needle occurs at some offset of the haystack |
| Search.Normalise | js/script.js:59-64 | the normalised query has no upper-case ASCII letter and neither starts nor ends with white space |
| Search.NormaliseEmptyIffBlank | js/script.js:59-68 | the query normalises to empty if and only if the raw text is empty or only white space |
| Search.SearchName | js/script.js:75 | the name searched is the lower-cased first name, a space, and the lower-cased last name, and it has no upper-case ASCII letter |
| Search.Matches | js/script.js:75-76 | a user matches if and only if the query occurs at some offset of that user's lower-cased "first last" |
| Search.Filter | js/script.js:74-77 | the search output is no longer than the batch, every entry matches, and its j-th entry is the user at the j-th matching position of `Positions` |
| Search.FilterFrom | js/script.js:74-77 | filtering a suffix keeps only matching users and is no longer than that suffix |
| Search.PositionsFrom | js/script.js:74-77 | the positions from an offset are strictly increasing, every one matches, and every matching position is listed |
| Search.Positions | js/script.js:74-77 | the positions of the matching users are strictly increasing and are exactly the indices whose user matches |
| Search.FilterFromPicksPositions | js/script.js:74-77 | filtering a suffix picks, in order, the users at the matching positions of that suffix |
| Search.FilterEmptyIffNoMatch | js/script.js:74-80 | the search output is empty if and only if no user's name contains the query |
| Search.FilterEmptyQueryKeepsAll | js/script.js:68-77 | filtering by the empty query would keep every user, so treating a blank query as "show everyone" agrees with the filter |
| Directory.At | js/script.js:225 | an array read gives a user exactly when the index is in range, and then gives the user at that index |
| Directory.ActiveView | js/script.js:138 | the displayed list is the search output while a search is active and the whole batch otherwise; the same choice is made at lines 177, 225 and 231 |
| Directory.Loaded | js/script.js:20-27 | after the batch arrives, every user is shown, no search is active, the modal is hidden and the cursor invariant holds |
| Directory.ExecuteSearch | js/script.js:56-85 | a search keeps the batch, resets `currentIndex` to 0, leaves the modal closed, is active exactly when the normalised query is non-empty, and keeps the cursor invariant |
| Directory.SearchBlankShowsAll | js/script.js:59-70 | an empty or white-space-only query ends the search and the view becomes the whole batch |
| Directory.SearchShowsExactlyMatches | js/script.js:71-77 | after a non-blank query, the view is exactly the users whose lower-cased "first last" contains the query, in their original order, and is no longer than the batch |
| Directory.SearchWithoutMatchesIsEmpty | js/script.js:74-80 | a query that matches nobody leaves an empty view, which is the "No results found." state |
| Directory.HandleCardClick | js/script.js:133-143 | clicking card k opens the modal with `currentIndex = k` on the k-th user of the active view; a click off the cards changes nothing |
| Directory.OpenAfterSearchShowsMatch | js/script.js:137-139 | during a search, card k shows the k-th matching user, which is the user at the k-th matching position of the whole batch; it is never the batch's k-th user when that user does not match |
| Directory.PreviousUser | js/script.js:224-227 | the previous step moves the cursor down by exactly one and shows the view's entry there, or `undefined` when out of range |
| Directory.NextUser | js/script.js:230-233 | the next step moves the cursor up by exactly one and shows the view's entry there, or `undefined` when out of range |
| Directory.ModalControls | js/script.js:175-178 | Prev is shown if and only if `currentIndex > 0`; Next is shown if and only if `currentIndex` is below the last index of the active view |
| Directory.CloseModal | js/script.js:236-243 | closing hides the modal and leaves the cursor and the view unchanged |
| Directory.ProcessModalInteraction | js/script.js:181-193 | a modal click changes nothing while the modal is hidden; otherwise it steps Prev by -1, steps Next by +1, closes, or does nothing, never changes the view, and keeps the cursor invariant |
| Directory.ProcessModalKeyInteraction | js/script.js:203-221 | key presses are ignored while the modal is hidden, Escape closes it, keys other than Escape/Enter/Space do nothing, and the cursor invariant is kept |
| Directory.ControlsMatchGuards | js/script.js:175-189 | Prev is shown if and only if clicking Prev changes the state, and Next is shown if and only if clicking Next changes the state |
| Directory.PrevStepsBackOne | js/script.js:184-186 | with the modal open, Prev moves to the previous user of the active view, and at the first user it is a no-op |
| Directory.NextStepsForwardOne | js/script.js:187-189 | with the modal open, Next moves to the next user of the active view, and at the last user it is a no-op |
| Directory.NextWalksToLast | js/script.js:187-189 | n presses of Next from cursor i show the user at min(i + n, last) and keep the modal open |
| Directory.KeyboardMatchesClick | js/script.js:203-221 | Enter or Space on a focused element acts exactly like clicking it, with the same guards and transitions, unless the element's text is `X` and it is not the close button |
| Directory.TextXClosesOnlyByClick | js/script.js:190-191 | clicking an element without an id whose text is "X" closes the modal, but Enter with focus on an element whose id is empty does nothing |
| Directory.KeyHandlerIgnoresSpaceBar | js/script.js:210 | the key handler ignores the space bar's key `" "` because it compares with `"Space"`; on a focused modal button the browser's own click still acts, and `Run` allows that as a `ModalClick` |
| Directory.SpaceOnNextStillSteps | js/script.js:187-189 | the space bar on the focused Next button, as a key event followed by the browser's click, is a possible run that moves to the next user of the active view |
| Directory.Step | js/script.js:13-52 | every event, from the listeners at lines 13-16 and the search box's `input` listener at line 52, keeps the batch unchanged and keeps the cursor invariant |
| Directory.RunKeepsCursorInView | js/script.js:133-233 | after any sequence of possible events, an open modal's cursor is inside the active view and shows the user at that index |
| Directory.PicksAll | js/script.js:138 | the batch read at indices 0, 1, 2, … in turn is the batch itself, an ordered pick of itself |
| Directory.LoadedInOrder | js/script.js:20-27 | once the batch is displayed, the active view is an ordered subsequence of the batch |
| Directory.SearchInOrder | js/script.js:56-85 | after any search, the active view is an ordered subsequence of the batch |
| Directory.StepKeepsInOrder | js/script.js:13-52 | no event can make the active view anything but an ordered subsequence of the batch |
| Directory.RunKeepsInOrder | js/script.js:56-233 | after any sequence of possible events, the active view is still an ordered subsequence of the batch |
| Directory.SessionKeepsInOrder | js/script.js:20-233 | from the moment the batch is displayed, every session keeps the active view an ordered subsequence of the batch |
| Directory.OpenThenSearchNothing | js/script.js:56-145 | in a batch of twelve, opening card 3 shows both Prev and Next; a following search that matches nobody empties the view and closes the modal |
| Formatters.Digits | js/script.js:167 | stripping non-digits leaves only digits, is no longer than the input, and leaves an all-digit string unchanged |
| Formatters.DigitsAppend | js/script.js:167 | stripping non-digits distributes over concatenation |
| Formatters.FirstPhone | js/script.js:167 | the phone pattern search returns the leftmost position with ten consecutive digits, or none when there is none |
| Formatters.ReplacePhone | js/script.js:167 | the second replace leaves a string without ten consecutive digits unchanged; otherwise it adds exactly four characters and keeps the string's digits in order |
| Formatters.DigitsAroundPunctuation | js/script.js:167 | digits on both sides of a run of non-digits come out joined, with the run dropped |
| Formatters.DigitsOfPunctuated | js/script.js:167 | the digits of `(abc) def-ghij` are exactly `abcdefghij` |
| Formatters.DigitsOfFormatted | js/script.js:167 | splicing `(abc) def-ghij` into a string contributes exactly the digits `abcdefghij` at that place |
| Formatters.ReplacePhoneKeepsDigits | js/script.js:167 | replacing a ten-digit run by its `($1) $2-$3` form keeps the digits of the whole string |
| Formatters.FormatPhoneNumber | js/script.js:166-168 | with fewer than ten digits the result is the bare digits; otherwise it is `(NNN) NNN-NNNN` from the first ten digits followed by the remaining digits |
| Formatters.FormatPhoneKeepsDigits | js/script.js:166-168 | formatting only adds punctuation: the digits of the result are the digits of the input |
| Formatters.FormatPhoneIdempotent | js/script.js:166-168 | formatting an already formatted number gives the same string |
| Formatters.FormatPhoneExample | js/script.js:166-168 | `"1234567890"` becomes `"(123) 456-7890"` |
| Formatters.FormatPhoneShortExample | js/script.js:166-168 | `"555-0100"` has seven digits and becomes `"5550100"` |
| Formatters.FormatPhoneLongExample | js/script.js:166-168 | `"123456789012"` becomes `"(123) 456-789012"` |
| Formatters.LineEnd | js/script.js:171 | the greedy `.+` stops at the first line terminator at or after the given position, or at the end |
| Formatters.FirstDate | js/script.js:171 | the date pattern search returns the leftmost position of `YYYY-MM-DD` followed by one non-line-terminator, or none when there is none |
| Formatters.FirstDateFinds | js/script.js:171 | the search returns a matching position when no earlier position matches |
| Formatters.FormatDate | js/script.js:170-172 | input without a `YYYY-MM-DD` followed by at least one more character is returned unchanged, so a bare `"1990-05-03"` is unchanged |
| Formatters.FormatDateOfTimestamp | js/script.js:170-172 | a one-line `YYYY-MM-DD<rest>` with non-empty rest, after a lead-in without digits, becomes the lead-in followed by `MM/DD/YYYY` |
| Formatters.FormatDateExample | js/script.js:170-172 | `"1990-05-03T00:00:00Z"` becomes `"05/03/1990"` |

## Left out

- The fetch (`retrieveUsers`, `fetchData`, js/script.js:20-36): network I/O. The batch is a given `seq<User>`, and `Directory.Loaded` is the state once it has arrived.
- A search typed before the fetch resolves is left out. It fails on the still-undefined `allUsers`, and it can leave `isSearchActive` set over an unfiltered gallery.
- HTML construction and DOM writes (`initializeSearch`, `displayUsers`, `setupModalStructure`, `displayModal`, `switchUser`, and the "No results found." markup). Only the resulting abstract state is kept. The card ids rendered by `displayUsers` are the positions 0 to n-1 of the active view. That is why `Directory.HandleCardClick` requires the clicked id to lie inside the active view.
- Attaching and detaching listeners, and the focus lookup. The clicked element and the focused element's id are parameters. The modal's click listener is attached exactly while the modal is open, so a click on a hidden modal is a no-op.
- The stale `modalElem` after a no-results search (js/script.js:80). The modal is modelled as closed. The detached element can still receive Escape, which only hides it again.
- Text.Lower: lower-cases ASCII letters only, while `toLowerCase` maps every Unicode letter.
- Text.Trim: follows the white space of the ECMAScript standard. Code units are modelled as Unicode scalar values, so surrogate pairs are not distinguished.
- `searchOutput` before the first non-blank search is `undefined` in the page. It is `[]` here. It is only read while a search is active, so the difference is never visible.
- `currentIndex` before the first click or search is `undefined` in the page. It is `0` here. The index is never read before one of them assigns it.
- Rendering a second info panel when a card is clicked while the modal is already open is a DOM artefact. It is left out.
