# Activities page: roster and capacity bookkeeping

This project models the client-side script of the school activities page
(`src/static/app.js`) and proves properties of the model in Dafny.

The script renders one card per activity. Each card holds:

- a participant list, with one row per email and a delete button on each row, or the single placeholder row `No participants yet.`;
- a capacity line `Capacity: N/M`;
- a `data-max` attribute.

The script keeps a name-indexed table `cardsByName`. After a successful request it patches that table:

- A signup drops the placeholder, appends a row, and recounts the participant rows to rewrite the capacity line.
- An unregister detaches the clicked row and adds the placeholder when the list becomes empty. It then reads the capacity line back with the regular expression `/(\d+)\s*\/\s*(\d+)/` and writes `max(0, N-1)/M`.

Every notification goes through `showMessage`, which schedules a hide 4000 ms later.

The project has these modules:

- `Wrappers` (`wrappers.dfy`) holds `Option`.
- `JsText` (`js_text.dfy`) holds the JavaScript semantics the script relies on:
  - the whitespace class shared by `\s` and `trim`;
  - `\d`;
  - `a || b` on strings;
  - `parseInt(s, 10)`, with `None` standing for `NaN`;
  - the decimal rendering of numbers in template literals.
- `Capacity` (`capacity.dfy`) writes the capacity line. It also models the regular expression as a greedy match at one position plus a leftmost search.
- `Roster` (`roster.dfy`) holds one table entry as a value: `Card(rows, capacityText, storedMax)`.
  - A participant row carries a node identity, the email and the activity its click handler captured.
  - The signup and unregister patches are the functions `SignedUp` and `Unregistered`.
  - The entry invariant is `Consistent`: the placeholder is present exactly when there are no participant rows, and the capacity line reads the participant count over the stored maximum.
- `Notice` (`notice.dfy`) is the message element. It is a class whose text, class set and pending hide timers are updated in place. Time is a parameter `now`.
- `Page` (`page.dfy`) is the page state as a class `ActivitiesPage`. It holds the table, the appended cards and options, the loading message, and a counter that gives every created row a fresh identity. Its methods are:
  - `renderActivities`, with its loop;
  - `loadActivities`;
  - the submit handler;
  - the delete button's click handler.

  Its invariant `Valid` says that every list holds only rows created for its own activity, each before the counter's current value, that no list holds the same node twice, and that every list holds the placeholder alone or participant rows only. So a participant node sits in at most one place (`RowsUnique`), and after a successful unregister no list holds the clicked row.

  The network is not modelled. How a request ended is an input, `Outcome`, and each handler's post-response work is one step.

The code behaves as follows, and the model follows it:

- `showMessage` never clears an earlier timer. A hide scheduled for an older message can hide a newer one before its 4000 ms are up; `Notice.StaleHideHidesNewerMessage` shows this.
- The unregister handler decrements the number it reads from the capacity line. It does not recount the list, unlike the signup handler. An unregister whose row is already detached still lowers the count, and `Roster.UnregisterDetachedBreaksCount` shows that the entry invariant then fails.

## Model

| member | source | states |
|---|---|---|
| JsText.Trim | src/static/app.js:134 | `trim` returns a slice `s[i..j]` of the input with only whitespace before `i` and after `j`; it is empty exactly when the input is all whitespace, and otherwise neither starts nor ends with whitespace |
| JsText.TrimUnpadded | src/static/app.js:134 | a string with no whitespace at either end is left unchanged by `trim` |
| JsText.TrimIdempotent | src/static/app.js:134 | trimming an already trimmed email changes nothing |
| JsText.NatToString | src/static/app.js:92 | `${n}` for a count is a non-empty digit string without leading zero |
| JsText.NatToStringValue | src/static/app.js:92 | the decimal text of `n` reads back as the value `n` |
| JsText.ParseInt | src/static/app.js:51-52 | `parseInt(s, 10)` is `NaN` exactly when, after leading whitespace and an optional sign, no digit follows |
| JsText.ParseIntOrZero | src/static/app.js:165 | `parseInt(x, 10) \|\| 0` is 0 when `parseInt` gives `NaN`, and otherwise exactly the parsed number (0 when that number is 0); `Roster.MaxOf` reads `data-max` with it |
| JsText.ParseIntOfNatToString | src/static/app.js:165 | `parseInt(String(max), 10) \|\| 0` gives back `max` for every non-negative maximum stored in `data-max` |
| Capacity.FormatCapacity | src/static/app.js:53 | the template literal `Capacity: ${current}/${max}` starts with the label `Capacity: ` and has at least three characters after it; `FormatCapacityShape` and `CapacityRoundTrip` state the rest |
| Capacity.FormatCapacityShape | src/static/app.js:53 | after the label comes exactly the decimal text of the current count, then `/`, then exactly the decimal text of the maximum; the count's text is all digits, and the maximum's is all digits, after a `-` when the maximum is negative |
| Capacity.MatchAt | src/static/app.js:49 | an attempt of the pattern at one position captures two non-empty digit strings when it succeeds |
| Capacity.MatchAtFraction | src/static/app.js:49 | an attempt at `i` succeeds on a digit run `a`, blanks, `/`, blanks, a digit run `b` and a rest not starting with a digit (so `3 / 10` followed by more text matches), and captures exactly `a` and `b` |
| Capacity.MatchAtParts | src/static/app.js:49 | conversely, a successful attempt sees exactly that shape, with its two groups as the digit runs |
| Capacity.MatchAtIff | src/static/app.js:49 | an attempt at `i` captures `a` and `b` if and only if both are non-empty digit strings and the text from `i` has that shape |
| Capacity.MatchFrom | src/static/app.js:49 | the unanchored search from a position returns two non-empty digit groups when it succeeds; `MatchFromLeftmost` states which attempt it returns |
| Capacity.MatchCapacity | src/static/app.js:49 | `text.match(re)` on the whole text returns two non-empty digit groups when it succeeds |
| Capacity.MatchFromLeftmost | src/static/app.js:49 | `text.match(re)` reports the leftmost position where the pattern matches, and reports no match only when no position matches |
| Capacity.CapacityNumbers | src/static/app.js:49-52 | the handler has numbers exactly when the pattern matches, and they are the values `parseInt(match[1], 10)` and `parseInt(match[2], 10)` of its two groups |
| Capacity.CapacityNumbersNone | src/static/app.js:49-52 | the handler finds no numbers to rewrite exactly when the pattern matches at no position of the text |
| Capacity.CapacityRoundTrip | src/static/app.js:49-53 | every line `Capacity: N/M` the page writes matches the pattern, and its groups read back as exactly `N` and `M` |
| Capacity.DecrementCapacity | src/static/app.js:49-54 | a capacity line that matches, with groups `N` and `M`, becomes exactly `Capacity: max(0, N-1)/M`, which reads back as those two numbers; a line that does not match is kept |
| Roster.IsPlaceholderRow | src/static/app.js:154 | comparing a row's text with `No participants yet.` recognises the placeholder and no participant row |
| Roster.FirstPlaceholder | src/static/app.js:154 | `find` returns the first placeholder row, and returns none only when the list holds no placeholder |
| Roster.RemoveNode | src/static/app.js:36-37 | `li.remove()` takes exactly one occurrence of an attached row out of the list, as a multiset, and leaves a detached row's list as it was |
| Roster.RemoveNodeKeepsOrder | src/static/app.js:36-37 | the attached row leaves from its first position `k`, and the list becomes the rows before `k` followed by the rows after it, in their order |
| Roster.RemoveNodeMembers | src/static/app.js:36-37 | removing a node never adds a row to the list |
| Roster.RemoveNodeDistinct | src/static/app.js:36-37 | in a list that holds no node twice, `li.remove()` leaves no copy of the removed node, and the rest still hold no node twice |
| Roster.RemoveFirstPlaceholderDistinct | src/static/app.js:154-155 | dropping the placeholder keeps a list free of duplicate nodes and adds no row |
| Roster.SignedUpDistinct | src/static/app.js:153-158 | appending a node created by `createParticipantLi`, different from every node already in the list, keeps the list free of duplicate nodes |
| Roster.UnregisteredDistinct | src/static/app.js:35-44 | an unregister leaves no copy of its row in a list that held no node twice, and keeps that list free of duplicates |
| Roster.ParticipantRows | src/static/app.js:163 | the filter keeps only participant rows |
| Roster.ParticipantRowsMembers | src/static/app.js:163 | a row survives the filter exactly when it is in the list and is a participant row |
| Roster.PlaceholderIffNoParticipants | src/static/app.js:96-104 | in a well-formed list the placeholder is present if and only if there are no participant rows, and then it is alone |
| Roster.RenderedCardConsistent | src/static/app.js:92-109 | a freshly rendered card satisfies the entry invariant, so the displayed count equals the number of participant rows; the stored maximum reads back as the activity's maximum |
| Roster.RemoveFirstPlaceholder | src/static/app.js:154-155 | a list without a placeholder is unchanged; a list with one loses exactly one row |
| Roster.RemoveFirstPlaceholderEffect | src/static/app.js:154-155 | removing the found placeholder keeps every participant row and drops exactly one placeholder: the first one, at a position `k` with no placeholder before it, and the list becomes the rows before `k` followed by the rows after it |
| Roster.SignedUp | src/static/app.js:151-167 | the signup patch keeps the stored maximum, puts the new row last, and grows the list by one unless it replaced a placeholder |
| Roster.SignedUpEffect | src/static/app.js:151-167 | after a signup the new row is last, the participant rows are the old ones plus the new one, and one placeholder is gone if there was one; with a non-negative maximum the capacity reads the old count plus one over that maximum |
| Roster.SignupKeepsConsistent | src/static/app.js:151-167 | a signup patch keeps the entry invariant |
| Roster.SignupKeepsShape | src/static/app.js:151-158 | after a signup the list is one or more participant rows and no placeholder |
| Roster.UnregisteredKeepsShape | src/static/app.js:36-44 | an unregister, of an attached or a detached row, keeps the list the placeholder alone or participant rows only |
| Roster.Unregistered | src/static/app.js:36-54 | the unregister patch keeps the stored maximum, never leaves a non-empty list empty, and leaves the list alone when the row is detached |
| Roster.UnregisteredEffect | src/static/app.js:36-54 | an attached row leaves the list from where it sits, the other rows keeping their order, with the placeholder added exactly when the list empties; a detached row leaves the list unchanged; a matching capacity line is decremented, floored at zero, either way |
| Roster.UnregisterAttachedKeepsConsistent | src/static/app.js:36-54 | an unregister of a row attached to the entry's list keeps the entry invariant |
| Roster.UnregisterAttachedRows | src/static/app.js:36-44 | removing an attached row keeps the list well-formed and lowers the participant count by one |
| Roster.UnregisterDetachedBreaksCount | src/static/app.js:36-54 | an unregister of a row no longer in the list leaves the list as it was but lowers the displayed count, so a consistent entry with participants stops being consistent |
| Roster.LastParticipantLeaves | src/static/app.js:36-54 | removing the only participant leaves the placeholder alone and turns `1/M` into `0/M` |
| Roster.FirstParticipantJoins | src/static/app.js:151-167 | the first signup into an empty list replaces the placeholder with the new row and shows `1/M` |
| Notice.PendingAfter | src/static/app.js:74 | the hides still pending at `now` are exactly the scheduled ones due later than `now`, each as many times as it was scheduled |
| Notice.MessageElement.ShowMessage | src/static/app.js:69-75 | the text is replaced; the class set becomes exactly `message` and the given type, without `hidden`; the hides due by `now` have already fired and are gone, every later one stays pending, and one hide is added 4000 ms later |
| Notice.MessageElement.Elapse | src/static/app.js:74 | when a hide falls due, `hidden` is added to whatever message is shown; the text is unchanged and the hides still pending are those due later |
| Notice.StaleHideHidesNewerMessage | src/static/app.js:69-75 | of two messages 1000 ms apart, the first one's hide hides the second while the second's own hide is still pending |
| Notice.LateMessageStaysVisible | src/static/app.js:69-75 | a message shown 5000 ms after the first is still visible 1000 ms later, with only its own hide pending |
| Page.FailureText | src/static/app.js:29-61 | the text of a failed request is the body's `detail`, else its `message`, else the handler's fallback; a thrown error shows its own message, else the catch block's fallback; the text is never empty |
| Page.NamesHas | src/static/app.js:84 | a name is among the keys rendered exactly when some activity carries it |
| Page.RenderedStep | src/static/app.js:84-116 | rendering one more activity, with distinct keys, keeps every earlier card registered and showing its activity, and adds exactly the new name |
| Page.RenderedConsistent | src/static/app.js:84-116 | rendering keeps a consistent table consistent |
| Page.RowsUnique | src/static/app.js:11-12 | each row node is created once by `createParticipantLi` and appended to its own activity's list, so in a valid table, whose lists hold only their own activity's rows and no node twice, a participant node sits in one list at one position |
| Page.UnregisteredGone | src/static/app.js:35-44 | after `li.remove()`, and the placeholder when the list is left empty, no list of a valid table holds the removed row: its own list lost it and no other list ever held it |
| Page.SignedUpValid | src/static/app.js:151-158 | appending a row created for the list's activity at the counter's value keeps the entry valid under the advanced counter: owned rows, no node twice, participant rows only |
| Page.UnregisteredValid | src/static/app.js:35-44 | an unregister keeps the entry valid: owned rows, no node twice, the placeholder alone or participant rows only |
| Page.SignupEntryValid | src/static/app.js:150-158 | patching a valid table's entry with a signup of a fresh row keeps the table valid under the advanced counter |
| Page.UnregisterEntryValid | src/static/app.js:35-44 | patching a valid table with an unregister keeps it valid, and afterwards no list holds the row |
| Page.ActivitiesPage.constructor | src/static/app.js:1-8 | the page starts with an empty table, no cards, no options and the loading message |
| Page.ActivitiesPage.ClearLoading | src/static/app.js:77-80 | the loading message is gone |
| Page.ActivitiesPage.CreateParticipantRow | src/static/app.js:11-67 | a new row node with a fresh identity, bound to that email and that activity |
| Page.ActivitiesPage.RenderRoster | src/static/app.js:94-104 | one new row per participant, in order and bound to the activity, each a node of its own, or the placeholder alone when there are none |
| Page.ActivitiesPage.RenderNext | src/static/app.js:85-115 | one loop turn appends the card and the option for the next name and registers an entry that shows the activity |
| Page.ActivitiesPage.RenderActivities | src/static/app.js:82-117 | the loading message is cleared; the cards and options are appended in key order; each activity's entry shows its rows, its capacity `N/M` and its stored maximum; other entries are untouched; the table invariant is kept |
| Page.ActivitiesPage.LoadActivities | src/static/app.js:119-130 | data that arrives is rendered without a message; on failure the page clears the loading message, changes no entry, card, option or row counter, and shows `Could not load activities.` as an error |
| Page.ActivitiesPage.PatchSignup | src/static/app.js:150-168 | when the activity has an entry, a new row for the email is added by `SignedUp`; otherwise the table is unchanged; consistency is kept |
| Page.ActivitiesPage.SignupResponse | src/static/app.js:141-175 | once the request has ended: success patches the entry through `PatchSignup` and shows the body's message or `Signed up successfully.`; failure changes no entry and shows the failure text with the fallbacks `Signup failed` and `Signup failed.`; one hide is scheduled; validity is kept, and consistency too |
| Page.ActivitiesPage.Submit | src/static/app.js:132-176 | an empty trimmed email or an empty activity sends nothing and shows the validation error. Otherwise the request carries the activity and the trimmed email. Success patches the entry and shows the body's message or `Signed up successfully.`. Failure changes no entry and shows the failure text with the fallbacks `Signup failed` and `Signup failed.`. Exactly one hide is scheduled, and consistency is kept |
| Page.ActivitiesPage.PatchUnregister | src/static/app.js:35-55 | the row's activity entry is patched by `Unregistered`; afterwards no list of the page holds the row; consistency is kept when the row was attached to that entry's list |
| Page.ActivitiesPage.ClickDelete | src/static/app.js:27-62 | the request carries the row's activity and email. Success patches the entry and shows the body's message or `Unregistered successfully.`. After a success no list of the page holds the row. Failure changes no entry and shows the failure text with the fallbacks `Delete failed` and `Could not unregister.`. Consistency is kept when the row was attached |
| Page.DeleteOnlyParticipant | src/static/app.js:27-62 | deleting the only participant of a `1/10` card leaves the placeholder and `Capacity: 0/10` |
| Page.SignUpIntoEmptyClub | src/static/app.js:132-176 | signing up into a card showing the placeholder and `0/10` leaves the one new row and `Capacity: 1/10` |
| Page.ChessClubWalkthrough | src/static/app.js:82-176 | load, delete and sign up in sequence give `Capacity: 1/10`, then `Capacity: 0/10` with the placeholder, then `Capacity: 1/10` with one row for the new email |

## Left out

- Network I/O is not modelled: `fetch`, `res.json()`, `res.ok` and `encodeURIComponent`. A request is returned as the pair (activity, email) it would carry, and its result is the input `Outcome`.
- Asynchrony is not modelled. Each handler's work after its response is one atomic step, applied in the order the caller chooses. Interleavings inside a handler cannot be expressed.
- `console.error`, `ev.stopPropagation()`, `e.preventDefault()` and `signupForm.reset()` are left out; they change nothing the model tracks. The form fields are inputs of `Submit`.
- The card's name, description and schedule texts, the mail link and the inline styles are left out; they are display only.
- CSS selectors are left out. The model assumes that `querySelector` with `data-activity="${name}"` finds the card registered under `name`. That breaks when the name holds a double quote, a backslash or a line break inside the quoted attribute value: the selector then misses the card or is invalid, and on an invalid selector, as with a double quote, `querySelector` throws instead of returning null. A missing capacity element is not modelled either.
- Numbers are unbounded integers. JavaScript doubles lose precision above 2^53, which counts and maxima never reach.
- Page.FailureText: `body.detail` is taken to be a string; a non-string `detail`, such as a validation error list, is not modelled.
- Activities arrive as a list of (name, activity) pairs with distinct names, the way `Object.keys` yields them. The maximum is a non-negative integer and the participant list is always present. With no participant list, line 92 would throw before the check on line 96.
- Page.ActivitiesPage.LoadActivities: an exception thrown halfway through `renderActivities`, which would leave some cards rendered and also show the load error, is not modelled. A load either fails before rendering or renders everything.
- Notice.MessageElement.ShowMessage: the default type `info` is kept, but no caller uses it. A type string that the class list rejects is not modelled, since the page passes only `success` and `error`.
