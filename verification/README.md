# SATem lost-and-found core in Dafny

SATem is a school lost-and-found web application. Students report found
objects and claim them, and administrators publish news posts written in a
small markup. This project models the application's logic as pure Dafny
functions and proves properties of that model:

- **News markup formatter** (`RichText`). A post is split on `\n` and each
  line becomes one block: a header of level 1 to 3, a paragraph or a
  spacing break. Inside a block, bold spans `**…**` and raw-markup spans
  `[[…]]` are found by two lazy global regular expressions. The matches are
  sorted by start position and emitted as alternating plain and formatted
  segments. Overlapping spans are kept exactly as the formatter treats them
  (`RichTextExamples`).
- **API routes** over an abstract table store (`Store`, `Http`):
  - the item list and create route (`ItemsApi`);
  - the news list and create route (`NewsApi`);
  - the one-way `available → claimed` claim route (`ClaimApi`).
  The store's configuration and table probe are boolean inputs. Store
  errors are optional messages.
- **Administrator session** (`AdminSession`): login against the fixed
  credentials, logout, and restore from the stored record.
- **Dialogs**:
  - the add-item form (`AddItemForm`);
  - the add-news form (`AddNewsForm`);
  - the claim dialog (`ClaimForm`).
  Each is modelled through validation, the payload it submits, field
  edits, submit outcomes and close.
- **Maintenance script** (`ClearDatabase`): deletes every item in batches
  of ten and tallies the outcomes.
- **End-to-end paths** (`Flows`): from a dialog, through the page's fetch
  handler, to a route.

JavaScript's `trim`, `startsWith` and `split("\n")` are modelled in
`JsString` with ECMAScript's white-space and line-terminator sets.

## Model

| member | source | states |
|---|---|---|
| JsString.Trim | components/rich-text-parser.tsx:50 | `trim` returns a slice of its input with only white space cut off before and after it, leaves no leading or trailing white space, and yields the empty string exactly when the input is all white space |
| JsString.TrimIdempotent | components/add-item-modal.tsx:90-94 | trimming an already trimmed value changes nothing |
| JsString.BlankIffTrimEmpty | components/add-item-modal.tsx:66-70 | the blank test `!s.trim()` holds exactly when the trim is empty |
| JsString.Split | components/rich-text-parser.tsx:12 | `split("\n")` gives one more piece than there are newlines; no piece contains a newline; joining the pieces with `\n` restores the text |
| JsString.SplitJoin | components/rich-text-parser.tsx:12 | splitting newline-free lines joined by `\n` gives back exactly those lines |
| RichText.ParseContent | components/rich-text-parser.tsx:10-63 | one block per `\n`-separated line, in order, so newlines + 1 blocks; block i is line i's classification |
| RichText.ParseContentOfLines | components/rich-text-parser.tsx:12-60 | parsing newline-free lines joined by `\n` classifies each original line on its own |
| RichText.ClassifyLine | components/rich-text-parser.tsx:19-59 | a line is H1/H2/H3 iff it starts with `# `/`## `/`### `, with the text after the prefix parsed inline; otherwise a paragraph iff its trim is non-empty, else a break; a line with leading white space is never a header |
| RichText.HeaderPrefixes | components/rich-text-parser.tsx:19-47 | the three header prefixes exclude one another, and none starts with white space |
| RichText.MatchAt | components/rich-text-parser.tsx:71-75 | one `exec` attempt at a position: a match starts there, has the pattern's kind, spans at least the two delimiters within the text, and its group is the text between the delimiters |
| RichText.MatchAtIsShortestCandidate | components/rich-text-parser.tsx:71-75 | a pattern matches at a position iff some delimited candidate with a line-terminator-free body starts there, and the match is the shortest such candidate |
| RichText.MatchShape | components/rich-text-parser.tsx:71-99 | every match is its delimiters around its content; the content has no line terminator and no closing delimiter |
| RichText.FindAll | components/rich-text-parser.tsx:82-99 | the exec loop reports non-empty spans of its own kind from the starting index on, pairwise disjoint and in increasing order |
| RichText.FindAllMatches | components/rich-text-parser.tsx:82-99 | every reported span is exactly what the pattern matches at its start |
| RichText.FindAllComplete | components/rich-text-parser.tsx:82-99 | every position where the pattern matches lies inside a reported match |
| RichText.ApartInFound | components/rich-text-parser.tsx:82-89 | of two matches of one pattern, the earlier ends before the later begins |
| RichText.KindsNeverShareStart | components/rich-text-parser.tsx:102 | a bold match and a raw-markup match never start at the same index |
| RichText.Merge | components/rich-text-parser.tsx:102 | the sorted list holds exactly the bold and raw-markup matches, each as often as it was collected |
| RichText.SortedPermutationUnique | components/rich-text-parser.tsx:102 | two strictly start-ordered lists holding the same matches are equal |
| RichText.SortedMatches | components/rich-text-parser.tsx:79-102 | the processed list is a permutation of the bold and raw-markup matches, strictly ordered by start, each inside the text |
| RichText.SortIsDetermined | components/rich-text-parser.tsx:102 | any start-ordered arrangement of the collected matches is that same list, so the sort's tie handling is irrelevant |
| RichText.Emit | components/rich-text-parser.tsx:105-129 | no plain segment is empty; each match yields a segment; nothing is emitted only when there is no match and the index is at the end (the exact layout is stated by `EmitIsLayout`) |
| RichText.ParseInline | components/rich-text-parser.tsx:65-132 | at least one segment; the empty text gives `[text]` itself; otherwise no plain segment is empty |
| RichText.EmitIsLayout | components/rich-text-parser.tsx:105-129 | the segments are, for each match in turn, one plain segment `text[prev..start]` exactly when the gap is non-empty, where `prev` is the end of the match before it even when that lies past the start, then the match's formatted segment; then the text after the last match's end when any remains |
| RichText.EmitNoAdjacentPlain | components/rich-text-parser.tsx:105-129 | two plain segments never stand side by side |
| RichText.ParseInlineLayout | components/rich-text-parser.tsx:65-132 | a non-empty line is laid out from its matches in start order with index 0 at the outset, and has no two plain segments side by side |
| RichText.EmitFormats | components/rich-text-parser.tsx:105-123 | every match yields exactly one formatted segment, bold for `**` and raw markup for `[[`, in the order of the matches |
| RichText.EmitTail | components/rich-text-parser.tsx:123-129 | after the last match the index is that match's end, even when it moves backwards: the last segment is the text after it, or the match itself when nothing follows |
| RichText.ParseInlineFormats | components/rich-text-parser.tsx:65-132 | the formatted segments of a line are those of its matches in start order |
| RichText.ParseInlineTail | components/rich-text-parser.tsx:123-132 | a line with matches ends with the text after the last one in start order, or with that match when it reaches the end |
| RichText.EmitRenders | components/rich-text-parser.tsx:105-129 | over non-overlapping matches that reproduce their spans, the emitted segments with delimiters put back render the text from the current index on |
| RichText.InlineRoundTrip | components/rich-text-parser.tsx:105-129 | when no bold span overlaps a raw-markup span, re-wrapping the formatted contents and concatenating the segments restores the line |
| RichText.NoMarkupIsPlain | components/rich-text-parser.tsx:127-131 | text without matches is one plain segment equal to the text |
| RichTextExamples.NestedSpansParse | components/rich-text-parser.tsx:105-128 | `**x[[y]]z**` yields `Bold("x[[y]]z")`, `Rich("y")`, `Plain("z**")`: both overlapping spans are emitted and the index moves back |
| RichTextExamples.NestedSpansRepeat | components/rich-text-parser.tsx:105-128 | with overlapping spans the round trip fails |
| Store.Insert | app/api/lost-found/route.ts:103 | an insert stores the record under a fresh id and changes no existing row |
| Store.Rows | app/api/lost-found/route.ts:47-49 | `select("*")` lists every row of the table exactly once |
| Store.SortDesc | app/api/lost-found/route.ts:50 | the ordered listing is a permutation of the rows, in descending key order with nulls first |
| Http.Unavailable | app/api/lost-found/route.ts:69-86 | a handler continues iff the store is configured and the table exists; an unconfigured store is reported before a missing table |
| Http.OrElse | app/api/lost-found/route.ts:93 | JavaScript's logical-or default keeps a present, non-empty value and otherwise gives the fallback |
| ItemsApi.Get | app/api/lost-found/route.ts:30-62 | always status 200; `[]` when the store is unconfigured, the table is missing or the query fails; otherwise all rows, by found date descending |
| ItemsApi.NewItem | app/api/lost-found/route.ts:89-101 | a new item copies the body's name, descriptions, student number and nickname, found date and location unchecked; it is `available` whatever the body says, uses the placeholder image for a missing or empty one, has no claim data, and is stamped `now` |
| ItemsApi.Post | app/api/lost-found/route.ts:64-115 | 201 iff the body parsed to an object, the store is available and the insert succeeds; unparsable body 500, unavailable 503, insert error 500 with the store's message; the table changes only on 201, by the new row |
| NewsApi.Get | app/api/news/route.ts:28-55 | always status 200; `[]` on any failure; otherwise all posts, by creation time descending |
| NewsApi.NewPost | app/api/news/route.ts:78-84 | a post stores exactly the body's title, content and author name, with no check of the author, stamped `now` |
| NewsApi.Post | app/api/news/route.ts:57-98 | the same status mapping as item creation, with the news messages; the table changes only on 201 |
| ClaimApi.ClaimedItem | app/api/lost-found/claim/route.ts:54-60 | a claimed row is `claimed`, dated `now`, carries the claimant verbatim and the notes only when non-empty; no other column changes |
| ClaimApi.Post | app/api/lost-found/claim/route.ts:29-83 | unparsable body 500, unavailable 503, update error 500 with the store's message; 200 iff the id names an available row, which alone is claimed; otherwise 404 with the table unchanged |
| ClaimApi.SecondClaimFails | app/api/lost-found/claim/route.ts:62-76 | after a successful claim, any claim of the same item answers 404 |
| ClaimApi.ClaimedStaysClaimed | app/api/lost-found/claim/route.ts:62-67 | no request makes a claimed item available again |
| ClaimApi.OthersUnchanged | app/api/lost-found/claim/route.ts:62-67 | every row except the successfully claimed one is left as it was |
| AdminSession.Initial | contexts/admin-context.tsx:18-19 | the session starts logged out with an empty name |
| AdminSession.Restore | contexts/admin-context.tsx:21-31 | a stored record logs in under its name iff it says logged in and the name is non-empty; otherwise the session is unchanged |
| AdminSession.Login | contexts/admin-context.tsx:33-50 | login succeeds iff both credentials match exactly; success logs in under the username and stores the same record; failure changes nothing |
| AdminSession.Logout | contexts/admin-context.tsx:52-56 | logout always gives a logged-out session with an empty name and no stored record |
| AdminSession.LogoutIdempotent | contexts/admin-context.tsx:52-56 | logging out twice is logging out once |
| AdminSession.StepConsistent | contexts/admin-context.tsx:21-56 | a login, logout or restore keeps the session and storage to the states the application writes |
| AdminSession.RunConsistent | contexts/admin-context.tsx:18-56 | over any sequence of events, the session is logged in exactly when the name is the administrator's |
| AdminSession.FreshRunConsistent | contexts/admin-context.tsx:18-56 | from a fresh browser, logged in iff the name is `TTJY`, whatever happens |
| AdminSession.ForgedRecordRestores | contexts/admin-context.tsx:23-30 | restore trusts storage: a record written elsewhere logs in under any non-empty name |
| AddItemForm.Validate | components/add-item-modal.tsx:63-75 | the five text fields are reported iff they are blank; the location iff it is empty, untrimmed; the custom location iff "Other" is chosen and it is blank; each with its message |
| AddItemForm.ValidIffNothingMissing | components/add-item-modal.tsx:76-77 | the form is valid iff no field is missing |
| AddItemForm.BuildPayload | components/add-item-modal.tsx:89-98 | the submitted text fields are the trimmed inputs; the location is the trimmed custom text for "Other" and the chosen one otherwise; the image is the placeholder |
| AddItemForm.ValidPayloadFilled | components/add-item-modal.tsx:66-95 | a valid form submits every text field and the location non-empty |
| AddItemForm.InputChange | components/add-item-modal.tsx:124-129 | an edit changes only its field and blanks only that field's message; other fields and messages stay |
| AddItemForm.Close | components/add-item-modal.tsx:131-145 | close empties every text field, resets the date, and clears the messages and the submit error |
| AddItemForm.Submit | components/add-item-modal.tsx:80-122 | a payload is sent iff the form is valid; invalid forms only record their messages; success resets like close; failure keeps the data and shows the message or "Failed to add item" |
| AddNewsForm.Validate | components/add-news-modal.tsx:30-38 | title and content each get their message iff blank |
| AddNewsForm.ValidIffBothFilled | components/add-news-modal.tsx:36-37 | the form is valid iff title and content are both non-blank |
| AddNewsForm.BuildPayload | components/add-news-modal.tsx:49-52 | the payload is the trimmed title and content, both non-empty for a valid form |
| AddNewsForm.InputChange | components/add-news-modal.tsx:69-74 | an edit changes only its field and blanks only its message |
| AddNewsForm.Close | components/add-news-modal.tsx:76-84 | close empties both fields and clears the messages and the submit error |
| AddNewsForm.Submit | components/add-news-modal.tsx:40-67 | a payload is sent iff both fields are non-blank; success resets the form; failure keeps the data and shows the message or the default text |
| ClaimForm.Submit | components/claim-item-modal.tsx:27-46 | a blank claimant makes submit a no-op; otherwise the item id and both inputs go to `onClaim` untrimmed; success clears the inputs; failure keeps them and shows the message or "Failed to claim item" |
| ClaimForm.EnabledSubmitCalls | components/claim-item-modal.tsx:101 | an enabled button always leads to a call; a button disabled for a blank name never does |
| ClaimForm.Close | components/claim-item-modal.tsx:48-53 | close empties both inputs and the error |
| ClearDatabase.Fetched | scripts/clear-database.js:4-20 | a failed fetch counts as an empty list |
| ClearDatabase.CountPartition | scripts/clear-database.js:80-81 | every deletion result is counted by exactly one of the `success` and `!success` filters |
| ClearDatabase.CountSplit | scripts/clear-database.js:80-84 | success and failure counts over adjacent ranges add up, so the running totals are the counts over all items processed |
| ClearDatabase.MakeBatch | scripts/clear-database.js:69-81 | batch `floor(i / 10) + 1` deletes `items.slice(i, i + 10)`; its successes and failures are the two filters' counts over those positions, and they add up to the batch's size |
| ClearDatabase.Advance | scripts/clear-database.js:69-84 | one pass of the loop appends the next slice of up to ten items as the next numbered batch and adds its successes and failures to the running totals, which stay the success and failure counts over the items processed |
| ClearDatabase.BatchCount | scripts/clear-database.js:69 | the loop runs ceil(n / 10) times |
| ClearDatabase.Clear | scripts/clear-database.js:43-111 | an empty list stops before any delete; otherwise batch k covers positions 10k+1 to min(10k+10, n); the batches cover every item once, in order; there are ceil(n / 10) of them; the success total counts the OK deletions and the error total the failed ones, and they add up to n; the success message shows iff there are no errors |
| Flows.ClaimHandler | components/lost-found-table.tsx:74-94 | the page's claim handler resolves iff the response is OK, and otherwise throws with the route's message |
| Flows.ValidFormCreatesItem | components/lost-found-table.tsx:96-116 | a valid item form, posted to an available store, creates an available item with the trimmed, non-empty name and location and the placeholder image |
| Flows.ValidFormCreatesPost | components/news-section.tsx:58-80 | a valid news form, posted by the administrator, stores the trimmed title and content under the administrator's name |
| Flows.ClaimOfClaimedItemShowsMessage | components/lost-found-table.tsx:74-94 | claiming an item that is already claimed leaves the table unchanged, keeps the dialog's inputs and shows "Item not found or already claimed" |
| Flows.ClaimOfAvailableItemSucceeds | components/lost-found-table.tsx:74-94 | claiming an available item stores the typed name, keeps the notes only when non-empty, and clears the dialog |

## Left out

- Rendering is not modelled: React, JSX, CSS classes, dialog visibility, and the loading flags of the add dialogs. The markup inside `[[…]]` is kept as an opaque string and never interpreted as HTML.
- The hosted store and its client are abstract. The `Table` datatype stands for the store. Configuration, the table probe, a failed query and a store error message are inputs.
- A thrown exception inside a `GET` handler leads to the same empty list as a failed query. It is covered by the same `queryFails` input.
- Clocks are parameters: `now` for the server's timestamps and `today` for the picked date. The date is kept as the `yyyy-MM-dd` text the form submits, so date-fns formatting is not modelled.
- Browser storage and `JSON.parse` are reduced to an optional parsed record. A stored text that fails to parse, which makes the restore effect throw, is not modelled.
- Request bodies carry text fields as optional strings and the claim id as an integer. JSON numbers, booleans or objects in text fields are not modelled, and neither is a missing claim id.
- Store.SortDesc: the order among rows with equal keys is left to the store in the source. The model lists them in id order, and the contract states only the permutation and the descending order.
- Store.SortDesc: keys are compared by character code. The database's collation is not modelled.
- Concurrency and timing are not modelled: `Promise.all` within a batch, the delays between batches, simultaneous claims, and the store's atomicity.
- The delete routes under `app/api/*/[id]/route.ts`, the other maintenance scripts, and the pages and components that only fetch and render are not part of this model. The single delete call of the maintenance script is an oracle from item position to success.
- The console output of the maintenance script is not modelled: progress lines, timings and emoji. Only the final success/failure choice is kept, as `cleared`.
- JavaScript strings are UTF-16 code units. The model has one `char` per Unicode code point, so string indices count code points, a character outside the Basic Multilingual Plane is one position instead of two, and lone surrogates cannot be represented.
- ClaimApi.ClaimedItem: a `claimedBy` of JSON `null` is written as `NULL` by the store client, while an absent one is dropped from the update and keeps the column. The model has only the absent case, for both.
