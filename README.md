# API key vault: a verified model of the browser client's logic

The system is a browser application for storing API keys. Each user keeps
records in a hosted table `api_keys`. Each record holds a name, a
provider, an environment, tags, notes, an optional expiry, a last-use
time and a stored secret token. Reveal, copy and update actions go into
an append-only table `key_audit`.

This project models four pieces of the client's sequential logic in
Dafny and proves what each of them promises:

- **Secret codec** (`SecretCodec`, from `src/lib/supabase.ts`).
  - The secret is stored as its base64 encoding, as in section 4 of RFC 4648. This is `btoa`, which refuses a character above U+00FF.
  - It is read back with the forgiving-base64 decode of the WHATWG Infra standard (`atob`).
  - When decoding fails, the token is returned as it is.
  - The model works on byte sequences. It proves the round trip, the length and alphabet of encoder output, the two failure cases that hand the token back, and three test vectors from section 10 of RFC 4648.
- **Key list page** (`Keys`, from `src/pages/dashboard/Keys.tsx`).
  - The class `KeysPage` holds the fetched keys, the search term, the map of revealed secrets, the reveal dialog and the pending delete.
  - Its methods are the page's handlers: fetch, reveal request, password entry, confirm-reveal with a boolean re-authentication answer, hide, copy and soft delete. Each one states its whole new state and its effect on the audit table.
  - The pure helpers are the search filter, the secret mask, the displayed-secret choice, the row buttons, the environment badge and the tag summary.
- **Edit form** (`EditKey`, from `src/pages/dashboard/EditKey.tsx`).
  - Schema validation reports the first issue.
  - The comma-separated tag parser comes with a round trip against the form's `join(", ")` default value.
  - The update record follows the "rotate only a new, different secret" rule.
  - The submit handler writes the update, then one audit entry whose `secret_rotated` flag matches whether a new token was written.
- **Dashboard counts** (`Dashboard`, from `src/pages/dashboard/Dashboard.tsx`). These are the total, recently-used and expiring-soon counts, each with a strict bound.

The supporting modules are:

- `Wrappers`: `Option` and `Result`.
- `Seqs`: `Array.prototype.filter` and its laws.
- `Text`: the JavaScript string built-ins the pages use, namely `toLowerCase`, `includes`, `split(",")`, `join` and `trim`.
- `Store`: the two tables, the queries the pages issue, and the class `Database` whose fields are the tables.

Times are integer milliseconds. Where the network, the clock or the auth service answers, the answer is a parameter: `fails`, `authenticated` or `now`.

Two behaviours of the code are worth stating, and the model follows them:

- A soft-deleted key can still be opened for editing. `fetchKey` in `EditKey.tsx` filters only by id and owner, not by `is_deleted`, so `EditKeyPage.FetchKey` accepts a soft-deleted row.
- A blank secret field still writes the rotation flag, with the value `false` (`secret_rotated: false`); the model's entry is `UpdateStamp(now, false)`.
- The audit inserts are awaited in sequence, and their errors are ignored. The model appends each entry after the step it follows.

## Model

| member | source | states |
|---|---|---|
| SecretCodec.EncryptSecret | src/lib/supabase.ts:6-10 | fails exactly when some character is above U+00FF; otherwise the token has length 4·⌈n/3⌉, uses only the RFC 4648 alphabet and `=`, and the empty secret encodes to the empty token |
| SecretCodec.DecryptSecret | src/lib/supabase.ts:12-20 | never fails; returns the token unchanged when it holds a character outside the alphabet, `=` and ASCII white space, or when its length without white space is 1 mod 4, and in general whenever the forgiving decode fails (such as `"QQ="`, whose `=` is not padding); otherwise returns a string of characters ≤ U+00FF; `""` decodes to `""` |
| SecretCodec.RoundTrip | src/lib/supabase.ts:6-20 | every string of characters ≤ U+00FF encodes successfully, and decoding the token gives back the string |
| SecretCodec.DecodeEncode | src/lib/supabase.ts:9-16 | forgiving-base64 decoding of any encoded byte sequence returns exactly those bytes |
| SecretCodec.SextetsRoundTrip | src/lib/supabase.ts:9-16 | regrouping the 6-bit groups of the encoder into bytes restores the input, including a final group of one or two bytes |
| SecretCodec.SextetsLength | src/lib/supabase.ts:9 | a byte sequence of length n splits into 4·⌊n/3⌋ groups of 6 bits, plus (n mod 3)+1 for a partial final group |
| SecretCodec.Sextets | src/lib/supabase.ts:9 | n bytes give ⌈4n/3⌉ 6-bit values (3·q lies between 4·n and 4·n + 2) |
| SecretCodec.Split3 | src/lib/supabase.ts:9 | three bytes form one full group of four 6-bit values |
| SecretCodec.NoLoneValue | src/lib/supabase.ts:9-16 | the encoder never produces a 6-bit value count of 1 mod 4, the length the decoder rejects |
| SecretCodec.PreparedEncode | src/lib/supabase.ts:9-16 | the decoder's first two steps remove exactly the padding the encoder appended |
| SecretCodec.Encode | src/lib/supabase.ts:9 | the padded encoding has length 4·⌈n/3⌉, only alphabet characters and `=`, and is empty exactly for empty input |
| SecretCodec.FromSextetsLength | src/lib/supabase.ts:16 | q groups of 6 bits (q not 1 mod 4) decode to 3·⌊q/4⌋ bytes, plus (q mod 4)−1 for a partial final group |
| SecretCodec.FromSextets | src/lib/supabase.ts:16 | q 6-bit values give ⌊3q/4⌋ bytes (4·r ≤ 3·q < 4·r + 4) |
| SecretCodec.Join4 | src/lib/supabase.ts:16 | four 6-bit values form three bytes |
| SecretCodec.FullGroup | src/lib/supabase.ts:9-16 | splitting three bytes into four 6-bit values and joining them gives the three bytes back |
| SecretCodec.OneByteGroup | src/lib/supabase.ts:9-16 | a final group of one byte, encoded as two values, decodes to that byte |
| SecretCodec.TwoByteGroup | src/lib/supabase.ts:9-16 | a final group of two bytes, encoded as three values, decodes to those bytes |
| SecretCodec.FromSextetsStep | src/lib/supabase.ts:16 | a full group at the front of the values decodes independently of the rest |
| SecretCodec.FullGroupStep | src/lib/supabase.ts:9-16 | the first three bytes of the input are restored from their group and the rest is decoded independently |
| SecretCodec.ValueOf | src/lib/supabase.ts:16 | the value of an alphabet character is the one the encoder maps to that character |
| SecretCodec.ValueOfCharOf | src/lib/supabase.ts:9-16 | the encoder's character for a 6-bit value decodes to that value |
| SecretCodec.CharOf | src/lib/supabase.ts:9 | every 6-bit value maps into the RFC 4648 section 4 alphabet |
| SecretCodec.RemoveAsciiWhitespace | src/lib/supabase.ts:16 | the first decoding step is exactly the filter that keeps the characters other than ASCII white space, in order and with their multiplicity |
| SecretCodec.DropPadding | src/lib/supabase.ts:16 | the second decoding step removes at most two trailing characters, all of them `=`; a trailing `=` is always removed, and unless two were removed the result does not end in `=` |
| SecretCodec.Prepared | src/lib/supabase.ts:16 | after steps 1 and 2 no ASCII white space is left, and the result is the white-space-free input less at most two trailing `=`, cut only when that input's length is a multiple of four; at such a length the padding is removed: a trailing `=` is always cut, and unless two were cut the result does not end in `=` |
| SecretCodec.Decode | src/lib/supabase.ts:16 | `atob` succeeds exactly when the prepared input has a length not 1 mod 4 and lies wholly in the alphabet (so unpadded `"QQ"` decodes), and then gives ⌊3q/4⌋ bytes for q characters; the empty string decodes to no bytes |
| SecretCodec.DecodeRejects | src/lib/supabase.ts:15-19 | decoding fails on a foreign character and on a length 1 mod 4 after white space is removed |
| SecretCodec.EncodeVectorF | src/lib/supabase.ts:9 | `"f"` encodes to `"Zg=="` (section 10 of RFC 4648) |
| SecretCodec.EncodeVectorFo | src/lib/supabase.ts:9 | `"fo"` encodes to `"Zm8="` |
| SecretCodec.EncodeVectorFoobar | src/lib/supabase.ts:9 | `"foobar"` encodes to `"Zm9vYmFy"` |
| SecretCodec.DecryptFallbackVector | src/lib/supabase.ts:15-19 | a plaintext secret such as `"sk-live"` stored without encoding reads back unchanged |
| Store.KeysQuery | src/pages/dashboard/Keys.tsx:72-77 | the fetch returns exactly the user's rows that are not soft-deleted, as a permutation of them, newest `created_at` first |
| Store.ActiveOf | src/pages/dashboard/Keys.tsx:75-76 | a row is kept iff it belongs to the user and is not soft-deleted |
| Store.NewestFirst | src/pages/dashboard/Keys.tsx:77 | the result is sorted by descending `created_at` and is a permutation of the input |
| Store.InsertByAge | src/pages/dashboard/Keys.tsx:77 | inserting one row into a sorted list keeps it sorted and adds exactly that row |
| Store.MarkDeleted | src/pages/dashboard/Keys.tsx:138-141 | only rows with the target id get `is_deleted` set; no row is removed and no other row changes |
| Store.MarkDeletedActive | src/pages/dashboard/Keys.tsx:138-141 | after a soft delete the user's active rows are the former ones less the deleted id, in the same order |
| Store.DeletedKeyNotFetched | src/pages/dashboard/Keys.tsx:137-148 | after a soft delete the next fetch holds no row with that id and still holds every other key it held |
| Store.Patched | src/pages/dashboard/EditKey.tsx:78-95 | an updated row takes the edited columns, the expiry being the instant of the edited date or null, keeps id, owner, creation time, last use and the deletion flag, and changes its token only when the update carries one |
| Store.ApplyUpdate | src/pages/dashboard/EditKey.tsx:92-95 | only rows with the given id are patched; all others are unchanged |
| Store.Database.SoftDelete | src/pages/dashboard/Keys.tsx:138-141 | the table becomes its soft-deleted image |
| Store.Database.Update | src/pages/dashboard/EditKey.tsx:92-95 | the table becomes its updated image |
| Store.Database.Append | src/pages/dashboard/Keys.tsx:112-117 | the audit table grows by exactly the given entry at its end |
| Keys.FilteredKeys | src/pages/dashboard/Keys.tsx:152-157 | a key is shown iff its lower-cased name, provider or some lower-cased tag contains the lower-cased term |
| Keys.FilteredKeysInOrder | src/pages/dashboard/Keys.tsx:152-157 | the shown keys are a subsequence of the list, in list order |
| Keys.EmptySearchShowsAll | src/pages/dashboard/Keys.tsx:152-157 | an empty search term shows every key |
| Keys.SearchIgnoresCase | src/pages/dashboard/Keys.tsx:154-156 | searching for the lower-cased term shows the same keys as searching for the term |
| Keys.MaskSecret | src/pages/dashboard/Keys.tsx:159-162 | a value of length ≤ 8 masks to exactly eight bullets; a longer one to its first 4 characters, eight bullets and its last 4, length 16 |
| Keys.MaskShowsOnlyEnds | src/pages/dashboard/Keys.tsx:159-162 | two values with the same length class, first four and last four characters mask alike |
| Keys.DisplayedSecret | src/pages/dashboard/Keys.tsx:247 | the cell shows the revealed value when it is present and non-empty, otherwise the mask of the stored token |
| Keys.RowActions | src/pages/dashboard/Keys.tsx:266-295 | the hide and copy buttons appear exactly when the cell shows a revealed value; otherwise the reveal button appears and the cell is masked |
| Keys.EnvironmentColor | src/pages/dashboard/Keys.tsx:164-171 | production is destructive, development secondary, and staging and every other value default |
| Keys.SummarizeTags | src/pages/dashboard/Keys.tsx:251-260 | the badges are exactly the first two tags (all of them when there are fewer), and a "+k" badge appears exactly when there are more than two, with k = len − 2 |
| Keys.SummaryAccountsForEveryTag | src/pages/dashboard/Keys.tsx:251-260 | every tag is either a badge or counted in the "+k" badge: the badges followed by the tags left out are the whole list, and k is the number left out |
| Keys.DialogTarget | src/pages/dashboard/Keys.tsx:92 | the dialog names a key only when its `keyId` is present and non-empty |
| Keys.FindKey | src/pages/dashboard/Keys.tsx:105 | the result is the first key with the id, or nothing exactly when no key has it |
| Keys.KeysPage.constructor | src/pages/dashboard/Keys.tsx:56-63 | the page starts with no keys, an empty search, no pending delete, a closed dialog and nothing revealed |
| Keys.KeysPage.FetchKeys | src/pages/dashboard/Keys.tsx:70-85 | on success the list becomes the fetch query's result; on error it is left as it was |
| Keys.KeysPage.SetSearchTerm | src/pages/dashboard/Keys.tsx:200 | the term becomes the typed value |
| Keys.KeysPage.HandleReveal | src/pages/dashboard/Keys.tsx:87-89 | the dialog opens for the key with an empty password |
| Keys.KeysPage.EnterPassword | src/pages/dashboard/Keys.tsx:335 | only the dialog's password changes |
| Keys.KeysPage.CloseReveal | src/pages/dashboard/Keys.tsx:320-340 | Cancel or dismissal resets the dialog to closed, with no key and an empty password |
| Keys.KeysPage.ConfirmReveal | src/pages/dashboard/Keys.tsx:91-121 | with no target, a failed re-authentication or an unlisted key nothing changes and the dialog stays as it was; otherwise the key's decoded secret is added to the map with the other entries kept, exactly one "reveal" entry is appended, and the dialog closes |
| Keys.KeysPage.Hide | src/pages/dashboard/Keys.tsx:271-275 | only that key's entry leaves the map, every other entry is kept, the key's cell falls back to the mask, and the shown rows are unchanged |
| Keys.KeysPage.HandleCopy | src/pages/dashboard/Keys.tsx:123-135 | after a successful clipboard write exactly one "copy" entry for the key is appended; a rejected write logs nothing; the keys, the map and the key table are unchanged |
| Keys.KeysPage.RequestDelete | src/pages/dashboard/Keys.tsx:306 | the confirmation opens for the key |
| Keys.KeysPage.CancelDelete | src/pages/dashboard/Keys.tsx:350 | the confirmation closes |
| Keys.KeysPage.HandleDelete | src/pages/dashboard/Keys.tsx:137-150 | on success only the target's `is_deleted` is set and the list is refetched, after which no listed or shown key has that id; on error the table is unchanged; no audit entry is written; the confirmation closes |
| EditKey.Validate | src/pages/dashboard/EditKey.tsx:15-23 | the form is accepted iff 1 ≤ name ≤ 100, 1 ≤ provider ≤ 100, the environment is one of the three values and notes ≤ 1000, and then the validated data are the form itself |
| EditKey.Message | src/pages/dashboard/EditKey.tsx:15-18 | the schema's own texts for the two required fields and the schema library's default texts for the maximum lengths and the enumeration |
| EditKey.ValidateReportsFirstIssue | src/pages/dashboard/EditKey.tsx:72 | the form is accepted iff no rule is violated, and a rejection carries the message of the first violated rule in schema order |
| EditKey.ParseTags | src/pages/dashboard/EditKey.tsx:73-76 | every parsed tag is non-empty, has no white space at either end and contains no comma |
| EditKey.ParseTagsKeepsSegments | src/pages/dashboard/EditKey.tsx:73-76 | the tags are the trimmed segments in segment order, membership is that of the non-blank trimmed segments, and there are as many tags as non-blank trimmed segments, so only blank ones are dropped |
| EditKey.ParseTagsAtComma | src/pages/dashboard/EditKey.tsx:73-76 | the segments before a comma are parsed before, and independently of, those after it |
| EditKey.ParseJoinedTags | src/pages/dashboard/EditKey.tsx:205 | submitting the default tags field (the stored tags joined by ", ") gives back the stored tags, when they are well formed |
| EditKey.ParseJoinAfterSpace | src/pages/dashboard/EditKey.tsx:73-76 | leading white space before joined tags does not change what is parsed |
| EditKey.ParseSpace | src/pages/dashboard/EditKey.tsx:73-76 | a field of white space alone gives no tags |
| EditKey.ParseOneTag | src/pages/dashboard/EditKey.tsx:73-76 | white space followed by one well-formed tag gives that tag |
| EditKey.TrimAll | src/pages/dashboard/EditKey.tsx:75 | each segment is replaced by its trimmed form |
| EditKey.TrimKeepsOut | src/pages/dashboard/EditKey.tsx:75 | trimming adds no character, so a comma-free segment stays comma-free |
| EditKey.UpdateRecord | src/pages/dashboard/EditKey.tsx:78-90 | the update always carries name, provider, environment, parsed tags and notes; an empty expiry becomes null; it carries a token iff the secret is non-empty and differs from the decoded one, and that token is the secret's encoding, which decodes back to the secret; encoding failure is an error |
| EditKey.BuildUpdate | src/pages/dashboard/EditKey.tsx:78-90 | the conditional field-by-field construction yields exactly the update record |
| EditKey.RotatedRowsHoldToken | src/pages/dashboard/EditKey.tsx:89-95 | an update that carries a token stores it in every row with the key's id |
| EditKey.UnrotatedRowsKeepToken | src/pages/dashboard/EditKey.tsx:87-95 | an update without a token leaves every stored token unchanged |
| EditKey.EditKeyPage.constructor | src/pages/dashboard/EditKey.tsx:26-31 | the page starts with no key and an empty decoded secret |
| EditKey.EditKeyPage.FetchKey | src/pages/dashboard/EditKey.tsx:38-54 | succeeds iff exactly one row has the route's id and the user as owner, and then holds that row and its decoded secret; otherwise nothing changes |
| EditKey.EditKeyPage.Save | src/pages/dashboard/EditKey.tsx:92-108 | the table becomes its updated image and exactly one "update" entry with the rotation flag is appended |
| EditKey.EditKeyPage.HandleSubmit | src/pages/dashboard/EditKey.tsx:56-121 | an invalid form is rejected with the schema's message; an encoding or store error fails; neither writes anything; a save applies the update record, then appends one "update" entry whose `secret_rotated` is true iff a token was written, after which every row with the id decodes to the new secret; without rotation every token is kept |
| Dashboard.ComputeStats | src/pages/dashboard/Dashboard.tsx:29-45 | the total is the number of keys; the two counts are the numbers of keys last used after now − 7 days and expiring strictly between now and now + 30 days; both are at most the total |
| Dashboard.RecentlyUsed | src/pages/dashboard/Dashboard.tsx:34-39 | a key counts as recently used when it has a last-use instant strictly after seven days before now |
| Dashboard.ExpiringSoon | src/pages/dashboard/Dashboard.tsx:40-44 | a key counts as expiring soon when it has an expiry instant strictly between now and thirty days after now |
| Dashboard.InitialStatsAreEmptyCounts | src/pages/dashboard/Dashboard.tsx:12-44 | the counts shown before the first fetch are those of a user with no keys, and a successful fetch for a user with no active row shows them again |
| Dashboard.FetchStats | src/pages/dashboard/Dashboard.tsx:21-47 | the total is the number of the user's rows that are not soft-deleted; with no data the shown counts are kept |
| Dashboard.TotalMatchesKeyList | src/pages/dashboard/Dashboard.tsx:22-33 | the dashboard total equals the length of the key list page's fetch |
| Dashboard.ExpiryWindowBounds | src/pages/dashboard/Dashboard.tsx:30-43 | expiry at now or at now + 30 days is not counted, now + 29 days is, now + 31 days is not |
| Dashboard.UsageWindowBounds | src/pages/dashboard/Dashboard.tsx:35-38 | last use exactly 7 days ago is not counted, 6 days ago is |
| Dashboard.NullDatesDoNotCount | src/pages/dashboard/Dashboard.tsx:35-41 | a key with no last-use date or no expiry date adds nothing to the corresponding count, wherever it stands |
| Dashboard.RecentlyUsedFalls | src/pages/dashboard/Dashboard.tsx:34-39 | the recently-used count never grows as `now` advances |
| Seqs.Filter | src/pages/dashboard/Keys.tsx:152 | `filter` keeps exactly the elements that pass, and no more elements than the input has |
| Seqs.Map | src/pages/dashboard/EditKey.tsx:75 | `map` keeps the length and applies the function at each position |
| Seqs.MapConcat | src/pages/dashboard/EditKey.tsx:75 | mapping distributes over concatenation |
| Seqs.FilterIsSubsequence | src/pages/dashboard/Keys.tsx:152 | `filter` keeps the kept elements in their order |
| Seqs.FilterConcat | src/pages/dashboard/Dashboard.tsx:34-44 | filtering distributes over concatenation |
| Seqs.FilterKeepsAll | src/pages/dashboard/Keys.tsx:152 | filtering keeps everything iff every element passes |
| Seqs.FilterCongruent | src/pages/dashboard/Keys.tsx:152 | predicates that agree on the elements filter alike |
| Seqs.FilterWeaker | src/pages/dashboard/Dashboard.tsx:34-39 | a weaker predicate keeps at least as many elements |
| Seqs.FilterFrom | src/pages/dashboard/EditKey.tsx:72 | one step of the filter along a suffix |
| Seqs.FilterLengthIsPositionCount | src/pages/dashboard/Dashboard.tsx:33-44 | `filter(...).length` is the number of positions whose element passes |
| Text.Lower | src/pages/dashboard/Keys.tsx:154 | `toLowerCase` keeps the length and lower-cases each ASCII letter |
| Text.LowerChar | src/pages/dashboard/Keys.tsx:154 | an upper-case ASCII letter moves to its lower-case form; every other character is kept, which covers only the ASCII part of `toLowerCase` |
| Text.LowerIdempotent | src/pages/dashboard/Keys.tsx:154 | lower-casing twice is lower-casing once |
| Text.Includes | src/pages/dashboard/Keys.tsx:154-156 | `includes` holds iff the needle occurs at some position of the string |
| Text.IncludesEmpty | src/pages/dashboard/Keys.tsx:154 | the empty string occurs in every string |
| Text.Split | src/pages/dashboard/EditKey.tsx:74 | `split(",")` gives at least one segment and no segment holds a comma |
| Text.JoinSplit | src/pages/dashboard/EditKey.tsx:74 | joining the segments with commas gives back the split string |
| Text.Join | src/pages/dashboard/EditKey.tsx:205 | `join` puts the separator between consecutive parts; `JoinSplit` shows it inverts `split(",")` |
| Text.SplitAtComma | src/pages/dashboard/EditKey.tsx:74 | a comma separates the segments of the part before it from those of the part after it |
| Text.SplitNoComma | src/pages/dashboard/EditKey.tsx:74 | a comma-free string is one segment |
| Text.TrimStart | src/pages/dashboard/EditKey.tsx:75 | the leading white space is removed and the result does not start with white space |
| Text.TrimEnd | src/pages/dashboard/EditKey.tsx:75 | the trailing white space is removed and the result does not end with white space |
| Text.Trim | src/pages/dashboard/EditKey.tsx:75 | `trim` returns a slice of the input with only white space cut from both ends, and the result has no white space at either end |
| Text.TrimWindow | src/pages/dashboard/EditKey.tsx:75 | cutting the leading white space and then the trailing white space leaves a window of the input with white space only on either side and none at its ends |
| Text.TrimAllSpace | src/pages/dashboard/EditKey.tsx:75-76 | a segment of white space alone trims to the empty string |
| Text.TrimStartAfterSpace | src/pages/dashboard/EditKey.tsx:75 | leading white space before a non-space start is exactly what `trimStart` removes |
| Text.TrimAfterSpace | src/pages/dashboard/EditKey.tsx:75 | leading white space before a trimmed string is all that `trim` removes |

## Left out

- The hosted database and auth calls are network requests. The tables are sequences in a `Database` object. Query errors are the `fails`, `updateFails`, `fetchFails` and `storeFails` parameters, and re-authentication with the dialog's password is the `authenticated` parameter.
- A failed audit insert is not modelled. The page ignores its result, and the model always appends.
- Row-level security and the database's own rules are not modelled.
- The clipboard itself, toasts, navigation, the `loading` spinners and date display formatting are presentation and side effects, so they are not modelled.
- The current time is the `now` parameter.
- Parsing of date strings is not modelled. An expiry field is kept as the date-input string in the update record, and the store turns it into an instant with `Database.toInstant`, which is left uninterpreted.
- The order of asynchronous steps is not modelled. This covers the un-awaited `fetchKeys()` after a delete and the effects that run on mount. Each handler is one sequential step, and re-authentication comes before the decode and the audit write in `ConfirmReveal`.
- Store.NewestFirst: rows with equal `created_at` keep the order of an insertion sort. The database promises no order among them.
- Keys.FilteredKeys, Text.Lower: lower-casing covers only the ASCII letters. `toLowerCase` also maps other scripts' capitals.
- Text.LowerChar: the same limit. A non-ASCII capital such as `'À'` is kept, while `toLowerCase` maps it to `'à'`.
- Keys.KeysPage.HandleCopy: the write to the clipboard is the `clipboardFails` parameter. A rejected write ends the handler before the audit insert; nothing else about the clipboard is modelled.
- EditKey.Validate, Keys.MaskSecret: lengths count characters. JavaScript counts UTF-16 code units, so the two differ for characters outside the Basic Multilingual Plane.
- SecretCodec.EncryptSecret: this has the same limit. A lone surrogate code unit cannot occur in a Dafny string.
- EditKey.Message: only the default messages of the schema library's version 3 are modelled.
- The delete confirmation reads "permanently delete". The code performs a soft delete, and the model follows the code.
- The secret codec is an encoding, not encryption, and no confidentiality is claimed.
- The route table, the landing page, the add-key page, the account and settings pages and the dashboard layout hold no logic of their own and are not part of this model.
