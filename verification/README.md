# Nano-tipping Nostr client — a Dafny model of its core

This project models the logic of a browser client for Nostr that finds the
Nano addresses of authors and lets the user tip them. It covers three scripts,
`js/utils.js`, `js/nostr-client.js` and `js/app.js`, and proves properties of
that model.

- **Addresses.**
  - `validateNanoAddress` is an anchored format check on the lower-cased text.
  - `rawToNano` is a truncating BigInt division by 10^30.
  - `findNanoAddress` runs four case-insensitive patterns over cleaned text.
  - `findNanoAddressInProfile` tries six profile fields in priority order and then `nano_address`.
- **Profiles.** `getProfileForPubkey` merges kind-0 metadata events (NIP-01) from every relay:
  - the newest event is the base;
  - older events backfill only the fields that are falsy in the base;
  - six fields default to `''`;
  - a profile that resolves is cached; the empty profile is not.
- **De-duplication folds.**
  - `getReplies` keeps one event per id (the newest) among those carrying `['e', id]` (NIP-10), sorted by time.
  - `addUserToNanoFeed` does the same for non-replies and copies them into `nanoPosts`.
  - `getReactions` counts kind-7 `+` reactions (NIP-25) and kind-6 reposts (NIP-18) once per `kind-pubkey-content` key.
  - `publishEvent` succeeds when any relay acknowledges.
  - `addRelay`/`removeRelay` keep a registry of relay URLs.
  - `checkProfilesInParallel` works in fixed-size batches.
- **The feed of `App`.**
  - It holds the stored posts (a `Map` in insertion order), the grow-only set of known Nano users, the `nanoOnly` switch and the rendered post ids.
  - It routes live events, historical events and refreshes into that state.
  - `hasNanoAddress` is an oracle: a function from public key to answer, fixed for one call.
- **Text and amounts.**
  - The profile form (`App.updateProfile`) writes `\nNano: <address>` into the about text.
  - The client (`NostrClient.updateProfile`) then moves the leftmost address of that text to a last `\nNano: ` line and fills in the other profile fields.
  - `loadProfile` reads the address and the rest of the about back from the profile the client keeps.
  - A Lightning address `name@domain` becomes the LUD-16 endpoint.
  - Sats become millisats in the LNURL callback (LUD-06) and in the NIP-57 zap request.

Relay answers are inputs: each relay's answer is a sequence of events, in relay
order. `JSON.parse` is a parameter `string -> Option<object>`. The stateful
parts are classes: `Client.NostrClient` (relays, profile cache, feed posts)
and `Feed.App` (posts, known users, switch, feed). Their methods are loops
proved against specification functions. Those functions carry the lemmas.

Modules, one per file:

| file | module | contents |
|---|---|---|
| `wrappers.dfy` | `Wrappers` | `Option` and `Result` |
| `seqs.dfy` | `Seqs` | flattening, filtering, stable sort |
| `jsstring.dfy` | `JsString` | `trim`, `toLowerCase`, `toString`, `parseInt`, `includes` |
| `json.dfy` | `Json` | JSON values, truthiness |
| `utils.dfy` | `Utils` | `js/utils.js` |
| `addressscan.dfy` | `AddressScan` | `findNanoAddress`, `findNanoAddressInProfile` |
| `events.dfy` | `Events` | events, tags, the insertion-ordered id map, the newest-per-id fold |
| `profiles.dfy` | `Profiles` | the profile merge |
| `reactions.dfy` | `Reactions` | the reaction tally |
| `client.dfy` | `Client` | class `NostrClient` and its folds |
| `profiletext.dfy` | `ProfileText` | the about text of the form's `updateProfile` and of `loadProfile` |
| `profilesave.dfy` | `ProfileSave` | the client's `updateProfile`: its pass over the about text and the profile it keeps |
| `zap.dfy` | `Zap` | `sendZap`'s checks, endpoint and callback |
| `app.dfy` | `Feed` | class `App` |

## Model

| member | source | states |
|---|---|---|
| Utils.InAlphabetIsAlphabet | js/utils.js:22 | the character predicate accepts exactly the 32 characters of Nano's base32 alphabet |
| Utils.MatchRun | js/utils.js:22 | `[…]{n}` matches at `p` iff the next `n` characters exist and are all in the alphabet |
| Utils.ValidateNanoAddress | js/utils.js:20-24 | true iff the lower-cased address is `nano_`/`xno_`, then `1`/`3`, then 59 alphabet characters and nothing else; so the empty address is refused |
| Utils.MatcherAgreesWithGrammar | js/utils.js:22 | the regex's alternation-then-rest matching accepts exactly the strings of the address grammar |
| Utils.ValidateIgnoresCase | js/utils.js:23 | an address and its lower case are judged alike |
| Utils.ValidAddressLength | js/utils.js:22 | a valid address has 65 characters with `nano_`, 64 with `xno_`, and no other length |
| Utils.ForbiddenCharacterRejected | js/utils.js:22 | a `0`, `2`, `l` or `v` after the prefix, in the body or in the first-digit slot, makes the address invalid |
| Utils.UpperCasePrefixAccepted | js/utils.js:22-23 | `XNO_1` followed by 59 `1`s is accepted |
| Utils.RawToNanoAmount | js/utils.js:27 | for raw ≥ 0, q·10^30 ≤ raw < (q+1)·10^30; for raw < 0 the quotient truncates toward zero |
| Utils.RawToNano | js/utils.js:26-28 | the decimal string written reads back as the truncated quotient |
| Utils.RawToNanoMonotone | js/utils.js:27 | more raw never gives fewer Nano |
| Utils.BelowOneNanoIsZero | js/utils.js:27 | any amount of less than one Nano, in either direction, gives `"0"` |
| JsString.Trim | js/app.js:127 | the result is the middle part of the input; it neither starts nor ends with white space; everything cut off is white space |
| JsString.TrimIdempotent | js/app.js:79 | trimming twice is trimming once |
| JsString.ToLowerCase | js/utils.js:23 | same length, each character lowered as `toLowerCase` does for the characters that matter to addresses |
| JsString.ToLowerCaseIdempotent | js/utils.js:23 | lowering twice is lowering once |
| JsString.LowerCasesAgreeOnAscii | js/nostr-client.js:772 | on ASCII text, `toLowerCase` and the regex `i` flag fold alike |
| JsString.DecimalRoundTrip | js/utils.js:27 | reading back an integer's `toString()` gives the integer |
| JsString.DecimalInjective | js/nostr-client.js:806 | two integers with the same `toString()` are equal |
| JsString.ParseIntOfDecimal | js/app.js:453 | `parseInt` of an integer's `toString()` gives the integer |
| JsString.ParseIntOfSignedDigits | js/app.js:453 | a sign followed by digits parses to the signed value of the digits |
| JsString.ParseIntOfUnsignedDigits | js/app.js:453 | a run of digits parses to its decimal value |
| JsString.ParseInt | js/app.js:453 | a number needs a text that is not blank; a negative one starts with `-` after the leading white space |
| Json.Get | js/nostr-client.js:516 | a missing field reads as null; a present one as its value |
| Json.OrEmpty | js/nostr-client.js:527-532 | a truthy value is kept, a falsy one becomes `''` |
| AddressScan.UnescapeNewlines | js/nostr-client.js:769 | never longer than the input; no backslash followed by `n` remains; text without a backslash is unchanged; a first character that is not a backslash is kept |
| AddressScan.UnescapeAtPair | js/nostr-client.js:769 | each backslash-`n` pair becomes a newline in place, the text on either side unescaped on its own |
| AddressScan.AddressLengthAt | js/nostr-client.js:772-775 | the address sub-pattern matches 65 characters (`nano_`), 64 (`xno_`) or none, within the text |
| AddressScan.AddressCharsAt | js/nostr-client.js:772-775 | every character of a matched address is a letter, digit or `_` once folded, so never white space |
| AddressScan.MatchedIsLowerAddress | js/nostr-client.js:772-775 | a matched address, folded, is an address by the grammar `validateNanoAddress` checks |
| AddressScan.SpaceRunEnd | js/nostr-client.js:772 | `\s*` greedy: the run is white space and stops before a non-space |
| AddressScan.Backtrack | js/nostr-client.js:772 | a capture found after giving back white space lies in the run and starts an address |
| AddressScan.BacktrackOverSpaces | js/nostr-client.js:772 | giving back white space never finds an address the greedy run missed |
| AddressScan.BacktrackFindsNone | js/nostr-client.js:772 | with no address at any start in the range, backtracking over the spaces finds no match |
| AddressScan.SpacesThenAddress | js/nostr-client.js:772 | `\s*(addr)` captures at or after its start, at an address |
| AddressScan.MatchAt | js/nostr-client.js:772-775 | an attempt of a pattern captures at or after the attempt, at an address |
| AddressScan.Search | js/nostr-client.js:779 | a non-global `match` captures at or after the start, at an address |
| AddressScan.FirstAddress | js/nostr-client.js:778-783 | the leftmost address position: nothing before it, nothing at all when `None` |
| AddressScan.FirstAddressIs | js/nostr-client.js:778-783 | an address with none before it is the leftmost |
| AddressScan.LabelledMatchIsLeftmost | js/nostr-client.js:772 | one attempt of `(?:Nano:\s*)?(addr)` captures the first address at or after the attempt, or no address starts there |
| AddressScan.NoColonInAddress | js/nostr-client.js:772 | the colon of the label cannot lie inside an address |
| AddressScan.NoSpaceStartsAddress | js/nostr-client.js:772 | no address starts with white space |
| AddressScan.LabelledSearchIsLeftmost | js/nostr-client.js:772 | the first pattern finds exactly the leftmost address |
| AddressScan.AddressFrom | js/nostr-client.js:781 | `match[1]` is the text of the address at the captured position, 64 or 65 characters |
| AddressScan.ScanWith | js/nostr-client.js:778-784 | nothing is returned iff no pattern matches; a result has 64 or 65 characters |
| AddressScan.FindNanoAddress | js/nostr-client.js:765-785 | only a non-empty string can give a result, of 64 or 65 characters |
| AddressScan.CleanText | js/nostr-client.js:769 | never longer than the input; what it yields is stated by `AddressScan.CleanTextIsClean` |
| AddressScan.CleanTextIsClean | js/nostr-client.js:769 | the cleaned text is trimmed, holds no backslash followed by `n`, and cleaning it again changes nothing |
| AddressScan.TrimKeepsNoEscapedNewline | js/nostr-client.js:769 | trimming brings in no backslash followed by `n` |
| AddressScan.NoBackslashNUnchanged | js/nostr-client.js:769 | a text without a backslash followed by `n` is unchanged by the replacement |
| AddressScan.WholeAddressScanned | js/nostr-client.js:778-784 | a text that is exactly one address is found whole |
| AddressScan.ScanDecidedByFirstPattern | js/nostr-client.js:771-783 | the four patterns together return the leftmost address; patterns 2-4 never change the outcome |
| AddressScan.FindNanoAddressIsLeftmost | js/nostr-client.js:765-783 | the result is the leftmost address of the cleaned text, or null when there is none |
| AddressScan.MatchedAddressValidates | js/nostr-client.js:772-781 | every captured address passes `validateNanoAddress` |
| AddressScan.FoundAddressValidates | js/nostr-client.js:765-783 | a non-null result of `findNanoAddress` passes `validateNanoAddress` |
| AddressScan.MatchedAddressAlone | js/nostr-client.js:772-775 | a matched address, on its own, matches at its start with its full length |
| AddressScan.MatchedAddressIsClean | js/nostr-client.js:769 | cleaning a matched address leaves it unchanged |
| AddressScan.MatchedAddressFoundAgain | js/nostr-client.js:765-783 | a matched address, scanned on its own, is found whole |
| AddressScan.WholeAddressFound | js/nostr-client.js:765-783 | a clean text that is one whole address is found as itself |
| AddressScan.FindNanoAddressIdempotent | js/nostr-client.js:765-783 | scanning a found address again gives the same address |
| AddressScan.FieldHit | js/nostr-client.js:748-753 | a field is scanned only when truthy; a hit has 64 or 65 characters |
| AddressScan.FieldHits | js/nostr-client.js:745-754 | the outcome of each of the six fields, in priority order |
| AddressScan.FirstHit | js/nostr-client.js:747-754 | none iff no field from the start on hits; a result is one of the hits |
| AddressScan.FirstHitIs | js/nostr-client.js:747-754 | a hit with no hit before it is the one returned |
| AddressScan.FindNanoAddressInProfile | js/nostr-client.js:741-742 | null when there is no profile |
| AddressScan.InProfileFirstFieldWins | js/nostr-client.js:747-754 | the address found in the first field, in priority order, that yields one is returned |
| AddressScan.InProfileFallback | js/nostr-client.js:756-761 | with no field hit, the raw `nano_address` is returned, unvalidated, exactly when it is truthy |
| AddressScan.InProfileResultTruthy | js/nostr-client.js:750-758 | a non-null result is truthy |
| Profiles.Backfill | js/nostr-client.js:515-519 | a truthy base field is kept; a falsy one takes the other's truthy value; otherwise it stays; keys are only added, and only truthy keys of the other |
| Profiles.MergeOlder | js/nostr-client.js:511-523 | the base keeps every key; every added key comes from an older profile that parsed and holds a truthy value for it |
| Profiles.MergeKeepsTruthy | js/nostr-client.js:516 | a truthy base field is never overwritten by older profiles |
| Profiles.MergeWithoutSupplier | js/nostr-client.js:511-523 | with no older profile supplying a field, the base's value stays |
| Profiles.MergeAppend | js/nostr-client.js:511-523 | merging two runs of older profiles is merging them one after the other |
| Profiles.MergeTakesFirstSupplier | js/nostr-client.js:511-523 | a falsy base field takes the value of the first older profile, newest first, with a truthy one |
| Profiles.Processed | js/nostr-client.js:526-539 | the six fields defaulted to `''`, plus `nano_address` exactly when one is found in the merge, and no other key |
| Profiles.ParsedOthers | js/nostr-client.js:511-513 | the older events parsed, in sorted order after the base |
| Profiles.ResolveProfile | js/nostr-client.js:502-547 | the result is nothing exactly when there are no events or the newest one does not parse; a resolved profile has `name` and `lud16` |
| Profiles.MergedFieldIsFirstSupplier | js/nostr-client.js:508-523 | on the events sorted newest first, the merged value of a key is that of the first event that parsed and has it truthy |
| Profiles.MergedFieldWithoutSupplier | js/nostr-client.js:508-523 | when no parsed event has a key truthy, the merged value of that key is falsy |
| Profiles.ResolvedField | js/nostr-client.js:525-533 | each of the six fields of a resolved profile is the merged value `|| ''` |
| Profiles.ResolvedFieldIsFirstSupplier | js/nostr-client.js:503-533 | each of the six fields of a resolved profile is the value of the first event, newest first, that parsed and has that field truthy |
| Profiles.ResolvedFieldDefault | js/nostr-client.js:503-533 | a field of the six that no parsed event has truthy is `''` in a resolved profile |
| Profiles.BaseIsNewest | js/nostr-client.js:503-508 | the base is an event no other is newer than, and the first in relay order among the newest |
| Events.RefersToHasETag | js/nostr-client.js:884-886 | a reply to an event has an `e` tag, so it is never a feed post |
| Events.Put | js/app.js:170 | `map.set`: the entry is replaced or added; existing keys keep their order; validity is kept |
| Events.Keep | js/nostr-client.js:890-894 | one fold step: the id is present afterwards, the other entries are untouched |
| Events.PutAll | js/nostr-client.js:1294-1296 | copying entries keeps the map valid |
| Events.PutAllTable | js/nostr-client.js:1294-1296 | copying every entry of one map into another gives the union, the copied entries winning |
| Events.PutAllPrefix | js/nostr-client.js:1294-1296 | copying the first `i` entries adds them to the table, each replacing what was under its key |
| Events.CopiedKeys | js/nostr-client.js:1294-1296 | the keys copied are the first `i` keys |
| Events.CopiedValues | js/nostr-client.js:1294-1296 | each copied entry is the one the source map holds |
| Events.KeepAll | js/nostr-client.js:882-896 | the fold keeps the map valid |
| Events.KeepAllSnoc | js/nostr-client.js:882-896 | the fold over one more event is one more fold step |
| Events.Values | js/nostr-client.js:903 | `Array.from(map.values())`: the entries in key order |
| Events.Ids | js/nostr-client.js:1287 | every event's id is among the ids |
| Events.KeepAllKeepsNewest | js/nostr-client.js:1286-1291 | exactly the ids that occur are kept, each with an event of that id no other is newer than, the first seen among the newest |
| Events.KeepStep | js/nostr-client.js:1287-1290 | one fold step keeps that invariant |
| Events.IdsSnoc | js/nostr-client.js:1287 | one more event adds its id |
| Events.KeptNewestStep | js/nostr-client.js:1287-1290 | after one step each kept entry is still the newest of its id |
| Events.KeptNewestExtend | js/nostr-client.js:1288 | an event that is not newer leaves the kept one in place |
| Events.KeptNewestNew | js/nostr-client.js:1288-1289 | an event newer than every earlier one with its id is kept |
| Reactions.Count | js/nostr-client.js:806-822 | the key is marked seen, and a like adds one exactly when its key is new |
| Reactions.CountAllSnoc | js/nostr-client.js:804-823 | counting one more event is one more count step |
| Reactions.DashFromSkips | js/nostr-client.js:806 | the first dash of the key after a dash-free part is where that part ends |
| Reactions.KeyInjective | js/nostr-client.js:806 | with dash-free public keys, the key determines kind, author and content |
| Reactions.DashedKeysCollide | js/nostr-client.js:806 | without that, author `a-b` with `c` and author `a` with `b-c` share a key |
| Reactions.KeyParts | js/nostr-client.js:806 | the two separators of the key are found where kind and author end |
| Reactions.ReactionKey | js/nostr-client.js:806 | the key is as long as kind, author and content plus two, with a `-` where the kind ends and where the author ends |
| Reactions.KeySlices | js/nostr-client.js:806 | the key's parts are the decimal kind, the author and the content |
| Reactions.CountAll | js/nostr-client.js:804-823 | the seen keys only grow; the likes grow by at most one per event |
| Reactions.CountAllMeaning | js/nostr-client.js:794-827 | `likes` is the number of distinct authors of a `+` reaction however many relays return it; `liked` iff the own key is one; `reposted` iff some repost is the own |
| Reactions.CountStep | js/nostr-client.js:809-821 | one event keeps that meaning |
| Reactions.LikerHasKey | js/nostr-client.js:806-809 | a like by an author who already liked has a key already seen |
| Reactions.SeenChangesNothing | js/nostr-client.js:809 | a repeated key adds no liker and no repost |
| Reactions.KeysSnoc | js/nostr-client.js:810 | one more event adds its key |
| Reactions.LikersSnoc | js/nostr-client.js:812-816 | one more like adds its author |
| Reactions.RepostedSnoc | js/nostr-client.js:817-820 | one more own repost makes `reposted` true |
| Client.Reasons | js/nostr-client.js:225-227 | the failure reasons, at most one per relay, all of them in order when every relay failed |
| Client.PublishError | js/nostr-client.js:230-231 | the error starts with `Failed to publish to any relay: ` and contains every failed relay's reason |
| Client.PublishStep | js/nostr-client.js:195-227 | one more relay: published iff before or by this relay; its reason is appended when it failed |
| Client.PublishEvent | js/nostr-client.js:192-235 | the signed event iff some relay acknowledged; otherwise the error lists every reason, joined by `, ` |
| Client.EveryFailureReported | js/nostr-client.js:226-231 | with no acknowledgement, every relay's reason is reported, in relay order |
| Client.ZapRequest | js/nostr-client.js:417-426 | kind 9734, empty content, `['p', recipient]`, an `amount` tag reading back as `amount * 1000`, and `['relays', …urls]` |
| Client.SplitIntoBatches | js/nostr-client.js:1140-1145 | the batches concatenate to the input; each is non-empty with at most `batchSize`; all but the last are full |
| Client.NextBatch | js/nostr-client.js:1143-1145 | cutting the next slice keeps all batches but the last full and their concatenation a prefix of the list |
| Client.CacheHitsSnoc | js/nostr-client.js:1151-1157 | one more profile hit overwrites its author's cache entry |
| Client.CacheHitsMeaning | js/nostr-client.js:1148-1167 | the cache gains exactly the hit authors, each with the profile of their last hit; other entries are unchanged |
| Client.NanoAuthorsSnoc | js/nostr-client.js:1155 | one more hit adds its author |
| Client.LastHitNew | js/nostr-client.js:1157 | a hit is its author's last hit |
| Client.LastHitExtend | js/nostr-client.js:1157 | an event that is not a hit for that author keeps their last hit |
| Client.KeepNewest | js/nostr-client.js:878-900 | the table equals the newest-per-id fold over the kept events of all relays, in order |
| Client.KeepRelay | js/nostr-client.js:882-896 | one relay's events extend that fold |
| Client.KeepFilteredSnoc | js/nostr-client.js:884-894 | one more event extends the fold of the kept events by one step when it is kept |
| Client.KeptEvents | js/nostr-client.js:1286-1291 | the fold keeps the newest of each id, and every entry passes the filter |
| Client.TableSize | js/nostr-client.js:1298 | `uniquePosts.size` is the number of distinct ids |
| Client.RepliesAreNewest | js/nostr-client.js:870-906 | each reply refers to the event and is the newest with its id, the first seen on ties |
| Client.RepliesDistinct | js/nostr-client.js:870-906 | no reply id occurs twice |
| Client.RepliesOrdered | js/nostr-client.js:902-904 | replies ascend by `created_at`, one per replying id |
| Client.RepliesCoverReplyingIds | js/nostr-client.js:884-894 | every event carrying `['e', eventId]` has its id among the replies |
| Client.SortedEntriesStored | js/nostr-client.js:903-904 | the sorted entries are as many as the keys, each stored under its id |
| Client.SortedEntriesDistinct | js/nostr-client.js:903-904 | no id occurs twice among the sorted entries |
| Client.SortedEntriesPresent | js/nostr-client.js:903-904 | every stored entry is among the sorted entries |
| Seqs.SortBy | js/nostr-client.js:903-904 | the result is a permutation of the input, ordered by the key |
| Seqs.SortByStable | js/nostr-client.js:903-904 | entries with equal keys keep their relative order, as `Array.prototype.sort` does |
| Seqs.Filter | js/nostr-client.js:1275 | every kept entry passes the test and comes from the input, with no entry repeated beyond its input count; every input entry that passes is kept |
| Client.ResolveAnswers | js/nostr-client.js:490-547 | the loops collecting, sorting and merging give the profile the resolution specifies |
| Client.GatherAnswers | js/nostr-client.js:490-500 | the events of all relays, in relay order |
| Client.MergeOlderEvents | js/nostr-client.js:511-523 | the base profile backfilled from each older parsed event in turn |
| Client.WithUserPosts | js/nostr-client.js:1272-1296 | the non-reply posts, newest per id, copied into the table, which stays well formed; their number |
| Client.PutEach | js/nostr-client.js:1294-1296 | the loop copying posts into `nanoPosts` gives the specified copy |
| Client.MergeMissing | js/nostr-client.js:515-519 | the in-place key loop gives the backfill, whatever the key order |
| Client.NostrClient.constructor | js/nostr-client.js:2-9 | no relays, empty cache, no posts |
| Client.NostrClient.AddRelay | js/nostr-client.js:437-452 | a known URL is refused with `Relay already exists`; a failed connection with `Failed to connect to relay`; otherwise the URL is added; URLs stay distinct |
| Client.NostrClient.RemoveRelay | js/nostr-client.js:454-460 | the URL is removed if present; nothing else changes |
| Client.NostrClient.GetProfileForPubkey | js/nostr-client.js:475-559 | a cache hit is returned unchanged with no query; else the resolved profile is cached and returned, or the empty profile is returned and nothing cached |
| Client.NostrClient.GetReactions | js/nostr-client.js:787-830 | the counters are the tally of all relays' events (meaning per `Reactions.CountAllMeaning`) |
| Client.NostrClient.GetReplies | js/nostr-client.js:870-907 | the result is the specified replies (properties per the `Replies…` lemmas) |
| Client.NostrClient.AddUserToNanoFeed | js/nostr-client.js:1248-1300 | a cached author leaves the cache as it was; otherwise the cache becomes `Client.FeedCache`: a resolved profile is cached, with `nano_address` set when an address is found in it, and an unresolved author stays uncached; the non-reply posts, newest per id, are copied into `nanoPosts`; their number is returned |
| Client.NostrClient.CacheNanoProfile | js/nostr-client.js:1252-1263 | the cache after resolving the author and re-caching with `nano_address` |
| Client.NostrClient.CheckProfilesInParallel | js/nostr-client.js:1138-1170 | the Nano users are the authors whose content holds an address and parses; each is cached with that profile |
| Client.CheckBatches | js/nostr-client.js:1148-1167 | the batches taken in turn give the users and cache over all profiles |
| Client.CountRelay | js/nostr-client.js:804-823 | one relay's events extend the tally |
| Client.RepliesOf | js/nostr-client.js:903-904 | the replies come sorted by creation time |
| Client.FeedCache | js/nostr-client.js:1252-1263 | only the author's entry can change; an unresolved author leaves the cache as it was; a resolved profile is cached with all its fields, and with `nano_address` set to the address found in it when there is one |
| Client.CountReaction | js/nostr-client.js:806-822 | one event updates the set and counters as one count step |
| ProfileText.NonSpaceRun | js/app.js:77 | `[^\s]*` greedy: the run has no white space and stops at white space or the end |
| ProfileText.AddressAt | js/app.js:77 | the address part of the pattern matches a `nano_` or `xno_` prefix and a non-empty run ending at white space or the end |
| ProfileText.MatchAt | js/app.js:77 | a match starts with the marker and extends past it |
| ProfileText.FirstMatch | js/app.js:77 | a result is a match position at or after the start, with the matched length |
| ProfileText.FirstMatchLeftmost | js/app.js:77 | no match starts before the first match, nor anywhere when there is none |
| ProfileText.CaptureShape | js/app.js:77 | a match of `Nano: ` lies inside the text and captures text that starts with `nano_` or `xno_` and holds no white space |
| ProfileText.RemoveNanoLine | js/app.js:556 | at most the input; without a `\nNano: ` line the text is unchanged |
| ProfileText.CleanAbout | js/app.js:79 | the cleaned about is trimmed |
| ProfileText.FormatAbout | js/app.js:547-559 | refused with `Invalid Nano address format` iff an address is given and invalid; no address leaves the about as it is |
| ProfileText.UpdateProfile | js/app.js:539-566 | refused exactly when the address is; otherwise `name`, the formatted `about` and `lud16`, and no other key |
| ProfileText.ValidAddressHasNoSpaces | js/app.js:77 | a valid address holds no white space |
| ProfileText.OccursInside | js/app.js:77 | an occurrence within the first part is an occurrence there |
| ProfileText.NoStraddle | js/app.js:558 | no occurrence runs over the written newline unless the pattern has one there |
| ProfileText.TrimmedOccurrence | js/app.js:558 | what occurs in the trimmed text occurs in the text |
| ProfileText.AddressAtEnd | js/app.js:77 | a valid lower-case-prefixed address at the end of the text is captured whole |
| ProfileText.NonSpaceRunToEnd | js/app.js:77 | a run without white space to the end is taken whole |
| ProfileText.TrimKeepsAbsent | js/app.js:558 | trimming adds no `Nano: ` |
| ProfileText.NoEarlierMatch | js/app.js:77 | before the written line neither pattern matches |
| ProfileText.FormatWithoutLine | js/app.js:553-558 | with no `Nano: ` in the about, the result is the trimmed about, `\nNano: ` and the address |
| ProfileText.FormatThenExtract | js/app.js:77-78 | on the form's text, `loadProfile`'s pattern reads back the address the form wrote, when its prefix is lower case and the about had no `Nano: ` (the client's pass in between is `ProfileSave.SaveThenLoad`) |
| ProfileText.FormatThenClean | js/app.js:79 | on the form's text, `loadProfile`'s cleaned about is the trimmed original about |
| ProfileText.ReadBackWritten | js/app.js:77-78 | in a text written as text, `\nNano: `, address, with no `Nano: ` in the text, the address is the one the pattern captures |
| ProfileText.RemoveWrittenLine | js/app.js:79 | removing the address line from such a text gives the text before it |
| ProfileText.WrittenMarkerFirst | js/app.js:77 | in the written text the first `Nano: ` match is the written one, capturing the whole address |
| ProfileText.WrittenLineFirst | js/app.js:79 | in the written text the first line match is the written line, to the end of the text |
| ProfileText.LineHoldsMarker | js/app.js:556 | where the address line starts, the `Nano: ` label starts one character later |
| ProfileText.NoLineWithoutMarker | js/app.js:556 | without `Nano: ` there is no line to cut out |
| ProfileText.FirstMatchNone | js/app.js:77 | no match anywhere means none found |
| ProfileText.FirstMatchIs | js/app.js:77 | a match with none before it is the one found |
| ProfileText.UpdateReplacesLine | js/app.js:553-558 | saving again with another address replaces the line rather than adding one |
| ProfileText.UpperCasePrefixNotReadBack | js/app.js:77 | `XNO_1…` validates and is written, but `loadProfile` extracts nothing from it |
| ProfileText.UpperCaseLineHasNoMatch | js/app.js:77 | a written line whose address has an upper-case prefix gives no `Nano: ` match |
| ProfileText.OnlyMarkerAtOne | js/app.js:77 | in that text `Nano: ` occurs only at the written line |
| ProfileText.ExtractNano | js/app.js:77-78 | an address is read exactly when `Nano: ` followed by `nano_` or `xno_` and at least one non-white-space character occurs; what is read starts with that prefix and holds no white space |
| ProfileText.ExtractNanoIs | js/app.js:77-78 | the extract is the capture of the first match |
| ProfileSave.LineMatchAt | js/nostr-client.js:374 | a match tried at a position gives where its address starts, at or after it, and an address starts there |
| ProfileSave.LineSearch | js/nostr-client.js:374 | the leftmost match: none starts before it, and with none found none starts anywhere |
| ProfileSave.CutAddressLine | js/nostr-client.js:374 | with no match the text is kept; a cut removes at least the 64 characters of an address |
| ProfileSave.SavedAbout | js/nostr-client.js:368-381 | an about with no address is published as it is |
| ProfileSave.SavedAboutMovesLeftmost | js/nostr-client.js:368-381 | with an address, the published about is the text with its leftmost address line cut out and trimmed, then `\nNano: ` and the leftmost address |
| ProfileSave.CleanProfile | js/nostr-client.js:379-386 | exactly the six keys; the given name and Lightning address, else the current profile's truthy ones, else `''`; picture, banner and NIP-05 from the current profile, else `''`; the about as saved |
| ProfileSave.AddressInSlice | js/nostr-client.js:370 | an address inside a slice of a text is an address of the text |
| ProfileSave.AddressWithinPrefix | js/nostr-client.js:370 | an address of a text lying inside a prefix of it is an address of the prefix |
| ProfileSave.AddressLengthFromFirst | js/nostr-client.js:370 | a 65-character address starts with `n`, a 64-character one with `x` |
| ProfileSave.NoAddressInSlice | js/nostr-client.js:370 | a slice of a text with no address holds none |
| ProfileSave.TrimmedHasNoAddress | js/nostr-client.js:374 | trimming an address-free text leaves it address-free |
| ProfileSave.WrittenParts | js/app.js:558 | the form's text is the about, the newline, a label reading `nano:` case-folded, a space and the address |
| ProfileSave.ValidWrittenShape | js/app.js:553 | a valid address with a lower-case prefix has 64 or 65 characters and starts `na` or `xn`, and only `nano_` gives 65 |
| ProfileSave.OnlyWrittenAddress | js/nostr-client.js:370 | in the form's text, with no address in the about, an address can only start where the written one does |
| ProfileSave.NotShiftedAddress | js/nostr-client.js:370 | no address starts inside the written one |
| ProfileSave.WrittenLength | js/nostr-client.js:370 | the written address, when matched, is captured whole |
| ProfileSave.WrittenAddressFirst | js/nostr-client.js:370 | the written address, when matched, is the leftmost |
| ProfileSave.WrittenAddressMissed | js/nostr-client.js:370 | when the written address is not matched, the text holds none |
| ProfileSave.LabelledMatchSpaces | js/nostr-client.js:374 | a labelled match takes only white space between the label and the address |
| ProfileSave.NoLineMatchBefore | js/nostr-client.js:374 | no match of the cut pattern starts inside the about part |
| ProfileSave.LineMatchAtWritten | js/nostr-client.js:374 | at the written newline the cut pattern takes the newline, label, space and address |
| ProfileSave.LineSearchIs | js/nostr-client.js:374 | a match with none before it is the leftmost |
| ProfileSave.CutWrittenLine | js/nostr-client.js:374 | cutting the address line from the form's text gives back the about part |
| ProfileSave.WrittenFound | js/nostr-client.js:368-374 | a matched written address is the leftmost, captured whole, and the cut leaves the about part |
| ProfileSave.SavedWritten | js/nostr-client.js:368-381 | the client writes a matched written address back after the trimmed about part |
| ProfileSave.SuffixIs | js/nostr-client.js:370 | the tail of a text read as a slice |
| ProfileSave.SavedAboutFound | js/nostr-client.js:368-381 | the published about in terms of the leftmost address and the cut text |
| ProfileSave.SavedAboutKeepsWritten | js/nostr-client.js:368-381 | when the form's about holds no address, the client publishes the form's text unchanged |
| ProfileSave.SaveThenLoad | js/nostr-client.js:367-386 | form, client and `loadProfile` together: with a lower-case-prefixed address and an about holding neither `Nano: ` nor an address, the kept profile gives back the address and the trimmed about |
| ProfileSave.SaveWithoutAddress | js/nostr-client.js:368-381 | with no address given and none in the about, the about is published as the form sent it |
| Zap.PlanZap | js/app.js:424-457 | the checks in order, each outcome exactly when the earlier checks pass and its own fails: no WebLN, no Nostr, no truthy `lud16`, prompt dismissed or empty, then `parseInt` ≤ 0 or NaN refused; it proceeds iff all pass, with the parsed positive sats |
| Zap.IndexOf | js/app.js:475-476 | the first index of the character, or the length when absent |
| Zap.LightningEndpoint | js/app.js:474-478 | an endpoint is made iff the address holds `@` |
| Zap.EndpointOfAddress | js/app.js:476-477 | `name@domain` gives `https://domain/.well-known/lnurlp/name`, per LUD-16 |
| Zap.IndexOfAt | js/app.js:476 | the `@` of `name@domain` is found after `name` |
| Zap.IndexOfFirst | js/app.js:476 | the first occurrence with none before it is the index found |
| Zap.IndexOfAbsent | js/app.js:476 | an absent character gives the length |
| Zap.CallbackCarriesRequestAmount | js/app.js:491 | the callback's `amount` is the zap request's amount tag and reads back as `sats * 1000` |
| Zap.CallbackUrl | js/app.js:491 | the URL is the callback, `?amount=`, a text that reads back as `sats * 1000`, `&nostr=` and the encoded request |
| Feed.NanoTagScanMeaning | js/app.js:173-175 | the scan throws iff a valueless `t` tag precedes every `nanocurrency` tag; finds the topic iff a `nanocurrency` tag precedes every valueless one |
| Feed.ValuelessComesFirstCons | js/app.js:173-175 | a valueless `t` tag comes first iff the head is one, or the head is no `nanocurrency` tag and one comes first in the rest |
| Feed.NanoComesFirstCons | js/app.js:173-175 | a `nanocurrency` tag comes first iff the head is one, or the head is no valueless `t` tag and one comes first in the rest |
| Feed.Rendered | js/app.js:280-317 | an id already shown is skipped; with `nanoOnly` an author the oracle denies is skipped; else the post goes on top; ids stay distinct |
| Feed.LiveFeed | js/app.js:168-194 | a live post ends up shown iff it already was, or the tag scan does not throw and `nanoOnly` is off or the oracle confirms the author |
| Feed.NanoTagScan | js/app.js:173-175 | `false` exactly when no `t` tag is `nanocurrency` and none lacks a value; `true` only with a `nanocurrency` tag; a throw only with a valueless `t` tag |
| Feed.AboutIncludesNano | js/app.js:218 | `includes` throws exactly on a boolean, number or object; a missing or `null` about gives `false`; `true` only for a string or an array |
| Feed.MarksNanoUser | js/app.js:217-218 | a marked author's profile parsed and its `about` check did not throw; an `about` string containing `nano_` marks; with no `about` the mark is the truthiness of `nano` |
| Feed.InsertNew | js/app.js:245-249 | the stored table stays well formed; shown ids stay shown; at most one post is shown per event |
| Feed.RefreshedFeed | js/app.js:264-278 | the re-rendered feed has no id twice |
| Feed.RefreshShowsExactly | js/app.js:269-277 | a stored post is shown iff `nanoOnly` is off, or its author is known and confirmed; nothing else is shown |
| Feed.NanoUsersIn | js/app.js:215-224 | exactly the authors of profiles that parse and have `about` containing `nano_` or a truthy `nano` |
| Feed.NanoUsersSnoc | js/app.js:218-220 | one more profile adds its author exactly when it marks |
| Feed.InsertNewSnoc | js/app.js:245-250 | one more post is stored and rendered only when its id is absent |
| Feed.InsertNewKeeps | js/app.js:246-247 | the historical path never overwrites a stored post; the new keys are the posts' ids |
| Feed.InsertNewValid | js/app.js:246-248 | it keeps the map valid, the feed distinct and every shown id stored |
| Feed.CheckRelayUrl | js/app.js:126-132 | accepted iff the trimmed input starts with `wss://`, as that trimmed URL; else `Relay URL must start with wss://` |
| Feed.App.constructor | js/app.js:2-8 | `nanoOnly` off, no posts, no known users, empty feed |
| Feed.App.RenderEvent | js/app.js:280-317 | the feed becomes the rendered feed; nothing else changes |
| Feed.App.OnLiveEvent | js/app.js:168-194 | the post is stored, overwriting; the author becomes known only when the scan does not throw and the oracle confirms; the feed follows `LiveFeed` |
| Feed.App.FromRelay | js/app.js:204-254 | the marked authors become known; when there are any, each post with an absent id is stored and rendered; otherwise posts and feed are unchanged |
| Feed.App.FetchHistoricalPosts | js/app.js:200-256 | relay by relay: known users grow by every relay's marked authors; posts and feed follow the crawl |
| Feed.App.RefreshFeed | js/app.js:264-278 | the feed is rebuilt from the stored posts in map order; the store and known users are unchanged |
| Feed.App.ToggleNanoOnly | js/app.js:22-25 | the switch is set and the feed refreshed under it |
| Feed.App.AddRelay | js/app.js:125-141 | a URL not starting with `wss://` is refused with `Relay URL must start with wss://` and nothing changes; a known URL gives `Failed to add relay: Relay already exists`, a failed connection `Failed to add relay: Failed to connect to relay`; otherwise the trimmed URL is appended; only `wss://` URLs are added; the public key, profile cache and feed posts are unchanged |
| Feed.MarkedUsers | js/app.js:213-224 | the loop over profile events collects exactly the marked authors |
| Feed.InsertPosts | js/app.js:244-251 | the loop over posts gives the specified insert-if-absent |

## Left out

- Relay transport: `connectToRelays`, `queryRelay`, `subscribe`, the `Promise.race` timeouts, `setTimeout` and the retry loop of `init`.
  - Relay answers are given sequences; a relay that errs or times out contributes nothing.
  - A publish outcome is given per relay; a timeout is a `Failed("Timeout")` outcome.
- Relay-side filters (`authors`, `since`, `limit`, `#e`, `#t`) are taken as already applied by the relays.
- Signing and identity: `getEventHash`, `signEvent`, `window.nostr` and `getPublicKey` are foreign calls.
  - `Client.PublishEvent` receives the signed event.
  - `Client.ZapRequest` models only the unsigned template.
- `Client.NostrClient.constructor`: the public key is a parameter, not the one `init` obtains.
- `Client.PublishEvent`: an acknowledgement arriving after a timeout has rejected is not modelled; each relay has exactly one outcome.
- Concurrency is not modelled.
  - The awaits of the live callback and of `renderEvent` can interleave; two calls racing on one id could both insert it.
  - The model runs each event to completion.
  - `checkProfilesInParallel` runs each batch in parallel; the model takes the profiles in order.
- `checkProfilesInParallel` also starts a fire-and-forget `addUserToNanoFeed` for each hit. Its effect is modelled separately by `Client.NostrClient.AddUserToNanoFeed`, not chained.
- `JSON.parse` is a parameter returning an object or nothing.
  - A content that parses to a non-object is treated like one that fails to parse.
  - The code would instead cache such a value (`checkProfilesInParallel`) or read fields of it.
- `hasNanoAddress` (`js/nostr-client.js:694`) is an oracle, fixed during one call. Its network crawl is not modelled.
  - `discoverNanoUsers`, `getUserInteractions` and `initializeNanoFeed` are not modelled either.
- Reactions.CountAllMeaning: assumes public keys hold no `-`, as NIP-01 hex keys do. `Reactions.DashedKeysCollide` shows the key is ambiguous without that assumption.
- Feed.App.FetchHistoricalPosts: the history is one entry per relay, given in relay order. That it matches `Object.values(this.nostrClient.relays)` is not stated.
- Feed.AboutIncludesNano: an `about` that is a number, boolean or object throws in `includes` and the profile is skipped. A string and an array are modelled.
- A non-string `lud16` is not modelled, nor the `lnurl.includes` that would throw on one.
  - `js/app.js:460-463` re-checks `lud16` after `js/app.js:440`; `Zap.PlanZap` omits this redundant second check.
- Profiles.Backfill: `!baseProfile[key]` also reads inherited members, so in the source a key such as `toString` or `constructor` that the newest profile lacks is never backfilled, while the model backfills it. `Profiles.Processed` keeps only the six fields and `nano_address`, so no returned profile differs.
- Zap.CallbackCarriesRequestAmount: `sats * 1000` is an exact integer. JavaScript numbers lose precision above 2^53 and print in exponent notation from 10^21; neither is modelled.
- Floating point: `nanoToRaw` and the `parseFloat` amount of `sendNanoTip` are not modelled.
- Utils.ValidateNanoAddress: the address is a string. A `null` or `undefined` address (refused by `!address`) and a non-string one (which throws in `toLowerCase`) are not modelled.
- Utils.RawToNano: the raw amount is an integer. The `BigInt` conversion of a string or number, and its throw on text that is not an integer, are not modelled.
- Strings are sequences of Unicode characters. JavaScript strings are UTF-16 code units, so lengths and indices differ on characters outside the Basic Multilingual Plane; this is not modelled.
- Client.SplitIntoBatches: requires a positive batch size. With `batchSize <= 0` the loop at js/nostr-client.js:1143 never ends on a non-empty list; the default is 10 and no caller passes another.
- Reactions.CountAll: its own contract states only that the seen keys grow and that likes grow by at most one per event. What the tally means is stated by `Reactions.CountAllMeaning`.
- ProfileSave.SaveThenLoad: the round trip through the form, the client and `loadProfile` is proved only for an about that holds no address.
  - An about that already holds an address is rewritten by the client: the leftmost address moves to the last line.
  - For instance, the about `tips: ` followed by address A, saved with address B, is published as `tips: ` + `\nNano: B\nNano: A`.
  - `loadProfile` then reads B, and its cleaned about is `tips: ` + `\nNano: A`.
- ProfileSave.CleanProfile: `this.profile` starts as `{}` when unset, which the model takes as an empty current profile. The `kind`/`created_at` event around it and the publish are not modelled; the profile is kept as if the publish succeeded.
- The `fetch` calls, `webln`, `NanoPay` and the invoice payment are not modelled; only the endpoint and callback URL strings are.
- The DOM, `switchTab`, `updateRelayList`, `createPaymentButtons`, `formatDate`, `sanitizeImageUrl`, `fetchProfile`, `localStorage` (`saveRelays`, `loadSavedRelays`) and `init` are not modelled.
- `App.getProfileForPubkey` (`js/app.js:343-390`) is not modelled. The author profile `sendZap` reads is an input of `Zap.PlanZap`.
- JsString.ToLowerCase: only ASCII letters and the Kelvin sign are lowered; the latter is the one non-ASCII character whose lower case is an address character. Other Unicode case mappings are not modelled, since they cannot turn text into an address.
- A post's content, author name and payment buttons are not part of the rendered feed; only the `post-<id>` element and its order are.
- Deviations from the plain reading, where the code decides:
  - A `t` tag with no value makes the live callback throw after the post is stored. Such a post is never rendered, even with `nanoOnly` off (`Feed.LiveFeed`).
  - With `nanoOnly` on, `refreshFeed` shows only posts whose author is known *and* confirmed by `hasNanoAddress`, because `renderEvent` checks again (`Feed.RefreshShowsExactly`).
  - With `nanoOnly` on, a known author's live post is likewise shown only if the oracle confirms it.
  - `validateNanoAddress` accepts an upper-case `XNO_`/`NANO_` prefix, which `loadProfile`'s case-sensitive pattern then does not read back (`ProfileText.UpperCasePrefixNotReadBack`). The round trip is proved for lower-case prefixes only.
