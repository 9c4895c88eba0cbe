# Social Writer opportunity backend, modelled in Dafny

This project models the newsjacking core of Social Writer. That core finds
news articles that fit a user's brand and turns them into writing
opportunities. The model covers these parts:

- the backend's hand-written base64 decoder, against the encoder of section 4 of RFC 4648;
- the scoring rules: cosine similarity, the weighted final score, the trending steps and the summary preview;
- the normalisation of search results and of extracted search terms;
- `rankResultsBySimilarity`, which drafts the results and sorts them;
- the Convex tables as a `Database` class, with the mutations over them:
  - the dedup upsert of opportunities;
  - dismissal and deletion;
  - attaching a brief;
  - replacing a user's search-term sets and brand guide;
  - the flattened list of active terms;
- `getBrandGuideContent`, which strips a data URL and decodes it;
- three UI helper sets:
  - the dashboard's relative-time formatters and filters;
  - the opportunity card's date buckets, score colour and keyword chips;
  - the keyword manager's list updates.

The clock, the embedding service, date parsing, `Math.sqrt` and file storage
are parameters. Times are whole milliseconds and scores are `real`.

Files, one module each:

- `Schema.dfy` holds the records.
- `Text.dfy` holds the JavaScript string operations.
- `Lists.dfy` holds `filter`.
- `Base64.dfy`, `Scoring.dfy`, `Ranking.dfy`, `Store.dfy` and `BrandGuideContent.dfy` model `convex/newsjacking.ts`.
- `Dashboard.dfy`, `OpportunityCard.dfy` and `KeywordManager.dfy` model the React components of the same names.

## Model

| member | source | states |
|---|---|---|
| Base64.Decode | convex/newsjacking.ts:6-25 | the loop's result equals the decoding function over the whole input: a group of four characters at a time, `indexOf` codes, the bitmap and the two guarded appends |
| Base64.Base64Decode | convex/newsjacking.ts:6-25 | the decoder as written returns exactly 3·⌈n/4⌉ characters, each with a code below 256 |
| Base64.DecodeLength | convex/newsjacking.ts:12-21 | no character maps to 64, so every group yields three bytes |
| Base64.PositionIsIndexOf | convex/newsjacking.ts:7-15 | the code of a character is its index in the alphabet string, and a found index holds that character |
| Base64.DecodeEncode | convex/newsjacking.ts:6-25 | decoding the RFC 4648 encoding of a byte string whose length is a multiple of 3 gives back the bytes |
| Base64.PaddingDecodedAsWritten | convex/newsjacking.ts:20-21 | "AA==" is the encoding of the byte 0, and the decoder as written turns it into three 0xFF bytes |
| Base64.PaddedEncodingsCorrupted | convex/newsjacking.ts:6-25 | for every byte string whose length is not a multiple of 3, the decoder as written returns more bytes than were encoded, so never the bytes themselves |
| Base64.Base64DecodePadded | convex/newsjacking.ts:6-25 | the decoder with '=' at index 64 returns the bytes of every base64 encoding |
| Base64.DecodePaddedEncode | convex/newsjacking.ts:20-21 | with '=' at index 64, decode(encode(b)) == b for every byte string, padded groups included |
| Schema.ParseCategory | convex/schema.ts:36-41 | a parsed category names exactly the string it was parsed from |
| Text.Lower | convex/newsjacking.ts:1315 | `toLowerCase` keeps the length and lowers exactly the upper-case letters |
| Text.IncludesOccurs | convex/newsjacking.ts:1314-1316 | `includes` holds exactly when the substring occurs at some index |
| Text.JoinSplit | convex/newsjacking.ts:335 | joining the pieces of `split(',')` with ',' gives back the string |
| Text.SplitJoin | convex/newsjacking.ts:335 | splitting a join of comma-free pieces gives back the pieces |
| Text.ValueOfDecimal | src/components/NewsjackingDashboard.tsx:181 | a number printed in a template literal reads back as that number |
| Text.Take | convex/newsjacking.ts:606 | `substring(0, n)` is the prefix of length min(n, length) |
| Lists.FilterSubsequence | src/components/NewsjackingDashboard.tsx:160 | `filter` keeps order and keeps exactly the passing elements |
| Lists.FilterComplement | src/components/NewsjackingDashboard.tsx:133-134 | the passing and the failing elements together account for the list |
| Scoring.Clamp01 | convex/newsjacking.ts:1310 | `max(0, min(1, x))` lies in [0, 1] and is the identity there |
| Scoring.CosineSimilarity | convex/newsjacking.ts:1273-1274 | an empty vector gives similarity 0 |
| Scoring.ZeroVectorSimilarity | convex/newsjacking.ts:1279-1280 | a zero vector on either side has magnitude 0 and gives similarity 0 |
| Scoring.SumSquaresZero | convex/newsjacking.ts:1277-1278 | a sum of squares is never negative, and it is 0 for a zero vector |
| Scoring.DotZeroPadded | convex/newsjacking.ts:1276 | `vecB[i] \|\| 0` treats missing entries as 0, so padding b with zeros leaves the dot product unchanged |
| Scoring.Recency | convex/newsjacking.ts:1292-1310 | the recency boost lies in [0, 1]; an unparseable date gives age 0 |
| Scoring.SafeSimilarity | convex/newsjacking.ts:1319 | the similarity used lies in [0, 1]; NaN counts as 0.5 |
| Scoring.FinalScore | convex/newsjacking.ts:1289-1329 | the final score always lies in [0.15, 1] |
| Scoring.FinalScoreMonotoneInSimilarity | convex/newsjacking.ts:1319-1325 | a higher similarity never lowers the score |
| Scoring.FinalScoreMonotoneInDate | convex/newsjacking.ts:1296-1310 | a newer article never scores lower |
| Scoring.CredibleSourceNotLower | convex/newsjacking.ts:1313-1316 | a credible source never scores below a non-credible one, other things equal |
| Scoring.InvalidDateScoresAsNew | convex/newsjacking.ts:1292-1303 | an unparseable date scores like an article published now, because the catch that sets age 24 is never reached |
| Scoring.NaNSimilarityScoresAsHalf | convex/newsjacking.ts:1319 | a NaN similarity scores like 0.5 |
| Scoring.ReutersIsCredible | convex/newsjacking.ts:1313-1316 | "Reuters" is credible, because its lower case contains "reuters" |
| Scoring.RecencyAndCredibilityExample | convex/newsjacking.ts:1289-1329 | a Reuters piece 30 minutes old at similarity 0.9 outranks a non-credible blog 40 hours old at 0.95 |
| Scoring.TrendingScore | convex/newsjacking.ts:1331-1349 | the trending score is 0.9, 0.7, 0.5 or 0.3 by age under 1 h, 6 h, 24 h or older; an unparseable date gives 0.3 |
| Scoring.TrendingIffUnderSixHours | convex/newsjacking.ts:613 | `isTrending` (score > 0.5) holds exactly when the date parses and the age is under 6 h |
| Scoring.TrendingNonIncreasing | convex/newsjacking.ts:1346-1349 | the trending score never rises with age |
| Scoring.Summary | convex/newsjacking.ts:606 | content of up to 300 characters is kept whole; longer content becomes its first 300 characters plus "..." |
| Scoring.FirstTruthy | convex/newsjacking.ts:178-183 | the result is the first non-empty alias, or the fallback when every alias is missing or empty |
| Scoring.SourceName | convex/newsjacking.ts:178-183 | the source name is never empty, because it falls back to "Unknown" |
| Scoring.NormaliseResult | convex/newsjacking.ts:176-201 | title, URL and content are carried over; the source is the first present, non-empty alias among source, domain, hostname, publication and publisher, else "Unknown"; a missing or empty date becomes the current time's ISO string |
| Scoring.TermWeight | convex/newsjacking.ts:1216 | a missing, zero or NaN weight becomes 0.5; any other weight is kept |
| Scoring.NormaliseTerm | convex/newsjacking.ts:1214-1218 | a term normalises exactly when its category, defaulting to "industry", is one of the four |
| Scoring.NormaliseTerms | convex/newsjacking.ts:1212-1219 | the mapped list succeeds exactly when every term normalises, and then it matches term by term |
| Ranking.Draft | convex/newsjacking.ts:594-615 | a draft carries the owner, title, URL, source, content and parsed date; its similarity is the cosine similarity with the brand embedding; both timestamps are `now`; its final score is calculateFinalScore of the parsed date, the source and that similarity, so it lies in [0.15, 1]; it is trending exactly under 6 h; it has the summary preview; it is not dismissed |
| Ranking.DraftsSound | convex/newsjacking.ts:591-619 | every draft comes from a result whose content embedded |
| Ranking.DraftsComplete | convex/newsjacking.ts:591-619 | every result whose content embeds is drafted |
| Ranking.DraftsAllEmbedded | convex/newsjacking.ts:591-619 | when every embedding succeeds, nothing is dropped |
| Ranking.SortByScore | convex/newsjacking.ts:622 | the sort is a permutation of its input |
| Ranking.SortDescending | convex/newsjacking.ts:622 | the sort orders by non-increasing final score |
| Ranking.SortStable | convex/newsjacking.ts:622 | the sort is stable: equal scores keep the input order |
| Ranking.RankResultsBySimilarity | convex/newsjacking.ts:585-625 | the loop returns the sorted drafts: no more than the results, in non-increasing score order, every embedded result and nothing else |
| Store.FirstMatch | convex/newsjacking.ts:640-644 | the lookup finds the first record with the (userId, url) key, or reports that none below the bound has it |
| Store.LookupMisses | convex/newsjacking.ts:640-644 | in a table of fresh ids, the lookup misses exactly when no record has the key |
| Store.Upsert | convex/newsjacking.ts:639-657 | the id returned names a record with the key, and no stored record is overwritten |
| Store.UpsertKeepsKeysUnique | convex/newsjacking.ts:639-657 | upserting never creates a second record with the same key |
| Store.UpsertInsertsIffNew | convex/newsjacking.ts:646-657 | the upsert inserts exactly one record under the next id when the key is new, and changes nothing otherwise |
| Store.UpsertFirstWriteWins | convex/newsjacking.ts:646-648 | a second upsert with the same key returns the first id and changes nothing |
| Store.UpsertAll | convex/newsjacking.ts:468-487 | a batch returns at most one id per item |
| Store.UpsertAllKeepsTable | convex/newsjacking.ts:470-486 | a batch keeps keys unique, even with duplicates inside the batch, and overwrites nothing |
| Store.UpsertAllSavesNewIds | convex/newsjacking.ts:478-481 | the ids returned are exactly the records added: fresh, and in increasing order |
| Store.UpsertAllStoresEvery | convex/newsjacking.ts:470-486 | after a batch, the key of every item is stored |
| Store.DeleteStep | convex/newsjacking.ts:1078-1081 | each examined id removes the record and adds one to the count exactly when the caller owns it |
| Store.DeletedFresh | convex/newsjacking.ts:1067-1087 | after deletion, exactly the caller's records are gone; the count plus the remaining records equals the old size; keys stay unique |
| Store.Deactivated | convex/newsjacking.ts:509-517 | deactivation keeps every id |
| Store.ReplacedSets | convex/newsjacking.ts:506-528 | after the replacement, the new set is the user's only active set, each user has at most one active set, and other users' sets are untouched |
| Store.WithoutGuidesOf | convex/newsjacking.ts:224-232 | no guide of the user remains |
| Store.ReplacedGuide | convex/newsjacking.ts:224-245 | after the replacement, the user has exactly the new guide, each user has at most one, and other users' guides are untouched |
| Store.Spread | convex/newsjacking.ts:574-578 | each query of a set becomes one term that carries the set's owner and embedding |
| Store.FlattenSetsMembers | convex/newsjacking.ts:573-579 | a term is in the flattened list exactly when it is a query of one of the sets |
| Store.FlattenSetsLength | convex/newsjacking.ts:573-579 | the flattened list has one term per query |
| Store.ActiveSets | convex/newsjacking.ts:566-569 | the collected sets are active, and every active set is among them |
| Store.Database.constructor | convex/schema.ts:16-78 | the tables start empty and valid |
| Store.Database.FindOpportunity | convex/newsjacking.ts:640-644 | the scan returns the lookup's answer, and misses exactly when no record has the key |
| Store.Database.InsertOpportunity | convex/newsjacking.ts:656 | the record is stored under a fresh id |
| Store.Database.SaveOpportunity | convex/newsjacking.ts:628-658 | the new table and the id are those of Upsert; the invariant is kept |
| Store.Database.SaveOpportunities | convex/newsjacking.ts:450-488 | the loop's table and saved ids are those of UpsertAll; the invariant is kept |
| Store.Database.DismissOpportunity | convex/newsjacking.ts:1044-1064 | a missing or foreign record gives "Opportunity not found" and no change; otherwise only isDismissed and updatedAt change |
| Store.Database.UpdateOpportunityWithBrief | convex/newsjacking.ts:866-883 | the brief and updatedAt are set on the record; a missing record fails with no change |
| Store.Database.DeleteMyOpportunities | convex/newsjacking.ts:1067-1087 | exactly the caller's records are removed, and their number is returned |
| Store.Database.SaveSearchQueries | convex/newsjacking.ts:490-530 | every set of the user is deactivated at `now`, then the new set is inserted as their only active one |
| Store.Database.UploadBrandGuide | convex/newsjacking.ts:211-250 | the user's guides are deleted, then the new unprocessed guide is inserted as their only one |
| Store.Database.GetActiveSearchQueries | convex/newsjacking.ts:563-582 | the result is the flattened list of the active sets in id order; a term is in it exactly when it is a query of an active set |
| BrandGuideContent.ContentToDecode | convex/newsjacking.ts:333-340 | non-data-URL content passes unchanged; a data URL yields a non-empty, comma-free payload, or "Invalid data URL format" |
| BrandGuideContent.DataUrlParts | convex/newsjacking.ts:334-339 | a join of comma-free pieces that starts "data:" yields its second piece |
| BrandGuideContent.DataUrlPayload | convex/newsjacking.ts:334-339 | "data:h,p" yields p |
| BrandGuideContent.DataUrlPayloadFollowed | convex/newsjacking.ts:335 | whatever follows a second comma is ignored |
| BrandGuideContent.DataUrlWithoutPayload | convex/newsjacking.ts:336-338 | "data:h" and "data:h," are rejected |
| BrandGuideContent.EncodeNoComma | convex/newsjacking.ts:335 | base64 text never contains a comma |
| BrandGuideContent.DataUrlOfEncoded | convex/newsjacking.ts:333-340 | a data URL of a base64 encoding yields that encoding |
| BrandGuideContent.GetBrandGuideContent | convex/newsjacking.ts:310-373 | covers a missing guide, a malformed data URL, an incomplete http upload, a storage failure and a storage success, each with the action's message; stored content goes through the decoder as written, giving 3·⌈n/4⌉ characters, the uploaded bytes when their count is a multiple of 3, and never the bytes of a padded encoding |
| Dashboard.Elapsed | src/components/NewsjackingDashboard.tsx:173-177 | the whole hours and whole days elapsed, rounded down, each bracketing the elapsed milliseconds |
| Dashboard.FormatTimeSinceCases | src/components/NewsjackingDashboard.tsx:173-186 | "N day(s) ago" with N whole days, plural from 2 days; "N hour(s) ago" with N in 1..23; "Just now" exactly under an hour, future times included |
| Dashboard.DivisionBracket | src/components/NewsjackingDashboard.tsx:176 | `Math.floor` of a division by a positive constant is the quotient that brackets the dividend |
| Dashboard.Remaining | src/components/NewsjackingDashboard.tsx:190-191 | the time left is never negative, is 0 exactly once the next update is due, and is at most 6 h once the last update is past |
| Dashboard.CountdownBrackets | src/components/NewsjackingDashboard.tsx:193-194 | minutes lie in 0..59; hours and minutes are the unique reading of the time left to the minute; hours ≤ 6 |
| Dashboard.FormatTimeUntilNextForm | src/components/NewsjackingDashboard.tsx:196 | "Hh Mm" exactly when an hour or more is left, "Mm" otherwise |
| Dashboard.FilteredShape | src/components/NewsjackingDashboard.tsx:160-171 | the list is an ordered subsequence; with "trending only" it is all trending; without it, the list is whole or empty |
| Dashboard.AllTrending | src/components/NewsjackingDashboard.tsx:160-171 | with "all" and "trending only", the list holds exactly the trending opportunities |
| Dashboard.WithoutBriefsSelects | src/components/NewsjackingDashboard.tsx:137-142 | the selection is exactly the opportunities without a brief, in order; it is empty exactly when all have one |
| OpportunityCard.Truncate | src/components/OpportunityCard.tsx:25 | the time value rounds toward zero |
| OpportunityCard.TimeValue | src/components/OpportunityCard.tsx:25-31 | a date is valid exactly for a number within ±8.64e15 |
| OpportunityCard.FormatDateUnknown | src/components/OpportunityCard.tsx:20-31 | 0, NaN or an out-of-range timestamp gives "Unknown date" |
| OpportunityCard.FormatDateBuckets | src/components/OpportunityCard.tsx:33-38 | "Just now" under an hour, future dates included; "Nh ago" with N in 1..23; "Nd ago" with N in 1..6; the locale date after a week |
| OpportunityCard.ScoreColorMonotone | src/components/OpportunityCard.tsx:41-45 | green from 0.8, yellow from 0.6, red below; the colour never falls as the score rises |
| OpportunityCard.ChipsAccount | src/components/OpportunityCard.tsx:145-160 | exactly min(3, length) chips, the first keywords in order; "+N" exactly when there are more than 3, with N = length − 3, the number hidden; no row without keywords |
| KeywordManager.Toggle | src/components/KeywordManager.tsx:17-22 | same length; only entry `index` has isActive negated |
| KeywordManager.ToggleInvolution | src/components/KeywordManager.tsx:17-22 | toggling twice restores the list; an index outside the list changes nothing |
| KeywordManager.ToggleCount | src/components/KeywordManager.tsx:17-22 | a toggle moves the active count by exactly one |
| KeywordManager.SetPreference | src/components/KeywordManager.tsx:24-29 | same length; only entry `index`'s userPreference becomes the new value |
| KeywordManager.SetPreferenceLastWins | src/components/KeywordManager.tsx:24-29 | of two settings, the last wins; the active count is unchanged |
| KeywordManager.CategoryColorsDistinct | src/components/KeywordManager.tsx:31-39 | the four categories get four distinct non-gray classes; any other string gets gray |
| KeywordManager.ActiveCountIndices | src/components/KeywordManager.tsx:41 | the active count is the number of active positions, at most the length |
| KeywordManager.SameActivity | src/components/KeywordManager.tsx:41 | lists that agree on which entries are active have the same count |

## Left out

- `Math.sqrt`, the OpenAI embedding call, `new Date(...)` parsing, `Date.now()` and the storage lookup-and-fetch are parameters (`sqrt`, `embed`, `parse`, `now`, `storage`). JavaScript numbers are `real` without rounding, so no claim is made about floating-point behaviour.
- Scoring.SumSquaresZero: states only that a zero vector has sum 0, not the converse. The converse needs "x·x = 0 implies x = 0" over the reals.
- Scoring.CosineSimilarity: the magnitude-0 guard is proved only for the zero vector, and only given `sqrt(0) == 0`. The value of the quotient is not characterised, because `sqrt` is a parameter.
- `toLowerCase` is modelled on ASCII letters only. Strings are sequences of Unicode scalar values with no normalisation.
- Scoring.Summary, Text.Take: lengths and `substring` count Unicode scalar values, while JavaScript counts UTF-16 code units. Content with characters outside the Basic Multilingual Plane, such as emoji, is cut at a different place than in the source.
- `searchTavilyMCP`'s fetch, and the OpenAI and Gemini calls (embedding, briefs, term extraction), are external services. Only the normalisation around them is modelled.
- searchForOpportunities, triggerManualSearch and generateAIBriefs are action glue across those services and are not part of this model.
- Convex authentication and the development-user fallback (`getOrCreateDevUser`) are platform plumbing. The caller's user id is a parameter.
- The generated `fileId` uses `Math.random` and is a parameter of UploadBrandGuide. The emotion pick is random and is not part of this model.
- Convex transactions and concurrent mutations are not modelled. Each method runs alone on the `Database` object.
- Store.FirstMatch: returns the lowest id, while the `by_user_created` index orders by `createdAt`. The `Valid()` invariant keeps at most one record per key, so the two coincide.
- Store.Database.UpdateOpportunityWithBrief: a patch of a missing record fails with the platform's own error. The contract states only that the result is an error; the message is not modelled.
- The per-record deletes and patches of deleteMyOpportunities, saveSearchQueries and uploadBrandGuide run in id order over the table. The source loops over an index query; the resulting table is the same.
- `toLocaleDateString` is locale-dependent and is the parameter `localeDate` of OpportunityCard.FormatDate.
- The React state, alerts and rendering of the three components are UI. Only the pure helpers are modelled.
- The comment at convex/newsjacking.ts:1301 says an unparseable date counts as 24 hours old in the final score. The code sets 24 only in a catch that `new Date(...).getTime()` never reaches, so the age stays 0. The model follows the code (Scoring.InvalidDateScoresAsNew).
- The React state setters are not modelled. The keyword manager's updates return the new list instead of calling `onKeywordsChange`.

## Findings

| source | as written | input that shows it | evidently intended | confidence | as-written member | corrected member |
|---|---|---|---|---|---|---|
| convex/newsjacking.ts:7-21 | `chars` has no '=', so `indexOf('=')` is -1 and the `!== 64` guards never fire; a padded group decodes to three bytes, with 0xFF where the padding was | "AA==", the RFC 4648 encoding of the single byte 0, decodes to three bytes 0xFF 0xFF 0xFF instead of to 0x00 | '=' maps to 64, so a padded group yields one or two bytes and decode(encode(b)) == b for every byte string | not executed | Base64.PaddingDecodedAsWritten | Base64.DecodePaddedEncode |

BrandGuideContent.GetBrandGuideContent follows the code, so it uses the decoder as written and inherits this defect. Every stored upload whose size is not a multiple of 3 comes back corrupted (Base64.PaddedEncodingsCorrupted). The corrected decoder, Base64.Base64DecodePadded, is modelled beside it, but no action calls it.
