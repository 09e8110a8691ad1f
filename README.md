# Gift ledger: settlement, listing and list updates

This project models the core of a gift-tracking ledger shared by two payers, Paolo and Mary, who buy gifts for six recipients. It also proves properties of that model. The core is the React component in `App.tsx`:

- **Settlement** (`financialSummary`). This folds the filtered gifts into six figures:
  - each payer's paid total and the total spent;
  - what one payer owes the other, and the net settlement;
  - per-recipient counts and values.
  Returned and excluded gifts are skipped. A repaid gift moves its repaid amount to the other payer's paid total. An unrepaid split gift puts half its cost on what the other payer owes.
- **Listing** (`filteredGifts`). The list shows only gifts that are not deleted and that match the recipient, occasion and year filters. It is then sorted by one of six criteria, with the newest first as the fallback.
- **Years** (`availableYears`). The year filter offers the current year and every non-zero year of a non-deleted gift. Each year appears once, newest first.
- **Gift list updates**. Saving, toggling "excluded" and deleting a gift each change the local list first. A failed cloud write puts back the snapshot taken before the change, except for a toggle, which nothing rolls back.
- **Sheet script** (`doPost`). The spreadsheet script that receives a posted gift first repairs the header row. It then overwrites the first data row whose trimmed id matches the gift's trimmed id, or appends a new row. A delete is the same write with `isDeleted` set to true.

Modules:

- `Text` — JavaScript `trim` with the ECMAScript whitespace set, `toLowerCase` on Latin-1 letters, and a code-point comparison that stands in for `localeCompare`.
- `Gifts` — the records of `types.ts`.
- `Settlement` — an imperative loop proved against a left fold (`LedgerOf`, `TallyOf`, `SummaryOf`). The callback's booking of one counted gift is the method `BookCounted`, and the five running totals travel together as one `Ledger` record. The fold is in turn proved equal to independent sums over the counted gifts.
- `Listing` — filtering, the six comparators, and the sort as a stable insertion sort. The proofs show:
  - the sort permutes the shown gifts;
  - the result is sorted and the sort is stable;
  - a sorted permutation without ties is unique, so for distinct prices price-desc is exactly the reverse of price-asc.
- `Years` — the set-filling loop and the descending sort of the set.
- `GiftList` — a class `GiftStore` whose `gifts` field the three handlers reassign. The outcome of the cloud write and the user's answer to the confirmation dialog are parameters.
- `SheetScript` — a class `Sheet` over the rows of the data range. The scan with `break` is a method, proved against the first-match function.

Returned and excluded gifts do not reach `recipientStats`: the early `return` of the `forEach` callback (`App.tsx:274`) skips such a gift before the recipient map is updated (`App.tsx:295-296`). `Settlement.AbsentRecipient` and `Settlement.RecipientStatsAddUp` state this.

## Model

| member | source | states |
|---|---|---|
| Settlement.ComputeFinancialSummary | App.tsx:269-306 | the loop's result is the fold of `Book` over the filtered gifts, with the recipient map read back per recipient; the paid totals add up to totalSpent; netSettlement is maryOwesPaolo minus paoloOwesMary |
| Settlement.BookCounted | App.tsx:275-294 | the callback's booking of a gift neither returned nor excluded yields exactly the fold step `Book` |
| Settlement.BookSteps | App.tsx:274-294 | a skipped gift changes nothing; a counted one adds its cost to totalSpent and the same amount to the two paid totals; only an unrepaid split gift moves a debt, and only the one owed to its payer |
| Settlement.TallyOfCounts | App.tsx:295-296 | the recipient map holds, per recipient, the number and summed cost of its counted gifts; a recipient missing from the map has none |
| Settlement.StatsOf | App.tsx:299-303 | six entries, one per recipient in enumeration order, each named by its recipient |
| Settlement.SummaryOf | App.tsx:305 | the paid totals add up to totalSpent, netSettlement is maryOwesPaolo minus paoloOwesMary, and there are six recipient entries |
| Settlement.CountedGifts | App.tsx:274 | keeps exactly the gifts neither returned nor excluded, each as often as it occurs |
| Settlement.LedgerMatchesReference | App.tsx:273-294 | the five totals equal independent sums: total cost, each payer's share after repayments, and each payer's open split halves over the counted gifts |
| Settlement.BookIsShares | App.tsx:274-294 | one booking adds the cost of a counted gift, each payer's share after repayment, and each payer's open split half |
| Settlement.SpentIsCountedCost | App.tsx:274-275 | totalSpent equals the summed cost of the gifts neither returned nor excluded |
| Settlement.PaidIsShareSum | App.tsx:276-293 | each payer's paid total equals the sum of that payer's shares |
| Settlement.OwesIsOwedSum | App.tsx:281-292 | what each payer is owed equals the sum of that payer's open split halves |
| Settlement.PaidTotalsCoverSpending | App.tsx:276-293 | for every gift list, totalPaoloPaid + totalMaryPaid == totalSpent |
| Settlement.BookLast | App.tsx:273-297 | adding a gift at the end books it on top of the earlier totals, and adds one and its cost to its own recipient's stats only |
| Settlement.UncountedGiftChangesNothing | App.tsx:274 | a returned or excluded gift changes no figure of the summary |
| Settlement.UnrepaidBooking | App.tsx:281-292 | an unrepaid gift adds its cost to its payer's paid total; when split, half the cost goes to what the other payer owes |
| Settlement.RepaidBooking | App.tsx:277-288 | a repaid gift moves the repaid amount (half when split, else all) to the other payer's paid total; the payer keeps the rest; no debt moves |
| Settlement.OnlyCountedGiftsMatter | App.tsx:274 | the summary of a list equals the summary of its counted gifts |
| Settlement.NoOpenSplitMeansSettled | App.tsx:283-305 | without an unrepaid split gift, nobody owes anything and the net settlement is 0 |
| Settlement.NetSettlementIsOpenHalves | App.tsx:305 | the net settlement is Paolo's open split halves minus Mary's |
| Settlement.MirroredOwedSum | App.tsx:283-291 | swapping every payer swaps what each payer is owed |
| Settlement.OwedSumPermutation | App.tsx:283-292 | what each payer is owed does not depend on the order of the gifts |
| Settlement.MirroredGiftsCancel | App.tsx:305 | a list together with its payer-swapped copy, in any order, settles to 0 |
| Settlement.RecipientCountsCover | App.tsx:295-296 | the six recipients' counts add up to the number of counted gifts, and their values to the counted cost |
| Settlement.StatsTotals | App.tsx:299-303 | the count and value totals over the six stats are the sums of the six entries |
| Settlement.RecipientStatsAddUp | App.tsx:299-303 | one entry per recipient, in enumeration order, named by the recipient's value; a recipient without counted gifts gets 0 and 0; counts total the counted gifts and values total totalSpent |
| Settlement.AbsentRecipient | App.tsx:274-301 | a recipient with no counted gift has count 0 and value 0 |
| Settlement.ScenarioOneSplitOfTwo | App.tsx:281-283 | two unrepaid Paolo-paid gifts of 100, one of them split: Paolo paid 200, Mary owes 50, net 50 |
| Settlement.ScenarioRepaidSplit | App.tsx:285-288 | a repaid split gift of 60 paid by Mary: each paid 30, nobody owes |
| Settlement.ScenarioReturned | App.tsx:274 | a returned gift of 40 leaves the summary of the empty list |
| Listing.Shown | App.tsx:246-251 | a deleted gift is never shown; with all three filters at 'TUTTI', exactly the gifts not deleted are shown |
| Listing.KeepMultiset | App.tsx:244-252 | the filter keeps exactly the gifts not deleted and matching all three filters, each as often as it occurs |
| Listing.KeepAppend | App.tsx:244-252 | filtering a concatenation filters each part in turn, so the filter keeps the list's order |
| Listing.KeepAllShown | App.tsx:244-252 | when every gift is shown the filter returns the list unchanged |
| Listing.ParseSortKey | App.tsx:255-263 | each of the six names selects its own criterion, and exactly the other strings fall through to the default branch, keeping their text |
| Listing.CompareMeaning | App.tsx:255-263 | per criterion: the date and price comparators are negative exactly when the first gift is newer, older, dearer or cheaper, and 0 exactly on equal keys; the title and recipient comparators are 0 exactly on equal lowercased text; the default behaves as date-desc |
| Listing.CompareFlip | App.tsx:255-263 | every comparator is antisymmetric |
| Listing.InOrderTotal | App.tsx:255-263 | any two gifts are ordered one way or the other |
| Listing.InOrderTransitive | App.tsx:255-263 | the order of every comparator is transitive |
| Listing.Insert | App.tsx:254 | inserting adds exactly the one gift |
| Listing.SortGifts | App.tsx:254 | the sort permutes its input |
| Listing.InsertSorted | App.tsx:254 | inserting into a sorted list keeps it sorted |
| Listing.SortGiftsSorted | App.tsx:254-264 | the sort's result is ordered by the comparator |
| Listing.FilteredGifts | App.tsx:243-267 | the result is a permutation of the shown gifts, sorted by the criterion |
| Listing.FilteredGiftsCharacterised | App.tsx:243-267 | the result holds exactly the shown gifts with multiplicity, none deleted, each matching every set filter, sorted by the criterion |
| Listing.NarrowerFilterKeepsFewer | App.tsx:247-250 | narrowing a filter from 'TUTTI' to a value never adds gifts, whatever the sort keys |
| Listing.SortedMeaning | App.tsx:256-262 | for each criterion, sorted means: createdAt (missing as 0) descending or ascending, cost descending or ascending, lowercased title or recipient ascending |
| Listing.UnknownKeySortsNewestFirst | App.tsx:262 | an unknown criterion sorts exactly as date-desc |
| Listing.InsertBeforeTies | App.tsx:254 | inserting places the new gift before the gifts that compare equal to it |
| Listing.SortIsStable | App.tsx:254 | gifts comparing equal keep their relative order |
| Listing.FirstBeforeAll | App.tsx:254 | the head of a sorted list is ordered before every element of it |
| Listing.SortedUnique | App.tsx:254 | two sorted permutations of a list without ties are equal |
| Listing.ReverseAscIsDesc | App.tsx:258-259 | reversing a price-ascending list gives a price-descending one |
| Listing.DistinctPricesTieFree | App.tsx:258 | with pairwise distinct prices no two different gifts tie on price |
| Listing.PriceOrdersAreReversed | App.tsx:258-259 | with pairwise distinct prices, the price-desc order is the reverse of the price-asc order |
| Years.OffersYear | App.tsx:239 | a deleted gift and a year of 0 are never offered |
| Years.OfferedYears | App.tsx:239 | never holds 0; holds the year of every offering gift among the first n; each year in it is the year of such a gift that is not deleted |
| Years.MaxOf | App.tsx:240 | a largest element of a non-empty set of years |
| Years.CollectYears | App.tsx:237-239 | the set holds the current year and exactly the non-zero years of gifts not deleted |
| Years.SortDescending | App.tsx:240 | the same years as the set, strictly descending |
| Years.AvailableYears | App.tsx:236-241 | contains the current year and every offered year, nothing else, each once, newest first |
| GiftList.FirstWhere | App.tsx:201 | the index of the first gift satisfying the test, or none when no gift does |
| GiftList.GiftToSave | App.tsx:176-184 | the draft's fields are carried over; an edit keeps the draft's id and the first matching gift's createdAt and isDeleted, or none and false when no gift matches; a new gift gets the fresh id, the timestamp and isDeleted false |
| GiftList.ReplaceById | App.tsx:187 | same length; every gift with the id becomes the given gift and every other gift stays |
| GiftList.AfterSave | App.tsx:187 | a new gift is prepended to the list; an edit keeps the length and replaces exactly the gifts with the edited id |
| GiftList.ToggledGift | App.tsx:201-203 | none exactly when no gift has the id; otherwise the first gift with the id, with isExcluded flipped |
| GiftList.Toggled | App.tsx:204 | same length; gifts without the id stay; each gift with the id becomes the toggled copy |
| GiftList.WithoutIdMultiset | App.tsx:221 | drops exactly the gifts whose trimmed id is the trimmed id, keeping the others with multiplicity |
| GiftList.WithoutIdSingle | App.tsx:221 | one gift is dropped exactly when its trimmed id is the trimmed id, and kept otherwise |
| GiftList.WithoutIdAppend | App.tsx:221 | the delete filter distributes over concatenation, so the kept gifts stay in their stored order |
| GiftList.WithoutIdNoMatch | App.tsx:221 | a list with no gift of that trimmed id passes through unchanged, in the same order |
| GiftList.GiftStore.SaveGift | App.tsx:174-198 | the gift sent is the merged edit, or a new gift with the fresh id, timestamp and isDeleted false; the list becomes the optimistic update, or the snapshot when the write fails |
| GiftList.GiftStore.ToggleExcluded | App.tsx:200-206 | nothing happens when no gift has the id; otherwise the toggled copy is sent and replaces the gifts with that id, with no roll-back |
| GiftList.GiftStore.DeleteGift | App.tsx:208-234 | a gift is sent only when one has the trimmed id and the user confirms; the one sent is the first match marked deleted; the list loses that id unless the write fails |
| GiftList.ToggleFlipsOnlyThatGift | App.tsx:202-204 | with unique ids, the toggle flips isExcluded of the gift with the id and changes nothing else |
| GiftList.ToggleCopiesFirstMatch | App.tsx:201-204 | with duplicate ids, every gift with the id becomes the toggled copy of the first match |
| GiftList.ToggleTwiceRestores | App.tsx:200-206 | with unique ids, toggling twice restores the list |
| GiftList.SaveEditReplacesInPlace | App.tsx:176-187 | an edit replaces the gift in place, keeping its createdAt and isDeleted; no other gift changes and ids stay unique |
| GiftList.SaveUnknownIdChangesNothing | App.tsx:176-187 | an edit whose id is not listed leaves the local list unchanged |
| GiftList.SaveNewPrepends | App.tsx:177-187 | a new gift is prepended with the fresh id and timestamp, not deleted, excluded as the form says; a fresh id keeps ids unique |
| GiftList.DeleteRemovesOnlyThatId | App.tsx:221 | no remaining gift has the trimmed id; every other gift keeps its multiplicity |
| SheetScript.RowOf | App.tsx:49-76 | a row holds one cell per header column |
| SheetScript.RowOfFields | App.tsx:74-77 | column i holds the gift's field named by the i-th header, with the empty string for a missing createdAt |
| SheetScript.Overwrite | App.tsx:55-79 | the written row starts with the values, and cells right of them stay |
| SheetScript.NatText | App.tsx:64 | a natural number's text is a non-empty string of decimal digits |
| SheetScript.NatTextValue | App.tsx:64 | a natural number's text is its decimal numeral: it has no leading zero and reads back, digit by digit, as the number |
| SheetScript.NatTextInjective | App.tsx:64 | two different numbers never print the same text, so a numeric id cell matches only its own numeral |
| SheetScript.IdTextMeaning | App.tsx:64 | a string is its own text and a flag has one; a number has one exactly when it is integral and below 10^21 in size, it starts with a minus sign exactly when the number is negative, and the text is the number's decimal numeral, after the sign when negative |
| SheetScript.RowHasIdMeaning | App.tsx:64 | a row matches exactly when its id cell's trimmed text is the id; an empty row or an id cell without a text never matches |
| SheetScript.FirstRowFrom | App.tsx:61-66 | the first data row from a position on whose trimmed id cell equals the id, or none |
| SheetScript.FindRow | App.tsx:59-67 | -1 exactly when no data row has the id; otherwise the 1-based sheet row of the first match |
| SheetScript.HeaderFixed | App.tsx:54-58 | afterwards the first row is at least 19 cells long and starts with 'id'; a header that already was is kept; otherwise its first 19 cells become the header names and the cells right of them stay; data rows are untouched |
| SheetScript.Posted | App.tsx:70-72 | a delete sets isDeleted; every other field, and isDeleted for any other action, is as posted |
| SheetScript.Upsert | App.tsx:79-83 | when no data row has the id the values are appended; otherwise the first matching row starts with the values, keeps its cells to their right, and no other row changes |
| SheetScript.Sheet.FixHeader | App.tsx:54-57 | the sheet's rows become the header-repaired rows |
| SheetScript.Sheet.WriteRow | App.tsx:78-82 | overwrites the found row or appends one |
| SheetScript.Sheet.DoPost | App.tsx:38-85 | an unknown action only repairs the header and reports an error; save and delete repair the header, then upsert the gift's row (isDeleted forced true for delete) and report ok |
| SheetScript.RowOfHasId | App.tsx:62-76 | the gift's own row carries its trimmed id in column A |
| SheetScript.UpsertThenFind | App.tsx:59-82 | afterwards the id is found at the row just written; no other row changes and at most one row is added |
| SheetScript.UpsertIdempotent | App.tsx:59-82 | upserting the same values twice is the same as once |
| SheetScript.SaveGiftIdempotent | App.tsx:59-82 | saving the same gift twice leaves the sheet as saving it once, and the gift is then the first match for its id |
| SheetScript.DeleteWritesDeletedFlag | App.tsx:69-71 | a delete writes true in the isDeleted column |
| Text.Trim | App.tsx:221 | the result neither starts nor ends with white space |
| Text.TrimCutsSpace | App.tsx:221 | the input is the result with white space only before and after it |
| Text.TrimOfPadded | App.tsx:209-221 | whitespace padding around a string without leading or trailing whitespace is cut off |
| Text.TrimIdempotent | App.tsx:209-221 | trimming twice is trimming once |
| Text.Lower | App.tsx:260-261 | lowercasing keeps the length, leaves no ASCII capital, moves each ASCII or Latin-1 capital 32 code points up to its small letter, and keeps every other character |
| Text.LowerIdempotent | App.tsx:260-261 | lowercasing twice is lowercasing once |
| Text.Compare | App.tsx:260-261 | the comparison yields -1, 0 or 1 |
| Text.CompareFlip | App.tsx:260-261 | the comparison is antisymmetric |
| Text.CompareZeroIffEqual | App.tsx:260-261 | the comparison is 0 exactly for equal strings |
| Text.CompareTransitive | App.tsx:260-261 | the comparison is transitive |

## Left out

- The network: fetch, the cloud write and its `no-cors` transport, and the GET handler that reads rows back into gifts and normalises cells. The outcome of a write is a boolean parameter.
- The metadata lookup through the Gemini API and every image or preview feature.
- Browser facilities: `localStorage` preferences, `alert`, and the loading and form-closing flags. `window.confirm` is a boolean parameter.
- Randomness and clocks. The id from `Math.random` and the timestamp from `Date.now` are parameters, and so is the current year from `new Date()`.
- Rendering, view modes and every component under `components/`.
- Floating point. Costs are exact reals, so IEEE rounding of sums and halves is not modelled.
- NaN and other non-numeric costs or years.
- Text.Compare: models `localeCompare` as code-point order. Locale collation rules (accents, case tiers) are left out because they depend on the runtime's locale data.
- Text.Lower: covers ASCII and Latin-1 letters only. The full Unicode case mapping of `toLowerCase` is not modelled.
- Listing.SortGifts: a stable insertion sort stands in for the engine's `Array.prototype.sort`. The standard requires that sort to be stable. For a consistent comparator `Listing.SortedUnique` shows that any stable sorted permutation is this one when there are no ties.
- SheetScript.IdText: an id cell holding a non-integral number or a date is not given a text. Such a row never matches.
- SheetScript.Sheet.DoPost:
  - The sheet's data range is taken as given, and rows shorter than 19 cells are not padded.
  - A posted gift missing fields other than createdAt is not modelled: every other field is present in the model.
  - The response body and JSON parsing are left out, including the invalid-JSON error.
- GiftList.GiftStore.SaveGift: when an edited id is not in the list, the source merges `undefined`, so isDeleted is undefined. The model writes false, which every reader treats the same way.
- Concurrency between overlapping asynchronous handlers. Each handler is modelled as one atomic step.
