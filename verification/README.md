# Omniportal admin core in Dafny

Omniportal is a property-management portal for two subdivisions, Living
Water Subdivision and Havahills Estate. Its admin side keeps an inventory of
lots, balances and payment records in hosted database tables. This project
models the logic the admin pages put around those tables, and proves what
that logic guarantees:

- **Inventory.** The two lot record variants and `parseNumericValue`. The
  `transformData` normalisation of fetched lots, and the search and status
  filters. Selling a lot (lot write, buyer client, Balance upsert) and
  reopening it (client, document and Balance clean-up, then the lot write),
  plus the page's own copy of the list.
- **Balances.** The normalisation of fetched Balance rows and the save of an
  edited row. The block-lot and name orderings, `isPaymentCompleted` with the
  row actions it gates, and the search and project filters.
- **Ledger.** The payment form of a Balance row: opening it, typing an amount
  or a penalty, and posting a payment. Posting updates the balance, then
  inserts a Payment Record row.
- **Payments.** The Payment Records page: `formatMonthYear` and the upload
  form's client pickers (name, project, block-lot). Also the upload and the
  row it inserts, the Pending → Approved / Rejected status machine with the
  buttons each row offers, receipt uploads, the five-way record filter, and
  the edit form's validation and save.
- **Dashboard and admin shell.** The lot counters and the active-account
  counter. Where `checkAdminAuth` sends a visitor, the side menu a
  restricted user sees, and the notification badges.

## How the model is built

- **Rows and values.** Rows are maps from a `Column` enumeration to a
  JavaScript-like `Value`: `Null`, `NaN`, `Num`, `Text` or `Flag`. The pages
  tell the two lot variants apart by key presence (`'Owner' in property`) and
  merge with object spread; both are exact on maps.
- **The database.** The `Store` holds one sequence of rows per table. `.eq`
  chains are lists of column/value pairs. A match uses SQL equality, so a
  null never matches. `.single()` finds a row only when exactly one row
  matches.
- **JavaScript built-ins** are written out in module `Js`: truthiness, `||`,
  `===`, `toLowerCase`, `trim`, `includes`, `parseInt`, `parseFloat` and
  number-to-text.
- **Operations are pure functions** from the store and the inputs to the new
  store. A network call's success is a boolean parameter, with the exceptions listed under "Left out". Lemmas relate
  operations to one another: a sell followed by a reopen, the page's list
  against the table, the preview against the posted balance.

Facts the proofs bring out about the code as written:

- A Living Water lot shown by the page has no `Term` and no
  `Optional: Advance Payment` field, because `transformData` does not copy
  them. Selling it therefore writes an empty Term and a zero advance payment
  (`Inventory.SellAfterTransformBlanksTerm`).
- A sale never writes `TCP` or `Terms` to the Balance row. After a reopen
  blanks the row, a Balance row with no contract price and no term reads as
  "Payment Completed" (`Balances.BlankedRowReadsCompleted`).
- The Balance page's save writes ten columns and not the due date that the
  payment form sets, so posting a payment never changes a due date
  (`Ledger.SubmitUpdatesBalance`).
- A reopen whose client, document or Balance clean-up fails only logs the
  error and still marks the lot Available, so the buyer's client row can
  outlive the sale (`Inventory.ReopenKeepsClientOnFailedDelete`).
- The payment form swallows a failed balance save: the payment record is
  still inserted (`Ledger.SubmitStepsAreIndependent`).
- The sale's Balance lookup uses `.single()`. When two rows already match
  the lot, the sale inserts a third rather than updating either
  (`Inventory.UpsertRecordsSale`).

## Model

| member | source | states |
|---|---|---|
| Inventory.ParseNumericValue | src/pages/InventoryPage.tsx:112-126 | The result is always a number or NaN; it is NaN only for a NaN input; a number comes back unchanged; null, undefined and non-string values read as 0 |
| Inventory.ParseNumericValueIgnoresSeparators | src/pages/InventoryPage.tsx:118-123 | Text of digits with thousands separators reads as the number its digits spell |
| Inventory.ParseNumericValueOfIntText | src/pages/InventoryPage.tsx:112-126 | The text of any whole number, negative ones included, reads back as that number |
| Inventory.TransformLivingWaterKeys | src/pages/InventoryPage.tsx:716-741 | A normalised Living Water lot has exactly the listed text and numeric fields plus id and created_at |
| Inventory.TransformLivingWaterText | src/pages/InventoryPage.tsx:716-741 | Each Living Water text field keeps a truthy value and otherwise becomes the empty string |
| Inventory.TransformLivingWaterNumeric | src/pages/InventoryPage.tsx:722-738 | Each Living Water numeric field is the field read by `parseNumericValue` |
| Inventory.TransformLivingWaterShape | src/pages/InventoryPage.tsx:716-742 | A normalised Living Water lot keeps its id and is still recognised as Living Water |
| Inventory.TransformLivingWaterDrops | src/pages/InventoryPage.tsx:716-742 | Term and the advance payment are not among the fields a normalised Living Water lot has |
| Inventory.TransformHavahillsKeys | src/pages/InventoryPage.tsx:744-776 | A normalised Havahills lot has exactly the listed fields plus id, Block, Lot and the first monthly amortization |
| Inventory.TransformHavahillsText | src/pages/InventoryPage.tsx:744-776 | Each Havahills text field keeps a truthy value and otherwise becomes the empty string |
| Inventory.TransformHavahillsNumeric | src/pages/InventoryPage.tsx:744-776 | Each Havahills numeric field is the field read by `parseNumericValue` |
| Inventory.TransformHavahillsShape | src/pages/InventoryPage.tsx:744-776 | A normalised Havahills lot keeps its id and never reads as Living Water |
| Inventory.TransformHavahillsCopies | src/pages/InventoryPage.tsx:745-747 | Id, Block and Lot are copied unchanged, with no default |
| Inventory.TransformHavahillsFirstMA | src/pages/InventoryPage.tsx:769 | `1ST MA` is read from `1ST MA`, or from `1st MA` when the upper-case field is falsy |
| Inventory.Transform | src/pages/InventoryPage.tsx:713-779 | The normalised list has one row per fetched row |
| Inventory.TransformFollowsProject | src/pages/InventoryPage.tsx:713-779 | Every normalised row reads as the variant of the project it was fetched for |
| Inventory.FilteredProperties | src/pages/InventoryPage.tsx:218-250 | The list keeps exactly the lots matching the search (one of five variant fields contains the lower-cased term) and the case-insensitive status choice, in order |
| Inventory.FilteredPropertiesKeepsCopies | src/pages/InventoryPage.tsx:218-250 | Each matching lot is kept as often as it occurs in the list and no other lot is kept, so no duplicate is dropped |
| Inventory.NoFilterKeepsAll | src/pages/InventoryPage.tsx:218-250 | An empty search with status `all` keeps the list as it is |
| Inventory.PropertyActions | src/pages/InventoryPage.tsx:335-358 | Reopen is offered exactly for sold lots and Sell exactly for available ones, never both |
| Inventory.SellPatchKeys | src/pages/InventoryPage.tsx:849-916 | A sale writes exactly the variant's sale fields plus Block, Lot, the reservation date and the status |
| Inventory.SellPatchFixed | src/pages/InventoryPage.tsx:849-916 | A sale writes Sold, the lot's own Block and Lot, and a reservation date defaulting to today |
| Inventory.SellPatchText | src/pages/InventoryPage.tsx:849-916 | Every text field of the sale form is written with an empty-string default |
| Inventory.SellPatchNumeric | src/pages/InventoryPage.tsx:849-916 | Every numeric field of the sale form is written with a zero default |
| Inventory.SellKeepsBuyer | src/pages/InventoryPage.tsx:1028-1032 | The lot the page shows after a sale keeps its variant, its id and its buyer name |
| Inventory.SaleBalanceFields | src/pages/InventoryPage.tsx:982-992 | A Balance row carrying the sale's fields holds the buyer, the opening balance (net contract price or TCP), the first amortization and zero months paid |
| Inventory.AddClientIfAbsent | src/pages/InventoryPage.tsx:940-962 | Afterwards exactly one client has the name if none had it, and the count is unchanged otherwise; other tables are untouched |
| Inventory.UpsertRows | src/pages/InventoryPage.tsx:970-1024 | The Balance table keeps its length when `.single()` found the lot's row and grows by one otherwise |
| Inventory.UpsertBalance | src/pages/InventoryPage.tsx:970-1024 | Only the Balance table changes |
| Inventory.UpsertRecordsSale | src/pages/InventoryPage.tsx:970-1024 | After the upsert one row matches the lot's key if exactly one did before, otherwise one more does; some matching row holds the sale's fields |
| Inventory.UpsertUpdatesSingle | src/pages/InventoryPage.tsx:978-999 | When exactly one row matched, it is updated in place and still the only match |
| Inventory.UpsertAppendsNew | src/pages/InventoryPage.tsx:1000-1024 | Otherwise a new row matching the key and holding the sale's fields is appended |
| Inventory.NewBalanceMatchesKey | src/pages/InventoryPage.tsx:1002-1015 | The inserted Balance row matches the project, block and lot it was looked up by |
| Inventory.RecordBuyer | src/pages/InventoryPage.tsx:937-1025 | With no buyer name nothing is written; otherwise the client is added if absent and the Balance row upserted; other tables are untouched |
| Inventory.Sell | src/pages/InventoryPage.tsx:803-1039 | A failed lot write changes nothing; otherwise the lot row with the id gets the sale fields, and the client and Balance writes follow only for a buyer name |
| Inventory.SellMarksSold | src/pages/InventoryPage.tsx:922-935 | Every lot row carrying the sold lot's id reads Sold with the lot's Block; every other lot row is unchanged |
| Inventory.SellAddsClientOnlyIfAbsent | src/pages/InventoryPage.tsx:940-962 | A sale leaves exactly one client with the buyer's name if there was none, and adds none if there was one |
| Inventory.SellTwiceAddsNoDuplicateClient | src/pages/InventoryPage.tsx:940-962 | Selling the same lot again adds no second client |
| Inventory.SellRecordsBalance | src/pages/InventoryPage.tsx:964-1024 | After a sale the lot has a Balance row with the buyer, the opening balance, the first amortization and zero months paid; the number of matching rows follows the `.single()` rule |
| Inventory.SellAfterTransformBlanksTerm | src/pages/InventoryPage.tsx:849-873 | Selling a Living Water lot as the page shows it writes an empty Term and a zero advance payment |
| Inventory.ReopenPatchKeys | src/pages/InventoryPage.tsx:1091-1125 | A reopen writes exactly the status and the variant's buyer, people and date fields |
| Inventory.ReopenPatchStatus | src/pages/InventoryPage.tsx:1092-1094 | A reopen writes Available |
| Inventory.ReopenPatchKeepsId | src/pages/InventoryPage.tsx:1091-1125 | A reopen does not write the lot's id |
| Inventory.ReopenPatchBlank | src/pages/InventoryPage.tsx:1096-1125 | Every blanked field is written as the empty string |
| Inventory.ReopenClearsBuyer | src/pages/InventoryPage.tsx:1136-1140 | After the merge the lot is the same variant and has an empty buyer name |
| Inventory.Reopen | src/pages/InventoryPage.tsx:1041-1147 | Without a buyer name nothing changes; otherwise the buyer's clients and documents are deleted and Balance rows blanked, each only when its own write succeeds, and the lot is written only when its write succeeds; a failed clean-up write leaves its table as it was and the reopen carries on |
| Inventory.ReopenForgetsBuyer | src/pages/InventoryPage.tsx:1055-1089 | After a reopen no client, document or Balance row carries the buyer's name once that table's clean-up write succeeded, whether or not the lot write succeeded |
| Inventory.ReopenKeepsClientOnFailedDelete | src/pages/InventoryPage.tsx:1055-1063 | When the client delete fails and the lot write succeeds, the buyer's client rows are all still there while the lot reads Available |
| Inventory.BlankingForgetsName | src/pages/InventoryPage.tsx:1076-1085 | Blanking the Balance rows with a name leaves none carrying it |
| Inventory.ReopenMarksAvailable | src/pages/InventoryPage.tsx:1127-1133 | When the lot write succeeds, every lot row with the id reads Available and keeps its id; other lot rows are unchanged |
| Inventory.UpdateByIdSetsStatus | src/pages/InventoryPage.tsx:1128-1131 | An update by id that sets Status and not Id sets that status on the matching rows only |
| Inventory.SellThenReopen | src/pages/InventoryPage.tsx:803-1147 | Selling a lot and then reopening the row the page shows leaves no client, document or Balance row with the buyer's name wherever that clean-up write succeeded, and the lot reads Available when the lot write succeeded |
| Inventory.ReopenSameBuyer | src/pages/InventoryPage.tsx:1041-1133 | Reopening any row with the same buyer and id forgets the buyer in each table whose clean-up write succeeded, and marks the lot Available when the lot write succeeded |
| Inventory.MergeById | src/pages/InventoryPage.tsx:1028-1032 | The page's list keeps its length; rows whose id is `===` the lot's get the patch merged in, the rest are unchanged |
| Inventory.MergeByIdIsUpdate | src/pages/InventoryPage.tsx:1028-1032 | For an id that can match, merging into the list by `===` equals the table update by `.eq('id', id)` |
| Inventory.SellLocalMirrorsStore | src/pages/InventoryPage.tsx:1028-1032 | After a sale the page's list equals the lot table, failed write included |
| Inventory.ReopenLocalMirrorsStore | src/pages/InventoryPage.tsx:1136-1140 | After a reopen the page's list equals the lot table, failed writes and missing buyer included |
| Balances.ReadAmount | src/pages/BalancePage.tsx:66-68 | An amount is null exactly when the fetched value was falsy, and otherwise a number or NaN |
| Balances.ReadAmountIgnoresCommas | src/pages/BalancePage.tsx:66-68 | Text of digits with thousands separators reads as the number its digits spell |
| Balances.ReadAmountOfNumber | src/pages/BalancePage.tsx:66-68 | Every non-zero amount, fractions included, is read back unchanged |
| Balances.ReadAmountMatchesTextPath | src/pages/BalancePage.tsx:66-68 | For a whole number, parsing its comma-free text as the source does gives the amount the model keeps |
| Balances.ReadText | src/pages/BalancePage.tsx:69-71 | Text stays as it is, and a missing counter becomes the empty string |
| Balances.Normalize | src/pages/BalancePage.tsx:64-72 | The row gains the three amount and three counter columns and keeps every other column unchanged |
| Balances.NormalizeAmount | src/pages/BalancePage.tsx:66-68 | A normalised amount is the fetched value read as an amount, and is null exactly when that value was falsy |
| Balances.NormalizeCounter | src/pages/BalancePage.tsx:69-71 | A normalised counter is text, and is empty when the fetched one was missing |
| Balances.NormalizeCounterIdempotent | src/pages/BalancePage.tsx:69-71 | Normalising a row twice leaves its counters as after one pass |
| Balances.SavePatchColumns | src/pages/BalancePage.tsx:96-110 | The save writes exactly the ten listed columns, copied from the edited row, and never the due date |
| Balances.Save | src/pages/BalancePage.tsx:93-112 | A failed write changes nothing; otherwise the rows with the edited id get the ten columns; other tables are untouched |
| Balances.SaveKeepsDueDates | src/pages/BalancePage.tsx:96-110 | A save keeps the row count and every due date, and changes no row with another id |
| Balances.SaveWritesColumn | src/pages/BalancePage.tsx:96-110 | Each saved column of the edited row lands on every row with its id |
| Balances.BlockLotNumberIsParsed | src/pages/BalancePage.tsx:183-198 | The block or lot number is what `parseInt` reads from the label's digits, or from `'0'` when it has none |
| Balances.CompareBlockLotIsLexicographic | src/pages/BalancePage.tsx:181-200 | The comparison is the lexicographic order on (block number, lot number), both for less-than and for equality |
| Balances.CompareBlockLotAntisymmetric | src/pages/BalancePage.tsx:181-200 | Swapping the rows negates the comparison |
| Balances.CompareBlockLotTransitive | src/pages/BalancePage.tsx:181-200 | The comparison is transitive |
| Balances.SortComparatorIsPreorder | src/pages/BalancePage.tsx:299-311 | Each of the four sort types compares by a total preorder |
| Balances.SortedBalances | src/pages/BalancePage.tsx:299-311 | The sorted list is a permutation of the filtered rows |
| Balances.SortedBalancesInOrder | src/pages/BalancePage.tsx:299-311 | The sorted list is in the chosen order and a permutation of its input |
| Balances.BalanceActions | src/pages/BalancePage.tsx:206-258 | Edit and Add Payment are offered exactly when the payment is not completed |
| Balances.BlankedRowReadsCompleted | src/pages/BalancePage.tsx:202-204 | A row with no amount, contract price, month count or term reads as completed once normalised |
| Balances.FilteredBalances | src/pages/BalancePage.tsx:261-296 | The list keeps exactly the rows passing the trimmed, case-insensitive search and the project choice, in order |
| Balances.FilteredBalancesKeepsCopies | src/pages/BalancePage.tsx:261-296 | Each passing row is kept as often as it occurs and no other row is kept, so no duplicate is dropped |
| Balances.NoFilterKeepsAllBalances | src/pages/BalancePage.tsx:261-296 | A blank search with no project keeps every row |
| Ledger.Open | src/components/EditBalanceModal.tsx:67-80 | The form opens with amount and penalty cleared, every other field from the row, and a preview equal to the stored balances |
| Ledger.Input | src/components/EditBalanceModal.tsx:148-189 | Only the amount moves the preview and only the amount or the penalty moves the penalty; the three choices are untouched |
| Ledger.InputParsed | src/components/EditBalanceModal.tsx:148-189 | The same, and a field other than id keeps the id |
| Ledger.ClearAmount | src/components/EditBalanceModal.tsx:151-158 | Clearing the amount nulls it and keeps the penalty and the choices |
| Ledger.TypeAmount | src/components/EditBalanceModal.tsx:161-174 | A NaN or negative amount is refused; otherwise it is entered, and with a contract price the preview is TCP less the amount paid less the new amount |
| Ledger.TypePenalty | src/components/EditBalanceModal.tsx:180-182 | The penalty takes an acceptable number and otherwise stays; the fields and the preview are untouched |
| Ledger.InputRefusesNegative | src/components/EditBalanceModal.tsx:161-181 | Typing a negative number into the amount or the penalty leaves the form as it was |
| Ledger.InputAmountNumber | src/components/EditBalanceModal.tsx:161-174 | Text that parses to a non-negative number is entered as the amount, and the preview is refreshed |
| Ledger.InputPenaltyDigits | src/components/EditBalanceModal.tsx:175-182 | A digit string becomes the penalty and leaves the fields alone |
| Ledger.InputClears | src/components/EditBalanceModal.tsx:149-179 | An empty input clears the amount or the penalty |
| Ledger.MonthsAfterCounts | src/components/EditBalanceModal.tsx:92-99 | A stored count of n months becomes n + 1 |
| Ledger.MonthsAfterBlank | src/components/EditBalanceModal.tsx:92-99 | A missing or empty count becomes 1 |
| Ledger.PostedWith | src/components/EditBalanceModal.tsx:102-109 | The posted row moves the entered amount from the remaining balance to the amount paid and sets the month count; every other column comes from the form over the row |
| Ledger.PostedConserves | src/components/EditBalanceModal.tsx:91-109 | Posting keeps the sum of the amount paid and the remaining balance |
| Ledger.PostedIgnoresTypedMonths | src/components/EditBalanceModal.tsx:102-109 | Whatever was typed into the month counter, the increment wins |
| Ledger.PostedWithoutAmount | src/components/EditBalanceModal.tsx:91-109 | Posting a freshly opened form keeps both balances but still counts one more month |
| Ledger.OpenPostsNothing | src/components/EditBalanceModal.tsx:91-98 | A freshly opened form posts no amount |
| Ledger.PostingNothing | src/components/EditBalanceModal.tsx:93-98 | A form with no amount entered leaves both balances as they were |
| Ledger.PreviewAgreesIff | src/components/EditBalanceModal.tsx:169-174 | The preview shown while typing equals the remaining balance the post commits exactly when the stored balance is the contract price less the amount paid |
| Ledger.PreviewAgreesWith | src/components/EditBalanceModal.tsx:169-174 | The same for any form holding the amount and its preview, whatever month count is posted |
| Ledger.PaymentRecordRow | src/components/EditBalanceModal.tsx:115-129 | The record holds the amount just paid and the row's name, project, block and lot, and has a penalty exactly when it is positive |
| Ledger.Submit | src/components/EditBalanceModal.tsx:84-146 | The form closes exactly when the record insert succeeded; Balance gets the page's save of the posted row; Payment Record grows by the record only on success |
| Ledger.SubmitRows | src/components/EditBalanceModal.tsx:111-137 | The two writes in order: the save, then the record insert; no other table changes |
| Ledger.SubmitUpdatesBalance | src/components/EditBalanceModal.tsx:101-112 | The Balance row with the id gets the new amount, remaining balance and month count; no due date changes |
| Ledger.SavePostedRow | src/components/EditBalanceModal.tsx:101-112 | The same for a posted row with any month count |
| Ledger.OpenKeepsId | src/components/EditBalanceModal.tsx:67-80 | The form opens on the row's id |
| Ledger.InputKeepsId | src/components/EditBalanceModal.tsx:148-189 | Typing into a field other than the id keeps it |
| Ledger.SubmitStepsAreIndependent | src/components/EditBalanceModal.tsx:111-137 | A failed insert keeps the saved balance, and a failed save still lets the record through and leaves Balance as it was |
| MonthFormat.Render | src/pages/PaymentPage.tsx:20-21 | A rendered month is at least five characters, so never `N/A` |
| MonthFormat.FormatIgnoresDay | src/pages/PaymentPage.tsx:15 | A full date formats as its year and month |
| MonthFormat.FormatValidIff | src/pages/PaymentPage.tsx:11-25 | The result is a month exactly when the text, cut to year and month, has the `YYYY-MM` shape and a month from 1 to 12 |
| MonthFormat.FormatRejectsShape | src/pages/PaymentPage.tsx:12-24 | Text of neither shape, the empty text included, is `N/A` |
| MonthFormat.FormatRejectsMonth | src/pages/PaymentPage.tsx:18-24 | A month outside 1 to 12 is `N/A` |
| MonthFormat.FormatFirstOfMonth | src/pages/PaymentPage.tsx:11-25 | A month with `-01` appended is a full date and formats as the month itself |
| MonthFormat.FormatTwoDigitYear | src/pages/PaymentPage.tsx:20-21 | Years 0 to 99 are shown in the twentieth century |
| ClientOptions.LoadClients | src/pages/PaymentPage.tsx:307-356 | A failed or empty fetch keeps the previous list; otherwise every entry comes from a fetched row |
| ClientOptions.IsFirstIff | src/pages/PaymentPage.tsx:339-345 | An entry passes the de-duplication exactly when it equals itself and no earlier entry is the same client |
| ClientOptions.KeepFirstEmbedding | src/pages/PaymentPage.tsx:339-345 | The kept entries sit at increasing positions of the input, each a first occurrence |
| ClientOptions.KeepFirstKeeps | src/pages/PaymentPage.tsx:339-345 | Every first occurrence is kept |
| ClientOptions.UniqueClientsShape | src/pages/PaymentPage.tsx:339-345 | The de-duplicated list is a subsequence of the input holding every first occurrence |
| ClientOptions.UniqueClientsNoTwins | src/pages/PaymentPage.tsx:339-345 | No two entries of the de-duplicated list are the same client |
| ClientOptions.UniqueClientsCover | src/pages/PaymentPage.tsx:339-345 | Every entry that equals itself is represented in the de-duplicated list |
| ClientOptions.AvailableProjects | src/pages/PaymentPage.tsx:380-385 | The project options have no duplicates |
| ClientOptions.AvailableProjectsIff | src/pages/PaymentPage.tsx:380-385 | A project is offered exactly when a name is chosen and some entry has that name and project |
| ClientOptions.AvailableBlockLots | src/pages/PaymentPage.tsx:387-394 | The block-lot options have no duplicates |
| ClientOptions.AvailableBlockLotsIff | src/pages/PaymentPage.tsx:387-394 | A block-lot is offered exactly when a name and a project are chosen and some entry has all three |
| ClientOptions.NameOrderIsPreorder | src/pages/PaymentPage.tsx:400 | The order names are sorted by is a total preorder |
| ClientOptions.UniqueNamesSpec | src/pages/PaymentPage.tsx:397-401 | The name options are exactly the truthy names of the list, each once, sorted |
| ClientOptions.FilteredNames | src/pages/PaymentPage.tsx:403-409 | An empty query keeps every option |
| ClientOptions.FilteredNamesSpec | src/pages/PaymentPage.tsx:403-409 | A query keeps exactly the options containing it case-insensitively, still sorted and free of duplicates |
| ClientOptions.ChooseNameResets | src/pages/PaymentPage.tsx:525-529 | Picking a name clears project and block-lot, offers no block-lot, and offers that name's projects |
| ClientOptions.ChooseProjectResets | src/pages/PaymentPage.tsx:581-584 | Picking a project keeps the name, clears the block-lot, and offers exactly the block-lots listed under both |
| Payments.Upload | src/pages/PaymentPage.tsx:418-484 | The form closes exactly when it is complete, the receipt was stored and the insert succeeded; only then Payment grows by the one row; other tables are untouched |
| Payments.UploadRefusesIncomplete | src/pages/PaymentPage.tsx:420-423 | A form with a required field blank writes nothing and stays open |
| Payments.UploadRowWithContents | src/pages/PaymentPage.tsx:452-468 | The inserted row is Pending, for the chosen name, project and block-lot, with the stored receipt path, the penalty read, and the first of the chosen month |
| Payments.UploadRowPenalty | src/pages/PaymentPage.tsx:458 | The penalty is null exactly when its field was left blank |
| Payments.UploadRowMonth | src/pages/PaymentPage.tsx:460 | The stored month is the first of the chosen month and is shown as that month |
| Payments.UploadedRowAwaitsReview | src/pages/PaymentPage.tsx:452-468 | A fresh upload offers Edit, Confirm and Reject, shows its receipt and offers no receipt upload |
| Payments.FirstShownUploadForm | src/pages/PaymentPage.tsx:301-303 | The form as first shown has a blank month, due date `15th`, VAT choice `Non Vat`, no file and no selection, because the modal mounts closed and the close reset runs on mount |
| Payments.FirstUploadNeedsMonth | src/pages/PaymentPage.tsx:364-377 | Until a month is picked, the first upload is refused whatever else is filled in |
| Payments.ClosedFormRefusesUpload | src/pages/PaymentPage.tsx:364-377 | After the form is closed its month is blank, so nothing can be uploaded |
| Payments.ChooseNameBlocksUpload | src/pages/PaymentPage.tsx:525-529 | Picking a name blocks the upload until project and block-lot are picked again |
| Payments.ActionsIff | src/pages/PaymentPage.tsx:1435-1597 | Edit, Confirm and Reject are offered exactly for Pending rows and Delete always; a receipt is viewable exactly when its path is set, and uploadable exactly when it is unset on an Approved row |
| Payments.SetStatus | src/pages/PaymentPage.tsx:1230-1261 | A failed status write changes nothing; a status change keeps the Payment row count and leaves other tables untouched |
| Payments.SetStatusChangesOnlyStatus | src/pages/PaymentPage.tsx:1230-1261 | The row with the id gets the new status, other rows are unchanged, and no other column changes |
| Payments.SetStatusSets | src/pages/PaymentPage.tsx:1230-1235 | A successful status write gives the row with the id that status |
| Payments.ApprovedRowSettled | src/pages/PaymentPage.tsx:1435-1597 | An Approved row offers no Edit, Confirm or Reject, and lacking a receipt offers its upload |
| Payments.RejectedRowSettled | src/pages/PaymentPage.tsx:1435-1597 | A Rejected row offers neither a status change nor a receipt upload |
| Payments.ConfirmSettles | src/pages/PaymentPage.tsx:1230-1245 | A confirmed row offers no Edit, Confirm or Reject, and lacking a receipt offers its upload |
| Payments.RejectSettles | src/pages/PaymentPage.tsx:1247-1261 | A rejected row offers neither a status change nor a receipt upload |
| Payments.DeletePayment | src/pages/PaymentPage.tsx:1263-1276 | A failed delete changes nothing; after a successful one no Payment row has the id; rows with another id stay, the rows left are the old rows in their old order, and other tables are untouched |
| Payments.DeletePaymentKeepsCopies | src/pages/PaymentPage.tsx:1263-1276 | A successful delete keeps each row with another id as often as it occurred and no row with the id |
| Payments.AttachReceipt | src/pages/PaymentPage.tsx:1088-1115 | A failed upload or update changes nothing; attaching a receipt keeps the Payment row count and leaves other tables untouched |
| Payments.AttachReceiptChangesOnlyReceipt | src/pages/PaymentPage.tsx:1100-1105 | The rows with the id get the stored path in that receipt's column; every other row, and every other column of those rows, is unchanged |
| Payments.AttachReceiptShows | src/pages/PaymentPage.tsx:1088-1115 | Afterwards the row shows that receipt instead of offering its upload, and its status and the other receipt are unchanged |
| Payments.FilteredPaymentsSpec | src/pages/PaymentPage.tsx:1172-1186 | The filtered list holds exactly the rows passing all five filters, in order and each as often as it occurs |
| Payments.OpenFilterKeepsAll | src/pages/PaymentPage.tsx:1172-1186 | With every filter open, every row is kept |
| Payments.ValidateEdit | src/pages/PaymentPage.tsx:849-856 | The name error is raised exactly for a blank name, and the amount error exactly for a falsy amount other than 0 |
| Payments.ValidateEditIff | src/pages/PaymentPage.tsx:849-856 | An edit passes exactly when the name has a non-space character and the amount is truthy or exactly 0 |
| Payments.SaveEdit | src/pages/PaymentPage.tsx:810-861 | The form closes exactly when the edit is valid and the update succeeded; otherwise nothing changes |
| Payments.SaveEditKeepsOtherColumns | src/pages/PaymentPage.tsx:815-831 | A save keeps the row count and every column outside the twelve edited ones, status and receipts included |
| Payments.SaveEditKeepsOtherPayments | src/pages/PaymentPage.tsx:815-831 | A save leaves every payment with another id exactly as it was |
| Payments.SaveEditWritesColumn | src/pages/PaymentPage.tsx:815-831 | A successful save copies each edited column onto the row with the id |
| Dashboard.StatsOf | src/pages/DashboardContent.tsx:61-91 | A failed read counts zero lots |
| Dashboard.FetchLotData | src/pages/DashboardContent.tsx:49-118 | A throw while counting zeroes every counter; otherwise the per-development counts are kept and the totals are their sums |
| Dashboard.StatsBounded | src/pages/DashboardContent.tsx:66-72 | Available plus sold lots are at most the lots |
| Dashboard.CountsBounded | src/pages/DashboardContent.tsx:94-108 | The overall counters keep that bound |
| Dashboard.FailedReadCountsNothing | src/pages/DashboardContent.tsx:61-108 | A failed Living Water read shows zeros, and the totals are the Havahills counts |
| Dashboard.CountIgnoresCase | src/pages/DashboardContent.tsx:66-71 | Rows whose statuses agree once lower-cased are counted alike |
| Dashboard.ActiveAccounts | src/pages/DashboardContent.tsx:120-140 | A failed read keeps the previous count; otherwise the count is at most the clients |
| Dashboard.HasEmailIff | src/pages/DashboardContent.tsx:132-134 | A client counts exactly when its Email is text with a non-space character |
| Dashboard.PropertyCounts | src/pages/DashboardContent.tsx:207-234 | Metrics are produced exactly when both reads succeeded and counting did not throw |
| Dashboard.OccupancyAgreesWithLotCounts | src/pages/DashboardContent.tsx:219-223 | The occupied count equals the sold total of the lot counters, the property count equals the lot total, and occupied plus reserved is at most all |
| Admin.StaysIff | src/pages/AdminDashboardPage.tsx:34-75 | A visitor stays exactly when signed in with a non-empty allowlisted email that no client row carries |
| Admin.ClientCheckedFirst | src/pages/AdminDashboardPage.tsx:53-63 | A client goes to the client dashboard even when allowlisted |
| Admin.OthersToLogin | src/pages/AdminDashboardPage.tsx:34-75 | Every visitor who neither stays nor is a client goes to the login page |
| Admin.NoEmailToLogin | src/pages/AdminDashboardPage.tsx:53-69 | A signed-in user without an email goes to the login page |
| Admin.VisibleMenuSpec | src/pages/AdminDashboardPage.tsx:201-205 | Other users see every entry; a restricted user sees exactly the entries that are not restricted, in menu order |
| Admin.RestrictedUserSees | src/pages/AdminDashboardPage.tsx:202-205 | For the restricted user an entry shows exactly when it is in the menu and not restricted |
| Admin.RestrictedMenuShows | src/pages/AdminDashboardPage.tsx:88-152 | The restricted user sees Clients, Documents, the Support divider, Ticket and Team Chat |
| Admin.RestrictedMenuHides | src/pages/AdminDashboardPage.tsx:88-152 | The restricted user does not see Dashboard, Inventory, Payment, Balance or Report |
| Admin.BadgeOf | src/pages/AdminDashboardPage.tsx:256-266 | A badge is shown only on Payment or Ticket and only with a positive count |
| Admin.RestrictedBadges | src/pages/AdminDashboardPage.tsx:256-266 | The restricted user never sees the payment badge, but sees the ticket badge when tickets are new |

## Left out

- Network, storage, realtime and timing. A database, storage or auth call is a success flag, a fetched row list or a returned path, except for the sale's client lookup, client insert, Balance lookup and Balance write, which are listed under the failure paths below. Toasts, alerts, console logs, loading flags, modals and scrolling are not modelled.
- Unmodelled sources. `src/contexts/TicketContext.tsx` feeds only the new-ticket badge count, which is a parameter, as is the pending-payment count. `src/contexts/PaymentContext.tsx` and `src/components/EditPropertyModal.tsx` are not part of this model.
- Clocks, dates and the signed-in email. Today's date, the current month, `created_at`, the receipt storage path, the allowlist of admin emails and the restricted address are parameters.
- The payment filter's day comparison. It builds a JavaScript `Date` and compares day, month and year; this is the parameter `onDay`.
- Number handling:
  - Numbers are unbounded reals with no floating-point rounding.
  - `parseFloat` covers leading white space, a sign, digits and a fraction. Exponents, `Infinity` and hexadecimal are left out.
  - Number-to-text is exact only for whole numbers; a fraction is written as its integer part. Where the source turns a number into text only to parse it back (`Balances.ReadAmount`, `Ledger.Entered`), the model keeps the number itself, which is what `parseFloat` gives back for every finite number.
- Null and undefined. `Null` stands for both. `String(undefined)` would read `undefined` where the model writes `null`.
- String handling. Text comparison by `localeCompare` or the default sort is code-point order. `toLowerCase` maps only ASCII letters.
- MonthFormat.Render: `toLocaleString('default', …)` follows the browser's locale; the model always writes the English month name.
- Throws the model skips:
  - A Payment row whose `Name` is null makes the page's filter throw; the model reads it as the text `null`.
  - A non-text `Name` in the edit form makes `validate` throw; the model reads it as blank.
  - A lot whose `Status` is present but not text makes `Status?.toLowerCase()` throw in the inventory page's status filter and row buttons; `Tables.StatusLower` reads it as empty text. The dashboard's counters do model this throw.
- Lot-count metrics. The dashboard's area, average price and percentage metrics are left out; only the counts behind them are modelled.
- Failure paths the model skips:
  - The sale's client lookup and its Balance lookup always see the table; their errors are not modelled.
  - The sale's client insert and Balance write are taken to succeed. The source logs their failures and carries on.
  - Writes are not atomic; a failure between two writes leaves the earlier ones in place, which the model follows step by step.
- Ledger.Entered: the form's amount is read back as the number stored, not through `parseFloat(String(x))`; JavaScript gives the same number both ways, but the model's number-to-text is exact only for whole numbers.
- Payment type, month and due-date choices. The payment form's three selects write only their own state; the model takes their values as fields of `Form`.
