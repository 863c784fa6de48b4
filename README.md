# A verified model of the jackdream ledger

jackdream is a single-page bookkeeping application for a small trading
business. The top-level component keeps two pieces of state:

- the transaction list: receive, pay, transfer, buy and delivery records;
- the person list.

Two screens keep state of their own:

- the buy screen keeps its categories (line 1274);
- the pay screen keeps its pending pair (line 899).

Each screen sits on its own route (lines 3536-3537), so these two are reset whenever the screen is left. The model keeps all four pieces in one class.

The screens read and change that state:

- the dashboard's balances per person and currency, and its average usd rate;
- the receive, pay (usd to cny) and transfer forms;
- the buy screen: JACK's orders, items, categories, and the item edit and delete;
- the delivery screen: packages, with add, edit and delete;
- the reports screen: filter, sort, summary, delete and edit;
- the persons screen.

All of it lives in `src/App.js`.

This project models that core in Dafny:

- Records are a tagged datatype (`Transactions.Transaction`). A missing string field is `""` and a missing number is `None`.
- A row of the list is `Row(id, tx)`. The `id` stands for JavaScript object identity, so `===` on rows can be modelled.
- The state is the class `Ledger.AppState`:
  - each `forEach` loop of a screen is a read-only method with a loop, proved against a fold function over the list;
  - each handler that calls `setTransactions`, `setPersons` or `setCategories` is a method that reassigns the fields;
  - every method keeps an invariant `Valid()`: identities are distinct and below `nextId`, names are trimmed and distinct, and category values are distinct.
- The screens' pure logic lives in modules of functions and lemmas:
  - validators: `Validation`;
  - the digit clean-up of the receive form: `Digits`;
  - balances: `Balances`;
  - form submits: `Forms`;
  - the report view: `Reports`;
  - orders and packages: `Orders`;
  - list edits: `Edits`;
  - persons and categories: `Directory`;
  - JavaScript value semantics (NaN, `trim`, `includes`, string order): `JsValues`.

JavaScript numbers are modelled as `real`. NaN is modelled only where the code produces it: `Number(undefined)` of a missing quantity. Dates are integer millisecond timestamps.

## Model

| member | source | states |
|---|---|---|
| JsValues.AddThenSub | src/App.js:1918-1937 | adding a number to the balance and subtracting it again restores the balance; once an operand is NaN the balance stays NaN |
| JsValues.LessOnNaN | src/App.js:1947-1948 | no comparison with NaN holds, so a NaN sender balance never fails `senderBalance < amount`; between numbers `<` is total and asymmetric |
| JsValues.TrimStart | src/App.js:663-671 | the result is a suffix of the input; it does not start with whitespace, and everything cut off is whitespace |
| JsValues.TrimEnd | src/App.js:663-671 | the result is a prefix of the input; it does not end with whitespace, and everything cut off is whitespace |
| JsValues.TrimIsInnerPart | src/App.js:663-671 | `trim` returns a contiguous piece of the input with no whitespace at either end |
| JsValues.TrimEmptyIffWhitespace | src/App.js:663-664 | a trimmed name is empty exactly when the input is all whitespace |
| JsValues.TrimOfClean | src/App.js:667-671 | a string with no whitespace at either end is its own trim |
| JsValues.TrimIdempotent | src/App.js:1315-1323 | trimming twice is trimming once |
| JsValues.IncludesIffOccurs | src/App.js:2141-2148 | `includes` holds exactly when the term occurs at some index |
| JsValues.StrLessIrreflexive | src/App.js:2102 | no string sorts before itself in character order |
| JsValues.StrLessTransitive | src/App.js:2102 | character order is transitive |
| JsValues.StrLessTotal | src/App.js:2102 | any two different strings are ordered one way or the other |
| JsValues.StrLessAsymmetric | src/App.js:2102 | character order is asymmetric |
| JsValues.InsertAscending | src/App.js:2102 | insertion adds exactly one copy of the element |
| JsValues.InsertAscendingSorted | src/App.js:2102 | inserting into a sorted array keeps it sorted |
| JsValues.SortAscending | src/App.js:2102 | the default `sort()` is a permutation of its input |
| JsValues.SortAscendingSorted | src/App.js:2102 | the default `sort()` returns an ascending array |
| JsValues.SortDescendingCorrect | src/App.js:1289 | the descending sort of order numbers is sorted descending and a permutation |
| JsValues.SortedDistinctStrict | src/App.js:2096-2102 | a sorted array of distinct names is strictly increasing |
| JsValues.DistinctPermutation | src/App.js:2096-2102 | a permutation of a duplicate-free array is duplicate-free, as `Array.from(set)` then sort |
| Digits.PersianToAscii | src/App.js:713-717 | a Persian digit maps to the ASCII digit of the same value |
| Digits.ToEnglishDigits | src/App.js:713-717 | the result has only ASCII digits and is no longer than the input |
| Digits.ToEnglishDigitsAppend | src/App.js:713-717 | the conversion works character by character, so it distributes over concatenation |
| Digits.ToEnglishDigitsKeepsAscii | src/App.js:713-717 | a string of ASCII digits comes back unchanged |
| Digits.ToEnglishDigitsIdempotent | src/App.js:713-717 | converting twice is converting once |
| Digits.ToEnglishDigitsLength | src/App.js:713-717 | exactly the digit characters, ASCII or Persian, survive, each once |
| Digits.DecimalValuePositive | src/App.js:752-753 | a digit string's value is positive exactly when some digit is not '0' |
| Validation.ValidateNumberMeaning | src/App.js:77-78 | NaN fails and 0 passes; together with the truthiness test before it, exactly the positive numbers pass, as the buy screen's validator relies on |
| Validation.ValidateOrderNumberMeaning | src/App.js:79-80 | exactly the non-empty strings of ASCII letters, digits and '-' pass; such a string holds no character `trim` removes, so it is its own trim |
| Validation.ValidateDescriptionMeaning | src/App.js:81-82 | a description passes when it has at most 500 characters, and then every prefix of it passes too |
| Validation.ZeroAmountRejected | src/App.js:88-110 | a receive, pay or transfer with amount 0 fails, because the checks test truthiness |
| Validation.BuyValidityIgnoresAmount | src/App.js:98-99 | the buy case does not look at the amount; a buy record with no quantity always fails |
| Validation.HandleTransaction | src/App.js:136-177 | 'deleted' accepts any present record; 'added' and 'updated' accept exactly what the global validator accepts; any other action is refused |
| Validation.BuyValidateTransaction | src/App.js:1351-1357 | the buy screen's validator accepts exactly a present, non-delivery record with a positive amount |
| Balances.NetStepAt | src/App.js:369-398 | one more row adds its effect to a person's balance |
| Balances.MentionedStep | src/App.js:369-398 | one more row opens entries for exactly the persons it names |
| Balances.TransferEffect | src/App.js:388-396 | a transfer with both ends debits `from` and credits `to` in its currency |
| Balances.EffectOnlyOnOpened | src/App.js:369-398 | a row moves only the balances of the persons it names |
| Balances.NetAppend | src/App.js:369-398 | the balance of a concatenation is the sum of the parts' balances |
| Balances.NetOrderIrrelevant | src/App.js:369-398 | swapping two adjacent rows leaves every balance unchanged |
| Balances.NetSnoc | src/App.js:369-398 | appending a row changes each balance by that row's effect |
| Balances.TransferConservation | src/App.js:388-396 | a transfer between two different persons debits one, credits the other by the same amount, and moves nobody else |
| Balances.NeutralRows | src/App.js:369-398 | deliveries, self-transfers and transfers missing an end move no balance |
| Balances.DashboardExample | src/App.js:363-398 | receive 100, pay 30 and transfer 20 from A to B leave A at 50 and B at 20 usd |
| Balances.LedgerBalanceIsNet | src/App.js:1232-1251 | for a named person, and for transfers as the form makes them, the helper balance equals the dashboard balance |
| Balances.JackSelfTransferDiverges | src/App.js:1242-1248 | a JACK-to-JACK transfer moves the buy screen's balance but not the dashboard's |
| Balances.SenderBalanceNaN | src/App.js:1926-1927 | one buy row of the sender with no quantity makes the sender balance NaN |
| Balances.SenderBalanceWithQuantities | src/App.js:1918-1937 | when no buy row of the sender in that currency lacks a quantity, the sender balance is a number: the helper balance with each buy row's quantity subtracted in place of its amount |
| Balances.SenderBalanceNaNIff | src/App.js:1918-1937 | the sender balance is NaN exactly when some buy row of the sender in that currency has no quantity |
| Balances.QuantityBalanceIsLedgerBalance | src/App.js:1926-1927 | when each such buy row's quantity equals its amount, the quantity-based balance is the buy screen's helper balance |
| Balances.VolumesBounded | src/App.js:493-506 | when every counted rate lies in [lo, hi], the irr volume lies between lo and hi times the usd volume |
| Balances.AverageWithinRates | src/App.js:493-513 | the average usd rate lies between the smallest and the largest counted rate |
| Ledger.RowBookingStep | src/App.js:369-398 | the dashboard loop's step keeps the map equal to the balances of the rows read so far |
| Ledger.AgreesStep | src/App.js:369-398 | a map that opens the row's persons and adds the row's effect stays in agreement with the ledger |
| Ledger.BookStep | src/App.js:373-386 | booking a receive, pay or buy for its person follows that row |
| Ledger.TransferBooks | src/App.js:388-396 | the two bookings of a transfer open both ends and add the transfer's effect |
| Ledger.TransferBookStep | src/App.js:388-396 | booking a transfer follows that row |
| Ledger.NoBookStep | src/App.js:369-398 | a row that names nobody leaves the map as it is |
| Ledger.Book | src/App.js:373-375 | the entry is created with zeros if missing, only that person's entry changes, and only in currency `c` |
| Ledger.VolumeStep | src/App.js:497-503 | one more row adds to the volumes exactly when the average counts it |
| Ledger.CellStep | src/App.js:2233-2266 | adding a row's amount to its type and currency cell follows that row |
| Ledger.NoCellStep | src/App.js:2233-2266 | a row without a currency leaves every summary cell unchanged |
| Ledger.NamedStep | src/App.js:2097-2101 | one more row adds exactly its truthy `person`, `from` and `to` to the collected names |
| Ledger.OrderSetStep | src/App.js:1284-1288 | one more row adds its order number exactly when it is a JACK buy row |
| Ledger.DeliverySetStep | src/App.js:2688-2692 | one more row adds its delivery number exactly when it is a delivery with a truthy number |
| Ledger.DescendingOfDistinct | src/App.js:1289 | the descending sort of a set's elements is sorted, duplicate-free and holds the same elements |
| Ledger.AppendKeepsIds | src/App.js:783 | records appended as new objects keep identities distinct and below the new bound |
| Ledger.AppState.constructor | src/App.js:3149-3150 | the state starts with no rows, the four default persons and the four default categories, and satisfies `Valid()` |
| Ledger.AppState.DashboardBalances | src/App.js:363-398 | the map has an entry exactly for every listed person and every person a row names, and each entry holds that person's net total per currency |
| Ledger.AppState.SenderBalance | src/App.js:1918-1937 | the loop computes the sender-balance fold, NaN included |
| Ledger.AppState.JackBalance | src/App.js:1232-1251 | the loop computes JACK's cny balance fold |
| Ledger.AppState.AverageUsdRate | src/App.js:493-513 | the result is 0 when the counted usd volume is 0, and otherwise the irr volume divided by the usd volume |
| Ledger.AppState.Summary | src/App.js:2223-2288 | every type has a row; each cell is its type and currency total over the filtered view; the totals row is each currency's total over all types |
| Ledger.AppState.UniquePersons | src/App.js:2095-2103 | the result is sorted ascending, duplicate-free, and holds exactly the names the rows carry |
| Ledger.AppState.OrderNumbers | src/App.js:1282-1291 | the result is sorted descending, duplicate-free, and holds exactly JACK's order numbers |
| Ledger.AppState.DeliveryNumbers | src/App.js:2686-2694 | the result is sorted descending, duplicate-free, and holds exactly the truthy delivery numbers |
| Ledger.AppState.Append | src/App.js:783 | the records are appended as new objects with fresh identities; nothing else changes |
| Ledger.AppState.SubmitReceive | src/App.js:757-795 | the outcome is the form's decision; an accepted record is appended under the next identity; a refusal changes nothing, `nextId` included |
| Ledger.AppState.SubmitPay | src/App.js:990-1040 | an accepted pair is appended under the next two identities; a pair over the sender's usd balance is kept pending, not appended; a refusal changes nothing |
| Ledger.AppState.ConfirmNegativeBalance | src/App.js:1042-1061 | a pending pair that passes both checks is appended under fresh identities, and the pending pair is cleared in every case |
| Ledger.AppState.SubmitTransfer | src/App.js:1955-1981 | an accepted transfer is appended under the next identity and leaves the sender's balance non-negative; a refusal changes nothing |
| Ledger.AppState.AddBuyItem | src/App.js:1370-1407 | an accepted item is appended under the next identity, and its order's total grows by its amount; a refusal changes nothing |
| Ledger.AppState.UpdateBuyItem | src/App.js:1440-1456 | the row the edit began from takes the new amount, description, category and status; JACK's order numbers are unchanged |
| Ledger.AppState.DeleteRowObject | src/App.js:1463-1470 | the object is removed and every other row stays; the delivery screen's delete (lines 2836-2844) is the same filter |
| Ledger.AppState.SubmitDelivery | src/App.js:2704-2760 | an accepted package is appended under the next identity and its number becomes one of the delivery numbers; a refusal changes nothing |
| Ledger.AppState.UpdateDelivery | src/App.js:2762-2820 | an accepted edit replaces the package object in place; a refusal, or no package being edited, changes nothing |
| Ledger.AppState.ReplaceKeeps | src/App.js:2796-2798 | the object `id` takes the new record, keeping its place and identity |
| Ledger.AppState.ReportsDelete | src/App.js:2163-2185 | the row shown at `idx` is removed from the list, and nothing is deleted when `idx` is past the view |
| Ledger.AppState.ReportsSaveEdit | src/App.js:2187-2215 | the row shown at `idx` takes the edited record in its own place, exactly when the index is in the view and the buy-aware validator accepts the record |
| Ledger.AppState.AddPerson | src/App.js:661-673 | the trimmed name is appended when it is non-empty and new; otherwise nothing changes |
| Ledger.AppState.DeletePerson | src/App.js:649-656 | the delete takes effect exactly when no row names the person as `person`; then only that name leaves the list |
| Ledger.AppState.AddCategory | src/App.js:1410-1419 | the add takes effect exactly when the input is not blank and its trimmed value is not taken; then that value is appended as value and label, and otherwise nothing changes |
| Ledger.AppState.EditCategory | src/App.js:1421-1428 | the category with the edited value takes the edited label |
| Ledger.AppState.DeleteCategory | src/App.js:1430-1433 | no category with that value remains |
| Forms.SubmitReceive | src/App.js:750-775 | accepted exactly when a person is chosen, the amount's digits give a positive value, and usd or cny carry a positive rate; the record holds those values |
| Forms.ReceiveRecordValid | src/App.js:777-784 | the accepted record passes the global validator and `handleTransaction`, so those checks never refuse it |
| Forms.NonZeroSurvives | src/App.js:713-717 | the converted digits include a non-zero digit exactly when the input has a non-zero ASCII or Persian digit |
| Forms.AmountPositiveIffNonZeroDigit | src/App.js:752-753 | the amount is positive exactly when it contains a non-zero digit; separators and other characters do not count |
| Forms.SubmitPay | src/App.js:943-988 | refused exactly when a field check fails, including a same-person refusal; pending exactly when the sender's usd balance is below the amount; the pair holds the pay and the receive-at-rate records |
| Forms.PayPairValid | src/App.js:1026-1027 | both records of the pair pass the global validator and `handleTransaction` |
| Forms.PayPairEffect | src/App.js:960-981 | the pair debits the sender by the usd amount, credits the receiver with amount times rate in cny, and moves nothing else |
| Forms.TransferFieldsError | src/App.js:1939-1944 | the fields pass exactly when both ends are chosen and differ and the amount is positive |
| Forms.SubmitTransferAsWritten | src/App.js:1918-1953 | accepted exactly when the fields pass and the quantity-based sender balance is not below the amount |
| Forms.TransferOverdraftAsWritten | src/App.js:1926-1927 | after one buy-form row, a transfer of 100 from a JACK holding 5 cny is accepted |
| Forms.SubmitTransfer | src/App.js:1939-1980 | accepted exactly when the fields pass and the ledger balance covers the amount; otherwise insufficient balance |
| Forms.TransferKeepsSenderSolvent | src/App.js:1947-1950 | an accepted transfer leaves the sender non-negative, passes the global validator, and moves the amount from sender to receiver |
| Forms.Clip | src/App.js:1390 | the kept description has at most 500 characters, is a prefix of the input, and is the whole input when that is short enough |
| Forms.ClipPassesCheck | src/App.js:1390 | the kept description passes the 'description' check of `validateInput`, is exactly 500 characters when the input is longer, and clipping again changes nothing |
| Forms.AddBuyItem | src/App.js:1370-1407 | refused without an order; accepted exactly when the amount is a positive number; an amount of 0 fails the record check; the record is JACK's, in cny, with no quantity |
| Forms.DeliveryFieldsError | src/App.js:2706-2724 | the package fields pass exactly when there is a delivery number, a positive box count and weight, and a receipt number |
| Forms.SubmitDelivery | src/App.js:2704-2738 | accepted exactly when the fields pass; the record has no order number and a positive box count and weight |
| Forms.NewPackageFailsGlobalValidator | src/App.js:2726-2738 | a new package has no order number, so the global validator refuses it |
| Forms.UpdateDelivery | src/App.js:2762-2792 | accepted exactly when the fields pass; the package keeps its user, date and order number and takes the form's fields |
| Reports.FilterRows | src/App.js:2106-2149 | the filter chain keeps only rows that pass every criterion, keeps all that do, and adds nothing |
| Reports.FilterKeepsAll | src/App.js:2106-2149 | a list whose rows all pass is left as it is |
| Reports.InsertByDate | src/App.js:2153 | insertion adds exactly one copy of the row |
| Reports.FilterRowsInOrder | src/App.js:2106-2149 | the filter chain keeps the list order: the kept rows are the list's rows at increasing positions |
| Reports.SortByDateDesc | src/App.js:2153 | the date sort is a permutation of its input; its order is stated by SortByDateDescSorted and SortByDateDescStable |
| Reports.InsertByDateStable | src/App.js:2153 | inserting a row puts it before the rows of its own date and keeps the order of each date's rows |
| Reports.SortByDateDescStable | src/App.js:2153 | the date sort is stable: the rows of each date keep their list order |
| Reports.InsertByDateSorted | src/App.js:2153 | inserting into a newest-first list keeps it newest-first |
| Reports.SortByDateDescSorted | src/App.js:2153 | the date sort returns a newest-first list |
| Reports.SortSortedIsIdentity | src/App.js:2153 | sorting a newest-first list changes nothing |
| Reports.FilteredTransactionsSpec | src/App.js:2106-2156 | the view holds only rows of the list, each passing every criterion, all that pass, newest first |
| Reports.FilteredTransactionsIdempotent | src/App.js:2106-2156 | filtering the view again by the same criteria gives the same view |
| Reports.NoCriteriaKeepsAll | src/App.js:2106-2156 | with no criterion active the view is a permutation of the whole list |
| Reports.PersonFilterSound | src/App.js:2120-2131 | a row in a person-filtered view names that person as `person`, `from` or `to` |
| Reports.TotalsAreCurrencyTotals | src/App.js:2277-2288 | the totals row, the sum of the five type rows, is the total of every row in that currency |
| Reports.KindsTotalFive | src/App.js:2277-2288 | the totals row written out as the sum of the five type cells |
| Reports.DeliveryRowZero | src/App.js:2261-2265 | a delivery has no currency, so the delivery row of the summary stays at zero |
| Orders.OrderRows | src/App.js:1293-1298 | an order's rows are exactly JACK's buy rows with that order number, drawn from the list |
| Orders.OrderRowsSnoc | src/App.js:1293-1298 | a row added at the end comes last among its order's rows |
| Orders.DetailsOf | src/App.js:1300-1309 | the details have a date exactly when there are rows, and always a status |
| Orders.GetOrderDetails | src/App.js:1293-1310 | the details hold only that order's rows, have a date exactly when there are rows, and always a status |
| Orders.AddItemToOrder | src/App.js:1293-1310 | a new item of an order becomes its last row, adds its amount to the total, and sets the order's date and status |
| Orders.DetailsSnoc | src/App.js:1300-1309 | the last row decides the date and status and adds its amount |
| Orders.OtherRowLeavesOrder | src/App.js:1293-1310 | rows of other orders, owners or types do not change an order's details |
| Orders.AddOrder | src/App.js:1313-1327 | refused when the trimmed input is empty or already an order of JACK; otherwise the trimmed input becomes the selected order |
| Orders.NewOrderIsEmpty | src/App.js:1293-1327 | a freshly added order has no rows, total 0, no date and status "active" |
| Orders.OrderedNumberIsKnown | src/App.js:1282-1298 | an order with rows is one of JACK's order numbers |
| Orders.PackageRows | src/App.js:2697-2701 | a package's rows are exactly the deliveries with that number, drawn from the list |
| Orders.PackageDetailsSpec | src/App.js:2697-2702 | the package view holds exactly the deliveries of that package, newest first |
| Orders.PackageRowsInOrder | src/App.js:2697-2701 | the package's rows are the list's rows at increasing positions |
| Orders.PackageDetailsStable | src/App.js:2697-2702 | the package's rows keep list order, and within each date the view keeps that order |
| Edits.RemoveAt | src/App.js:2173 | removing a position shifts the later rows down by one and keeps the earlier ones |
| Edits.RemoveRow | src/App.js:1466 | removing an object keeps every other row and adds nothing |
| Edits.RemoveAbsentRow | src/App.js:1466 | removing an object that is not in the list changes nothing |
| Edits.RemoveRowKeepsDistinct | src/App.js:1466 | removing an object keeps identities distinct |
| Edits.RemoveRowIsRemoveAt | src/App.js:1466 | with distinct identities, removing the object at position `i` is removing position `i` |
| Edits.ReplaceRow | src/App.js:2796-2798 | every slot holding the object takes the new record and keeps its identity; the others are unchanged |
| Edits.ReplaceRowIsUpdateAt | src/App.js:2796-2798 | with distinct identities, replacing the object at position `i` is writing position `i` |
| Edits.UpdateBuyRows | src/App.js:1443-1451 | the edited buy row takes the four edited fields; every other row is unchanged |
| Edits.UpdateBuyKeepsOrders | src/App.js:1443-1451 | an item edit keeps every row's type, owner and order number |
| Edits.EditedBuyBufferSavesNothing | src/App.js:1440-1456 | an edit buffer that is no object of the list saves nothing |
| Edits.ReportsDeleteAsWritten | src/App.js:2163-2174 | as written, the delete succeeds exactly when the view index is a position of the full list, and removes the row at that position whatever the view shows |
| Edits.ReportsSaveEditAsWritten | src/App.js:2187-2215 | as written, the save succeeds exactly when the view index is a position of the full list and the validator accepts; the record goes to that position as a new object and every other position is unchanged |
| Edits.ReportsSaveEditWrongRow | src/App.js:2187-2215 | on the same two rows, saving an edit of the first view row (the newer) overwrites the older row and leaves the clicked one unchanged |
| Edits.ReportsDeleteWrongRow | src/App.js:2163-2174 | on two rows, deleting the first row of the view removes the other row |
| Edits.ReportsDelete | src/App.js:2163-2185 | a row is removed exactly when the index is in the view |
| Edits.ReportsDeleteRemovesShownRow | src/App.js:2163-2185 | the removed row is the one shown at `idx`; the others stay in their order |
| Edits.ReportsSaveEdit | src/App.js:2195-2215 | saved exactly when the index is in the view and the buy-aware validator accepts; the length is kept |
| Edits.ReportsSaveEditReplacesShownRow | src/App.js:2195-2215 | the row shown at `idx` takes the edited record in place; nothing else changes |
| Edits.BuyFormRowRefusedAsWritten | src/App.js:98-99 | a buy row with no quantity fails the global validator, though the buy-aware one accepts it |
| Edits.ValidateEditExtends | src/App.js:88-110 | the two validators agree except on buy rows, and the buy-aware one accepts all the original accepts |
| Directory.CleanIsTrimmed | src/App.js:663-671 | a clean name is exactly a non-empty string that is its own trim |
| Directory.DefaultPersonsWellFormed | src/App.js:3149 | the default person list is clean and duplicate-free |
| Directory.AddPerson | src/App.js:661-673 | refused for an all-whitespace name or a name already listed; otherwise the trimmed name is appended |
| Directory.AddPersonKeepsNames | src/App.js:661-673 | adding keeps the names clean and distinct |
| Directory.Without | src/App.js:654 | the filter drops that name, keeps the others, and adds nothing |
| Directory.DeletePerson | src/App.js:649-656 | done exactly when no row names the person as `person`, and then the list is the filtered one |
| Directory.WithoutKeepsDistinct | src/App.js:654 | filtering keeps the names distinct |
| Directory.DeletePersonKeepsNames | src/App.js:649-656 | deleting keeps the names clean and distinct and removes exactly that name |
| Directory.TransferPartyDeletable | src/App.js:649-656 | a person who appears only as a transfer's sender can be deleted while the balances map keeps an entry for them; a listed person who is deleted is no longer shown |
| Balances.ShownPersonsSpec | src/App.js:402 | the shown names are the listed names that pass the search, each as often as listed; an empty search shows the whole list |
| Directory.ShownWithout | src/App.js:402 | filtering by the search and removing a name commute |
| Directory.ShownTotalWithout | src/App.js:405-408 | removing a name from the shown names lowers a currency's total by that name's entry, once per occurrence |
| Directory.DeletedPersonLeavesDashboard | src/App.js:402-408 | after a delete, the name is not among the shown names, and each total card drops exactly that name's entry if it was shown |
| Directory.AddCategory | src/App.js:1410-1419 | done exactly when the input is not blank and its trimmed value is not taken; ignored for a blank name, refused for a taken value, and otherwise the trimmed name is appended as value and label |
| Directory.EditCategory | src/App.js:1421-1428 | applied exactly when an edit with a value and a label is given; the category with that value takes the edit |
| Directory.Relabel | src/App.js:1423-1425 | each category with the edited value is replaced; the others stay |
| Directory.DeleteCategory | src/App.js:1430-1433 | the filter drops that value, keeps the others, and adds nothing |
| Directory.CategoryEditsKeepDistinct | src/App.js:1410-1433 | adding, editing and deleting keep category values distinct |
| Directory.DeleteKeepsDistinct | src/App.js:1430-1433 | deleting keeps category values distinct |
| Transactions.Totals.Add | src/App.js:374-375 | adding `x` to one currency changes that currency only |
| Transactions.Totals.Plus | src/App.js:2284-2288 | adding two totals adds them currency by currency |

## Left out

- Rendering, routing, theming, translations, toasts and notifications are not modelled: they do not change the state.
- Login and the user list are not modelled. `user` is a parameter of every form.
- localStorage, backups, import, export, Excel and printing are left out: they are I/O.
- Charts and `toLocaleString` formatting are left out: they are display only.
- Receipt and box images are not modelled: they are browser object URLs.
- The clock is a parameter `now`, an integer timestamp. ISO date strings and their parsing are not modelled. The report's end-of-day bound assumes UTC.
- JavaScript numbers are `real`. Floating-point rounding is not modelled, and NaN is modelled only for `Number(undefined)` of a missing quantity.
- `Number(text)` of free text in the pay, transfer, buy and delivery forms is not modelled. A field is blank or holds an already parsed number (`JsValues.Field`). The receive form is modelled on its text, because `toEnglishDigits` leaves only digits.
- Forms.SubmitPay and Ledger.AppState.SubmitPay: on the direct path the source stores the cny amount re-parsed from its 2-decimal display string. The model stores amount times rate exactly.
- Ledger.AppState.AddCategory, Ledger.AppState.EditCategory, Ledger.AppState.DeleteCategory and Ledger.AppState.ConfirmNegativeBalance: the categories and the pending pair are kept in the class for the whole session. In the source they belong to the buy and pay screens, which return to the two default categories and to no pending pair whenever the screen is left. That reset is not modelled.
- The receive form's display-only `sum` field is not stored in the modelled record.
- `String.prototype.localeCompare` is modelled as plain character order, with no locale collation.
- Strings are sequences of Unicode scalar values (Dafny's `char`), not of UTF-16 code units. The two agree for characters up to U+FFFF. A character above U+FFFF is one `char` here and two code units in JavaScript. `trim` removes the ECMAScript whitespace and line terminators, and nothing else.
- Forms.Clip: `slice(0, 500)` counts UTF-16 code units. The model keeps 500 characters, so for text with characters above U+FFFF it can keep more than the source does. It never splits a surrogate pair, which the source can.
- Validation.ValidateDescriptionMeaning and Validation.ValidateInput: the 500 bound on 'description' is on the number of characters, not on the UTF-16 `length`.
- JsValues.StrLess: it orders strings by scalar value. JavaScript's `<` and default `sort` order them by code unit. The two orders disagree when a character above U+FFFF is compared with one from U+E000 to U+FFFF.
- `null` rows, unknown type strings and unknown currencies cannot be represented: records are a closed datatype. The `if (!tr) return` guards are therefore not modelled.
- Ledger.AppState.UpdateDelivery, Ledger.AppState.ReportsSaveEdit, Ledger.AppState.UpdateBuyItem and Edits.UpdateBuyRows: the edited record keeps the row's identity. The source stores a new object in that slot (for the buy item, the spread copy of line 1444). Nothing else in the modelled core compares that slot by identity before the next edit begins from the new object.
- Ledger.AppState.ReportsSaveEdit: the reports edit row changes `type` by spreading the edit buffer (lines 2468-2470), and writes `person` whatever the type (lines 2486-2489). The source can therefore store a record that keeps the old type's fields, or a transfer or delivery with a `person`. Records here are a closed datatype and hold only their own type's fields, so the model cannot store such a record. The names screen, the person filter and the persons screen's delete guard would see those extra fields; Reports.NamedIn, Reports.MatchesPerson and Directory.HasPerson cannot.
- `safeCalculate` and the `try`/`catch` blocks are not modelled: nothing in the modelled core throws.
- The `products` state and the sample pages under `src/app/` are not modelled: they are not part of the core.
- Ledger.AppState.Summary: over the filtered view, each summary cell is stated as a fold. Cells are not compared with a second, independent computation.

## Findings

| source | as written | input that shows it | evidently intended | confidence | as-written member | corrected member |
|---|---|---|---|---|---|---|
| src/App.js:2163-2215 | the reports delete and edit take the index of the clicked row in the filtered, date-sorted view, and use it as a position in the full list (lines 2166, 2173, 2188, 2203) | two receipts, the older first, no filter: the view shows the newer first, and deleting or editing that view row removes or overwrites the older one | remove or replace the row that was clicked | high, not executed | Edits.ReportsDeleteWrongRow, Edits.ReportsSaveEditWrongRow | Edits.ReportsDeleteRemovesShownRow, Edits.ReportsSaveEditReplacesShownRow |
| src/App.js:1918-1953 | the transfer screen's sender balance subtracts `Number(tr.quantity)` for buy rows; buy-form rows have no quantity, so the balance becomes NaN and the `<` guard never refuses | JACK receives 10 cny and buys an item for 5 cny; a transfer of 100 cny from JACK is accepted | subtract the buy row's amount, as the buy screen's own balance does (lines 1240-1241) | high, not executed | Forms.TransferOverdraftAsWritten | Forms.TransferKeepsSenderSolvent |
| src/App.js:88-110 | the global validator's buy case requires a truthy `quantity`, which buy-form rows never have, so every reports edit of a buy row is refused (line 2196) | any buy row made by the buy form, with any amount | accept a buy row with an order number and a truthy amount or quantity | medium, not executed | Edits.BuyFormRowRefusedAsWritten | Edits.ValidateEditExtends |
| src/App.js:1440-1456 | each keystroke in the item edit row stores a spread copy of the buffer (lines 1743-1796), so after any typing the buffer is no object of the list, and `tr === editingTransaction` matches nothing | start editing an item and type one character in its amount: the row leaves edit mode (lines 1739, 1808), its save button is gone, and the typed value can no longer be saved | update the row the edit began from | high, not executed | Edits.EditedBuyBufferSavesNothing | Ledger.AppState.UpdateBuyItem |

On the first row, Edits.ReportsDeleteAsWritten and Edits.ReportsSaveEditAsWritten model the delete and the edit as written. Edits.ReportsDeleteWrongRow and Edits.ReportsSaveEditWrongRow exhibit the wrong row on two receipts. Edits.ReportsDeleteRemovesShownRow and Edits.ReportsSaveEditReplacesShownRow prove the intended behaviour. The state methods Ledger.AppState.ReportsDelete and Ledger.AppState.ReportsSaveEdit use the corrected definitions. On the second row, Ledger.AppState.SubmitTransfer uses the corrected guard, Forms.SubmitTransfer.

Other places where the code behaves differently from what one might expect follow the code:

- The persons screen's delete checks only `person`, not transfer ends: Directory.TransferPartyDeletable. The deleted name then leaves the dashboard's table and total cards, which go over the person list only: Directory.DeletedPersonLeavesDashboard.
- An order's status comes from its last row in list order.
- A JACK-to-JACK transfer moves the buy screen's balance: Balances.JackSelfTransferDiverges.
