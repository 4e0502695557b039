# Retail backend: shop transactions, shifts, phone mask and SQL scripts

This project models the core of a small retail back office. The back office is a
Flask web application over PostgreSQL, with a few command-line SQL scripts. Dafny
proves properties of the model.

The main part is the shop transaction engine behind the JSON API. Its state is:

- the store stock and the warehouse stock, maps from (place, product) to quantity;
- the shift table;
- the append-only list of operations (sales and returns) with their item rows;
- the notification list;
- the product and employee tables.

The database is a `Tables.Database` object. Every handler is a method over it. A
handler checks its guards first and then writes one batch. The batch is computed
on locals and assigned at once, because one `with db.cursor()` block commits
everything or nothing.

The model covers:

- the shift controls (current, open, close, with the inclusive expiry rule);
- sales, with pricing, the stock check, stock decrements and low-stock notices;
- the view of a sale's rows for a return, with what remains to return;
- returns;
- receipts and distributions between warehouses and stores;
- report netting for a date range and for one shift.

Three more handlers also create or close shifts:

- the seller main page, which opens a shift when none is open and closes an expired one;
- login, which checks credentials, fills the session and opens a seller's shift;
- logout, which clears the session and closes the seller's latest open shift.

The text-processing cores are:

- the browser's phone mask: `digitsOnly`, `formatPhone` and `validatePhone`;
- the server's phone rule, and how it differs from the browser's;
- the SQL literal encoder and per-table emitter of the data export script;
- the `;`-and-comment command splitter of the dump importer;
- the line-based statement splitter, with `DO $$ … END $$` block mode, of the
  schema creator.

The invariant the API handlers keep is `ApiRoutes.Consistent`:

- both stock tables are non-negative;
- each (employee, store) pair has at most one open shift;
- every return points to an earlier sale;
- the returned quantity of each product never exceeds the quantity sold;
- every stored profit is revenue minus cost.

Sales and returns keep the stock and return facts only when each product is
named once in the request (`DistinctLines`, `DistinctRequest`). Counterexample
lemmas show what goes wrong otherwise. Shift, operation and employee ids are the
row's position in its table plus one, as a serial column gives them.

## Model

| member | source | states |
|---|---|---|
| Shifts.ShiftDurationSeconds | routes/api_routes.py:9-10 | the shift length is SHIFT_DURATION_SECONDS when it is set, otherwise SHIFT_DURATION_HOURS × 3600 |
| Shifts.ExpiryInclusive | routes/api_routes.py:438-446 | a shift is expired exactly when elapsed ≥ duration: it is expired at the duration and not one second before |
| Shifts.LatestOpen | routes/api_routes.py:428-437 | the index found is an open shift of the (employee, store) pair and no later row is one; None means the pair has no open shift |
| Shifts.OpenShiftUnique | routes/api_routes.py:460-465 | when each pair has at most one open shift, that shift is the one the lookup finds, so the unordered lookup has a single answer |
| Shifts.CloseAt | routes/api_routes.py:441-444 | closing a row keeps the table's length and the row's employee and store, marks it closed, and leaves every other row unchanged |
| Shifts.CloseKeepsOneOpen | routes/api_routes.py:481-488 | closing a shift keeps at most one open shift per pair |
| Shifts.CloseLatestLeavesNone | app.py:115-124 | once the latest open shift of a pair is closed, the pair has no open shift, given the one-open invariant |
| Shifts.OpenIfMissingSpec | routes/seller_routes.py:21-30 | at most one row is added and the old rows are kept; afterwards a pair with a store has an open shift, and opening again adds nothing |
| Shifts.OpenIfMissingKeepsOneOpen | routes/api_routes.py:460-472 | open-if-missing keeps at most one open shift per pair |
| Shifts.WorkTime | routes/api_routes.py:447-448 | hours and minutes are the whole hours and the leftover whole minutes of the elapsed seconds |
| ApiRoutes.CurrentShiftOf | routes/api_routes.py:422-452 | no open shift gives none; an expired latest open shift is closed and reported as closed; otherwise it is returned with its work time; only the shift table changes and Consistent is kept |
| ApiRoutes.OpenShiftFor | routes/api_routes.py:455-472 | an open shift is returned without a new row; otherwise one open shift is appended and its id returned |
| ApiRoutes.CloseShift | routes/api_routes.py:475-489 | succeeds exactly for an open shift of the caller's employee id and store, closing only it; in every other case nothing changes |
| Sales.PriceLine | routes/api_routes.py:585-594 | a kept line carries the product's retail price and purchase price |
| Sales.SaleLines | routes/api_routes.py:580-600 | the kept lines are priced from the product table and are never more than the request lines |
| Sales.SaleLinesEmpty | routes/api_routes.py:561-563 | no line is left exactly when every request line lacks a product id, has quantity ≤ 0 or names an unknown product |
| Sales.SaleLinesConcat | routes/api_routes.py:580-600 | lines are kept one by one, in request order |
| Sales.LineMoney | routes/api_routes.py:591-595 | a line's profit is its revenue minus its cost |
| Sales.TotalsProfit | routes/api_routes.py:596-600 | the total profit is the total revenue minus the total cost |
| Sales.TotalsConcat | routes/api_routes.py:596-600 | totals are sums over the lines |
| Sales.ItemOf | routes/api_routes.py:618-620 | an item row (corrected) records the unit price, the unit cost and the line's revenue, cost and profit |
| Sales.ItemAsWritten | routes/api_routes.py:617-620 | the row the handlers write: unit price, unit cost in both `purchase_price` and `cost`, line revenue and line profit |
| Sales.Items | routes/api_routes.py:617-620 | one written item row per kept line, in order |
| Sales.CorrectedItems | routes/api_routes.py:617-620 | one corrected item row per kept line, in order |
| Sales.ItemsDifferInCostOnly | routes/api_routes.py:618-620 | the written rows differ from the corrected rows in the `cost` column only |
| Sales.ItemsMatchTotals | routes/api_routes.py:611-620 | the corrected item rows add up to the operation's totals |
| Sales.WrittenItemsMatchRevenueAndProfit | routes/api_routes.py:611-620 | the written rows' revenue and profit add up to the operation's totals |
| Sales.Shortage | routes/api_routes.py:601-608 | the stock check fails exactly when some line is not covered by the store stock (absent row = 0); it reports the stock of the first such line |
| Sales.DebitAllQty | routes/api_routes.py:622-625 | each product's store stock drops by the total quantity of its lines, and other stores are untouched |
| Sales.LineQtyDistinct | routes/api_routes.py:622-625 | with distinct products, a product's total is its one line's quantity |
| Sales.CheckedRowsExist | routes/api_routes.py:601-608 | lines that pass the stock check have existing stock rows |
| Sales.SaleKeepsStockNonNegative | routes/api_routes.py:601-625 | with distinct products, each line's stock drops by exactly its quantity and the stock stays non-negative |
| Sales.DuplicateSaleLinesGoNegative | routes/api_routes.py:601-608 | two lines of the same product each pass the stock check against the pre-sale stock, and the stock ends at −1 |
| Sales.CreditAllQty | routes/api_routes.py:818-822 | a return raises each product's store stock by its total quantity, and positive lines keep the stock non-negative |
| Sales.LowStockAlertsSpec | routes/api_routes.py:626-637 | a notice exists exactly for a sold product whose post-sale store stock is below the threshold, and it records that stock and the threshold |
| Sales.SoldMapSpec | routes/api_routes.py:740-747 | a product is in the sold map exactly when the sale has a row of it, and its value is the quantity of its last row |
| Sales.SoldMapLastRowWins | routes/api_routes.py:747 | two rows of one product: the map keeps only the later quantity |
| Sales.QtyOfItems | routes/api_routes.py:814-816 | the item rows of a return carry its lines' quantities per product |
| Sales.Remaining | routes/api_routes.py:713-716 | remaining = max(0, sold − already returned) |
| Sales.ReturnWantedRejects | routes/api_routes.py:758-768 | a return is rejected exactly when some considered line names a product outside the sale or exceeds what remains |
| Sales.ReturnWantedSpec | routes/api_routes.py:758-768 | every accepted line is a considered request line with its product and quantity, within what remains |
| Sales.ReturnWantedDistinct | routes/api_routes.py:758-768 | a request naming each product once gives accepted lines that do too |
| Sales.PricedLinesQty | routes/api_routes.py:784-801 | pricing a return keeps at most the accepted quantity of each product |
| Sales.PricedLinesPositive | routes/api_routes.py:784-801 | priced return lines keep positive quantities |
| Sales.ReturnWithinRemaining | routes/api_routes.py:758-816 | with a distinct request, the recorded quantity of each product is at most what remains to return |
| Sales.ReturnedQtyAppend | routes/api_routes.py:713-716 | a new operation adds to a sale's returned quantity only when it is a return of that sale |
| Sales.AppendSaleKeeps | routes/api_routes.py:609-620 | appending a sale keeps returns pointing back and within what was sold |
| Sales.AppendReturnKeeps | routes/api_routes.py:802-816 | appending a return within what remains keeps returns pointing back and within what was sold |
| Sales.DuplicateReturnLinesPass | routes/api_routes.py:758-767 | a line that passes alone also passes twice, because each copy is compared with the same remainder, so twice the remainder can be returned |
| ApiRoutes.PriceSale | routes/api_routes.py:580-600 | the pricing loop computes exactly the kept lines and their totals |
| ApiRoutes.FindShortage | routes/api_routes.py:601-608 | the stock loop finds exactly the first shortage |
| ApiRoutes.WriteSaleLines | routes/api_routes.py:617-625 | the write loop yields the written item rows (unit cost in `cost`) and the debited stock |
| ApiRoutes.CollectAlerts | routes/api_routes.py:626-637 | the notice loop yields exactly the low-stock notices |
| ApiRoutes.SaleOperation | routes/api_routes.py:609-615 | the sale row is a sale with no original, its written item rows, and the line totals |
| ApiRoutes.CreateSale | routes/api_routes.py:555-638 | an empty or unpriceable request, no open shift and a shortage are rejected with nothing written; an expired shift is closed, which is the only change; otherwise stock, operation (with the written item rows) and notices are written together; Consistent is kept for distinct lines |
| ApiRoutes.RecordSale | routes/api_routes.py:580-637 | the pricing, stock check and write part of a sale, with the same outcomes and the written item rows |
| ApiRoutes.SaleKeepsConsistent | routes/api_routes.py:601-625 | a recorded sale keeps the stock non-negative (distinct lines), returns within sales, and profits consistent |
| ApiRoutes.ViewOf | routes/api_routes.py:713-719 | a row shows its product, its quantity, the returned quantity of its product, and the remainder |
| ApiRoutes.OperationItems | routes/api_routes.py:684-722 | rows are shown exactly for a sale of the caller's store, one view per item in order |
| ApiRoutes.ViewsAddUp | routes/api_routes.py:713-716 | in a sale naming each product once, returned plus remaining is the row's quantity |
| ApiRoutes.SoldOf | routes/api_routes.py:740-747 | the loop builds exactly the sold map |
| ApiRoutes.ValidateReturn | routes/api_routes.py:758-768 | the loop accepts or rejects exactly as the validation rule does |
| ApiRoutes.ReturnWantedStaysRejected | routes/api_routes.py:758-768 | a rejected prefix rejects the whole request, so the loop may stop early |
| ApiRoutes.PriceReturn | routes/api_routes.py:784-801 | the loop computes exactly the priced return lines and totals |
| ApiRoutes.WriteReturnLines | routes/api_routes.py:812-822 | the loop yields the written item rows (unit cost in `cost`) and the credited stock |
| ApiRoutes.ReturnOperation | routes/api_routes.py:804-811 | the return row is a return pointing at its sale, with its written item rows and the line totals |
| ApiRoutes.CreateReturn | routes/api_routes.py:725-828 | each guard's rejection writes nothing except the expired-shift close; otherwise the return with its written item rows and the stock upserts are written and no notice is raised; Consistent is kept for a distinct request |
| ApiRoutes.RecordReturn | routes/api_routes.py:784-828 | the pricing and write part of a return, with a rejection when no line is priced, storing the written item rows |
| ApiRoutes.ReturnKeepsConsistent | routes/api_routes.py:758-822 | a recorded return keeps the stock non-negative, returns within sales (distinct request) and profits consistent |
| ApiRoutes.CreateReceipt | routes/api_routes.py:831-869 | a positive quantity of a product arrives at the store when a store id is given, else at the warehouse; invalid input changes nothing |
| ApiRoutes.UpsertKeepsNonNegative | routes/api_routes.py:846-862 | a positive upsert keeps a stock table non-negative |
| ApiRoutes.CreateDistribution | routes/api_routes.py:872-906 | rejected when the source holds less than the quantity; otherwise the source drops by it and the destination (store preferred) rises by it; a rejection changes nothing |
| ApiRoutes.DistributionKeepsNonNegative | routes/api_routes.py:882-905 | a covered decrement keeps the source row and the table non-negative |
| ApiRoutes.ServerPhoneError | routes/api_routes.py:37-46 | blank text is accepted; other text is an error exactly when fewer than 10 digits are left once one leading 7 or 8 is dropped |
| ApiRoutes.DigitsOnlyStrip | routes/api_routes.py:38-41 | stripping white space keeps the digits |
| ApiRoutes.PhoneChecksAgree | routes/api_routes.py:37-46 | the server and page checks differ exactly on non-blank text with no national digit |
| Tables.Upsert | routes/api_routes.py:818-822 | an upsert adds the quantity to the key's row (creating it at 0) and leaves every other key unchanged |
| Tables.Decrement | routes/api_routes.py:622-625 | a decrement lowers an existing row by the quantity, ignores a missing row, and leaves every other key unchanged |
| Reports.NetIsSignedSum | routes/api_routes.py:948-966 | sale sums minus return sums equal the signed sum of the selected operations |
| Reports.NetAppend | routes/api_routes.py:948-966 | one more selected operation adds to or subtracts from the net by its kind |
| Reports.NetProfit | routes/api_routes.py:948-966 | when every operation's profit is revenue minus cost, so is the net profit |
| Reports.Margin | routes/api_routes.py:966 | the margin is 0 for zero revenue, otherwise profit / revenue × 100 |
| Reports.ReportSummary | routes/api_routes.py:941-974 | over the operations within the inclusive date bounds, the net revenue, cost and profit are the signed sum of sales and returns, the margin is taken of that net, and the sale and return revenues are their kinds' sums, net revenue being their difference |
| Reports.ShiftEntriesSpec | routes/api_routes.py:510-516 | the listed entries are exactly the shift's operations with their kind, totals and original sale |
| Reports.ShiftReportOf | routes/api_routes.py:492-552 | an unknown shift id gives no report; otherwise the net is the signed sum of the shift's operations |
| SellerRoutes.SellerNav | routes/seller_routes.py:8-13 | the two entries in order, each active exactly when its endpoint is the active one |
| SellerRoutes.SellerNavOneActive | routes/seller_routes.py:8-13 | at most one entry is active, and one is exactly when the active endpoint names an entry |
| SellerRoutes.SellerMain | routes/seller_routes.py:16-61 | a shift is inserted only when none is open; an expired one is closed and the page redirects to its report; otherwise the page shows the shift with elapsed div 3600 hours; a seller with a store always sees a shift, and one the visit opens is shown with 0 hours when the duration is positive |
| SellerRoutes.ShiftReportPage | routes/seller_routes.py:71-76 | a missing or zero shift id redirects to login; any other is shown |
| App.Session.Clear | app.py:74 | clearing empties the session and resets `permanent` |
| App.FindActive | app.py:65-68 | the first active employee with the login, or none when there is none |
| App.Authenticate | app.py:61-72 | a blank stripped login or blank password is rejected before the lookup; acceptance needs an active employee whose hash matches; an unknown login and a wrong password give the same error |
| App.Login | app.py:55-92 | a rejected login changes nothing; otherwise the session holds exactly user_id, role and store_id and is permanent; an admin gets no shift; another role opens one only when none is open; Consistent is kept |
| App.Logout | app.py:107-126 | the session is cleared first; a seller with a store has the latest open shift closed and goes to its report; otherwise to login with no change; afterwards the pair has no open shift |
| App.WithDefaultAdmin | app.py:31-42 | the result has an "admin" login, keeps every row, and adds at most one |
| App.WithDefaultAdminOnce | app.py:33-42 | the default admin is added exactly when no employee has the login "admin", so initialising twice changes nothing more |
| App.InitAdminUser | app.py:31-42 | the employee table becomes the table with the default admin; nothing else changes |
| PhoneMask.DigitsOnly | static/js/phone-mask.js:2-4 | the result consists of digits and is no longer than the input |
| PhoneMask.DigitsOnlyConcat | static/js/phone-mask.js:2-4 | taking digits distributes over concatenation, so characters are kept in order |
| PhoneMask.DigitsOnlyFixed | static/js/phone-mask.js:2-4 | the input comes back unchanged exactly when it is all digits |
| PhoneMask.NationalDigits | static/js/phone-mask.js:8 | at most one leading 7 or 8 is dropped |
| PhoneMask.KeptDigits | static/js/phone-mask.js:7-9 | at most ten digits are kept |
| PhoneMask.KeptDigitsSpec | static/js/phone-mask.js:7-9 | the kept digits are the first ten (or all) of the national digits |
| PhoneMask.FormatPhoneDigits | static/js/phone-mask.js:6-14 | the result is '' exactly when no national digit is left; otherwise it starts with "+7 (" and its digits are a 7 and the kept digits |
| PhoneMask.MaskDigits | static/js/phone-mask.js:10-13 | each template's digits are a 7 and the kept digits, and only no digits give '' |
| PhoneMask.FormatPhoneTen | static/js/phone-mask.js:13 | ten digits give "+7 (ddd) ddd-dd-dd" |
| PhoneMask.FormatPhoneIdempotent | static/js/phone-mask.js:6-14 | formatting a formatted value returns it unchanged |
| PhoneMask.ValidatePhoneAsWritten | static/js/phone-mask.js:16-23 | no national digit gives valid and ''; 1-9 give invalid and ''; ten or more give valid with the kept digits formatted again |
| PhoneMask.ValidatePhoneLosesDigit | static/js/phone-mask.js:21-22 | as written, a ten-digit national number starting with 7 or 8 comes back with only nine of its digits |
| PhoneMask.ValidatePhone | static/js/phone-mask.js:16-23 | the same three outcomes, with the formatted input as the value (corrected) |
| PhoneMask.ValidatePhoneKeepsNumber | static/js/phone-mask.js:21-22 | an accepted number keeps its first ten national digits and is a fixed point of the mask (corrected) |
| ExportLocalDb.IntStrReads | export_local_db.py:55-56 | an integer's text reads back as the same integer |
| ExportLocalDb.EscapeCons | export_local_db.py:51-54 | escaping works character by character |
| ExportLocalDb.ReadBodyEscaped | export_local_db.py:51-54 | the escaped text, then a closing quote, reads back as the original string, stopping at the first undoubled quote |
| ExportLocalDb.StrLiteralReads | export_local_db.py:51-54 | a string literal reads back as the string |
| ExportLocalDb.ScalarLiterals | export_local_db.py:49-58 | None is NULL; integers read back; a bool takes the integer branch and prints True or False, never TRUE or FALSE |
| ExportLocalDb.OtherLiteralReads | export_local_db.py:61-64 | without backslashes, the other-value encoding equals the string encoding and reads back |
| ExportLocalDb.Literals | export_local_db.py:46-64 | one literal per column value, in order |
| ExportLocalDb.TableExportShape | export_local_db.py:34-68 | an empty table gives only its comment; otherwise one TRUNCATE and then one INSERT per row, in row order |
| ExportLocalDb.RowValues | export_local_db.py:47-64 | the column loop builds exactly the row's literals |
| ExportLocalDb.ExportTableData | export_local_db.py:28-70 | the row loop writes exactly the table's export lines |
| ExportLocalDb.TablesOrderParentsFirst | export_local_db.py:13-25 | every table an id column refers to comes earlier in the export order |
| ImportToPrefixedDb.CleanLines | import_to_prefixed_db.py:190-198 | the line loop keeps exactly the surviving lines |
| ImportToPrefixedDb.SplitCommands | import_to_prefixed_db.py:184-200 | the piece loop builds exactly the commands |
| ImportToPrefixedDb.KeptLineShape | import_to_prefixed_db.py:191-198 | a kept line is non-empty, stripped and free of `--`, and has only characters of the input line |
| ImportToPrefixedDb.KeptLinesShape | import_to_prefixed_db.py:190-198 | every surviving line is clean |
| ImportToPrefixedDb.PieceCommandWellFormed | import_to_prefixed_db.py:186-200 | a command is non-empty, has no `;`, and each of its lines is clean |
| ImportToPrefixedDb.ImportCommandsWellFormed | import_to_prefixed_db.py:184-200 | every command the script runs is well formed |
| ImportToPrefixedDb.ImportCommandsConcat | import_to_prefixed_db.py:185-200 | commands keep input order: text joined at a `;` gives the commands of each side in turn |
| ImportToPrefixedDb.LeadingCommentDropsStatement | import_to_prefixed_db.py:188 | a piece starting with `--` is dropped whole, even with a statement after the comment line |
| ImportToPrefixedDb.SetPieceDropped | import_to_prefixed_db.py:188 | a piece starting with `SET` is dropped |
| PyStr.StripSpec | import_to_prefixed_db.py:186 | stripping removes exactly the leading and trailing white space, with white space as `str.isspace` defines it, Unicode spaces included |
| PyStr.StripIdempotent | import_to_prefixed_db.py:196 | stripping again changes nothing |
| PyStr.SplitJoin | import_to_prefixed_db.py:185 | joining the pieces of a split with the separator gives back the text |
| PyStr.JoinSplit | import_to_prefixed_db.py:199-200 | splitting a join of separator-free parts gives back the parts |
| CreatePrefixedSchema.Turn | create_prefixed_schema.py:156-189 | one turn of the loop updates the commands, the current text and the block flag as the step rule says |
| CreatePrefixedSchema.SplitSchemaCommands | create_prefixed_schema.py:150-193 | the loop and its end produce exactly the script's commands |
| CreatePrefixedSchema.SchemaCommandsClean | create_prefixed_schema.py:176-193 | every command is non-empty and stripped |
| CreatePrefixedSchema.StepKeepsCommands | create_prefixed_schema.py:157-189 | a turn keeps every finished command in order and adds at most one |
| CreatePrefixedSchema.FoldKeepsCommands | create_prefixed_schema.py:157-189 | over any run of lines the finished commands stay a prefix, in order, and each line adds at most one |
| CreatePrefixedSchema.SchemaCommandsKeepOrder | create_prefixed_schema.py:156-193 | the commands a script's opening lines finish come first, in order, whatever follows |
| CreatePrefixedSchema.CommentLineIgnored | create_prefixed_schema.py:160-161 | removing a comment line does not change the commands, in or out of a block |
| CreatePrefixedSchema.DoStartDiscardsPending | create_prefixed_schema.py:164-168 | a `DO $$` line starts block mode, keeps the finished commands, and discards the pending text |
| CreatePrefixedSchema.BlockAccumulates | create_prefixed_schema.py:171-179 | in block mode, lines that do not end the block accumulate |
| CreatePrefixedSchema.DoBlockIsOneCommand | create_prefixed_schema.py:164-179 | a DO line, its body and an `END $$ …;` line yield exactly one command, the stripped block |
| CreatePrefixedSchema.UnterminatedBlockIsLastCommand | create_prefixed_schema.py:191-193 | a `DO $$` block never closed runs to the end and becomes the last command, the stripped block |
| CreatePrefixedSchema.StatementAccumulates | create_prefixed_schema.py:182-189 | outside a block, lines not ending with `;` accumulate |
| CreatePrefixedSchema.StatementIsOneCommand | create_prefixed_schema.py:182-189 | lines ending at a `;` line yield one command, the stripped text, unless it is blank |
| CreatePrefixedSchema.WordBoundaryRequired | create_prefixed_schema.py:164 | `DO` must stand as a word: "UNDO $$" does not start a block, "DO $$" does |
| Common.FlatMapConcat | import_to_prefixed_db.py:185-200 | the commands of two runs of pieces are the commands of each in turn |
| Common.FoldConcat | create_prefixed_schema.py:156-189 | running the loop over two runs of lines is running it over each in turn |

## Left out

- Flask plumbing is not modelled: routing, JSON parsing and responses, HTTP status codes, templates and redirects. Outcomes are result datatypes.
- Role gating (`auth_util.py`, `require_admin`/`require_seller`, `_require_admin`/`_require_seller`) is not modelled. The handlers take the calling `Seller` as a parameter.
- SQL text and psycopg2 are not modelled. Each `with db.cursor()` block is taken as all-or-nothing. Each separate `execute` is its own committed step, which is why an expired-shift close persists when a sale or return is rejected.
- Concurrency is not modelled: the race between the stock check and the decrement commit, and isolation levels.
- Floating point and rounding are not modelled. Money is in integer cents and `_round_money` is the identity.
- Reports.Margin: the percentage is an exact real; the rounding of `_round_percent` is left out.
- The wall clock is not modelled. The elapsed seconds of the shift and the current day are parameters. Display strings (`strftime`, `isoformat` of timestamps, seller and store names of the shift report) are left out.
- Password hashing is not modelled: `check_password_hash` is the `checkHash` parameter of `App.Authenticate`, and `generate_password_hash` of the default password is the `passwordHash` parameter of `App.InitAdminUser`.
- The configuration module is not part of this model. SHIFT_DURATION_SECONDS, SHIFT_DURATION_HOURS and LOW_STOCK_THRESHOLD are fields of `Tables.Config`.
- Lookups the source runs without ORDER BY (the open shift of a pair, the first active employee with a login, the item rows of a sale offered for return) are modelled as the latest or first row by position. Under the one-open-per-pair invariant the shift lookup has a unique answer (`Shifts.OpenShiftUnique`). When a sale names a product twice, the row whose quantity `Sales.SoldMap` keeps depends on the database's row order; the model keeps the last recorded row, and the return limits that rely on it are stated for sales with distinct products.
- App.Login: the GET branch that redirects a user who is already logged in is left out; only the form submission is modelled.
- App.FindActive: logins are compared as exact strings.
- ApiRoutes.ServerPhoneError: Python's `str.isdigit` also accepts non-ASCII digits; the model counts the ASCII digits only, as the page's `\d` does.
- The regex-based table renaming (`add_prefix_to_sql`, `replace_table_names_in_sql`) depends on the `re` engine and is not modelled.
- The scripts' I/O is not modelled: argument handling, reading and writing files, printing, the database connection, count checks, and the heuristics that ignore some execution errors.
- ExportTableData: the `except` branch, which writes an error comment, is left out, because it depends on database errors. The header lines of `main`, the `SET client_encoding` line and the progress messages are left out too.
- ExportLocalDb.Literal: the text of `str(float)` and of `isoformat()` is taken as a given string (`Float(repr)`, `Temporal(iso)`), because float printing and date formatting are not modelled.
- ExportLocalDb.ReadBody: the reader undoes doubled quotes and doubled backslashes. This is how a server without `standard_conforming_strings` would read the literal. A standard-conforming server would keep both backslashes.
- The page scripts `stores.js` and `warehouses.js`, and `onPhoneInput`/`initPhoneMask` in `phone-mask.js`, are not modelled. They handle the DOM, fetch and the cursor.
- `routes/admin_routes.py` is not modelled: page rendering, navigation, the categories schema fallback, and a low-stock filter that is one SQL query.
- Plain CRUD of stores, warehouses, products, categories and employees is not modelled, nor is the `report_sales` row listing. The product and employee tables are read as given.
- The sale and return stock facts hold only for requests that name each product once. This is stated as the `DistinctLines` or `DistinctRequest` condition of the Consistent ensures of `ApiRoutes.CreateSale` and `ApiRoutes.CreateReturn`, and shown by `Sales.DuplicateSaleLinesGoNegative` and `Sales.DuplicateReturnLinesPass`.
- ApiRoutes.OperationItems: rows are listed in recording order, not sorted by product id. Product names and the money columns of the view are left out.
- ApiRoutes.CreateReturn: the `except` branch that reports a database error is left out. The one call that could fail there is the insert, and the model takes the table's columns as present.
- ApiRoutes.CreateReceipt: ids are integers or absent. An empty-string id, which the distribution handler treats as absent, is read as absent.
- CreatePrefixedSchema.DoStart: the `DO $$` and `END $$` regular expressions are modelled as case-insensitive searches for the keyword as a whole word followed by white space and `$$`. The word boundary `\b` uses an ASCII `\w`.
- CreatePrefixedSchema.WordChar: Python's `\w` also matches non-ASCII letters and digits. The model's `\w` is ASCII only, so a line such as "ЯDO $$" opens a block in the model but not in the source.
- ApiRoutes.CreateReceipt: ids are assumed to name existing rows. The `except` branch, which rolls back and rejects when the database refuses an insert (for instance a product or store id that the schema's REFERENCES clauses reject), is left out; the model refuses only the NULL warehouse key.
- ApiRoutes.CreateDistribution: ids are assumed to name existing rows, as for receipts. A `with db.cursor()` block that the database rolls back over an unknown id is recorded as `Moved` in the model.
- SellerRoutes.SellerMain: the age of a shift inserted by the same visit is taken as exactly 0 seconds. In the source it is the time between the INSERT and the SELECT.

## Findings

| source | as written | input that shows it | evidently intended | confidence | as-written member | corrected member |
|---|---|---|---|---|---|---|
| routes/api_routes.py:618-620, 814-816 | the `cost` column of an item row receives the unit purchase price, while `total_price` and `profit` are line totals | a line of 2 units at price 1000 and unit cost 600: cost 600, profit 800, total price 2000, so profit ≠ total price − cost | `cost` = unit cost × quantity (1200), so that the row's profit is its revenue minus its cost | medium, not executed | Sales.ItemAsWritten with Sales.ItemAsWrittenCostIsUnitCost | Sales.ItemOf with Sales.CorrectedItems and Sales.ItemsMatchTotals |
| static/js/phone-mask.js:21-22 | `validatePhone` passes the already national digits to `formatPhone`, which drops a leading 7 or 8 a second time | "88005553535" (national number 800 555-35-35) comes back as "+7 (005) 553-53-5", losing a digit | the value is the formatted input, keeping all ten national digits | high, not executed | PhoneMask.ValidatePhoneAsWritten with PhoneMask.ValidatePhoneLosesDigit | PhoneMask.ValidatePhone with PhoneMask.ValidatePhoneKeepsNumber |

The handlers store the item rows as written (`Sales.Items`, built from `Sales.ItemAsWritten`); no invariant of the model reads an item's `cost`. The corrected rows (`Sales.CorrectedItems`) are the reference the cost finding is proved against, and `Sales.ItemsDifferInCostOnly` shows the two row lists differ in that column alone.
