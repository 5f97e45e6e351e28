# sqlite-react-app: a verified model of the REST core

The back end of this coffee-shop application is an Express server over
SQLite. It has:

- an order ledger (`routes/orders.js`);
- a menu catalog with uploaded images (`routes/menu.js`);
- a table registry with one QR image per table (`routes/tables.js`);
- a QR folder listing (`routes/qr.js` and `server.js`);
- an admin login with a bearer-token gate (`routes/auth.js`);
- the database setup that creates, migrates and seeds the tables (`db.js`).

The model keeps each SQLite table as a map from row id to row, with an
AUTOINCREMENT counter `lastId`. It keeps each folder of files as a set or a
map of file names. A handler that changes state is a method on a class that
holds those fields and states its whole new state; the one exception is
server.js's `/generate-qr/:table`, a function (see "## Left out"). A handler
that only reads is a function, except `Tables.Registry.Find`: it picks the one matching row
out of the registry's map, so it is a method that changes nothing.

The hostname, the Authorization header, the outcome of token verification,
the upload file name, the time and the success of each file write are
parameters.

Files:

- `js.dfy` (`Js`): the JavaScript semantics the handlers depend on. This
  covers truthiness, template-string text, `parseInt` and `Number` on
  decimal text, and `<= 0`.
- `sql.dfy` (`Sql`): the SQLite semantics they depend on. This covers how
  node-sqlite3 binds a parameter, the type affinity of INTEGER columns, SQL
  `=` and `!=` with NULL, and what `WHERE id = ?` selects for a route
  parameter.
- `http.dfy` (`Http`): a reply (status plus optional body), and the
  `checkLocalhost` test.
- One module per source file: `orders.dfy`, `menu.dfy`, `tables.dfy`,
  `auth.dfy`, `qr.dfy`, `server.dfy` and `db.dfy`.

Behaviours the model makes explicit:

- Orders carry two independent one-way flags, `status` and
  `payment_status`. Every state-changing handler only moves orders along
  them (`Orders.Progress`).
- POST `/api/tables` names the QR file after the number as the request
  spelled it. DELETE names it after the number read back from the INTEGER
  column. A number sent as `"05"` is stored as 5, so the delete looks for
  `table_5.png` and leaves `table_05.png` behind
  (`Tables.LeadingZeroOrphansQr`).
- `/list-qr` reads the table back from a file name with two first-occurrence
  `replace` calls. This inverts `table_<n>.png` when `n` contains no ".png"
  (`Qr.TableOfFileName`); some tables that contain it, such as "a.png", are
  read back too. A table such as ".pngx" is listed as "x.png"
  (`Qr.TableOfFileNameWithPng`).
- multer stores an upload before the menu handler runs. The file therefore
  stays even when the handler answers 400 or 404, and the contracts say so.
  An update with a new image does not delete the previous one.
- The migration adds `createdAt` without a default. On a migrated database,
  a row inserted later without `createdAt` holds NULL
  (`Db.MigratedMenuDefaults`). A database created fresh stamps it instead
  (`Db.CreatedMenuDefaults`).

## Model

| member | source | states |
|---|---|---|
| Http.FromLocalhost | routes/orders.js:19-25 | `checkLocalhost` passes a request exactly when its hostname is "localhost"; every gated handler answers 403 otherwise (their contracts state it) |
| Orders.Ledger.constructor | routes/orders.js:3 | an empty ledger with the given `table_number` affinity and flag defaults |
| Orders.Rejected | routes/orders.js:33 | the 400 condition: a falsy table, no or empty items, a falsy total or one at most 0 (used by Orders.Ledger.Create) |
| Orders.Ledger.NewOrder | routes/orders.js:38-39 | the inserted row holds the table number under the column's affinity, the bound total, the submitted items snapshot, the time of the request and the default flags |
| Orders.Ledger.Create | routes/orders.js:28-54 | 403 off localhost; 400 exactly when table is falsy, items missing or empty, or the total falsy or at most 0, and then nothing changes; otherwise 201, exactly one row added under a fresh id, the receipt echoing id, table, items and total; every order only moves along its flags |
| Orders.MarkPaid | routes/orders.js:59 | same ids; only row k changes; its payment_status becomes 'paid' and its status is kept |
| Orders.MarkDelivered | routes/orders.js:75 | same ids; only row k changes; its status becomes 'delivered' and its payment_status is kept |
| Orders.Ledger.Pay | routes/orders.js:57-71 | 200 exactly when the id selects a row, and the ledger is then MarkPaid of it; otherwise 404 and no change |
| Orders.Ledger.Deliver | routes/orders.js:73-86 | 200 exactly when the id selects a row, and the ledger is then MarkDelivered of it; otherwise 404 and no change |
| Orders.MarkIdempotent | routes/orders.js:57-86 | a second payment (or delivery) of the same id leaves the state of the first |
| Orders.MarksCommute | routes/orders.js:57-86 | payment and delivery commute: the two flags are independent |
| Orders.ProgressTransitive | routes/orders.js:57-86 | moving along the flags, step after step, is moving along the flags |
| Orders.PayTwice | routes/orders.js:57-71 | two payments in a row: the second answers 200 too, and the ledger is that of one payment |
| Orders.ListOrdersAsWritten | routes/orders.js:90-99 | GET / returns exactly the rows whose `status` is SQL-unequal to 'paid', unchanged |
| Orders.PaidOrderStillListed | routes/orders.js:91 | paying for a listed order leaves it in GET / |
| Orders.PaidOrderStillListedExample | routes/orders.js:91 | one concrete pending order, paid, still listed |
| Orders.ListUnpaid | routes/orders.js:91 | the intended filter: exactly the rows whose `payment_status` is not 'paid' |
| Orders.PaidOrderNotListed | routes/orders.js:91 | with the intended filter a paid order leaves the list and no other row's membership changes |
| Orders.ListPaid | routes/orders.js:102-119 | 404 exactly when no row is paid; otherwise 200 with exactly the paid rows, projected on the selected columns |
| Orders.PayThenListPaid | routes/orders.js:102-114 | an order just paid makes GET /paid-orders answer 200 and list it |
| Orders.GetOrder | routes/orders.js:123-136 | 403 off localhost; 404 exactly when the id selects no row; otherwise 200 with that row |
| Orders.TableMatches | routes/orders.js:145 | exactly the rows whose table_number is SQL-equal to the bound table |
| Orders.WithoutTable | routes/orders.js:145-146 | keeps exactly the rows of other tables, unchanged; the count drops by the number matched |
| Orders.Ledger.DeleteForTable | routes/orders.js:139-155 | 403 off localhost; 400 for a falsy table; 404 when no row matches; otherwise 200 and exactly the matching rows removed; no change on any error |
| Orders.Ledger.Delete | routes/orders.js:158-171 | 403 off localhost; 404 exactly when the id selects no row; otherwise 200 and only that row removed |
| Menu.Catalog.constructor | routes/menu.js:12-15 | an empty menu over the uploads folder as found |
| Menu.Availability | routes/menu.js:99 | isAvailable is 1 when not supplied (falsy) and the number itself when a non-zero number is sent |
| Menu.Category | routes/menu.js:100 | categoryId is NULL when not supplied and the number itself when a non-zero number is sent |
| Menu.CategoryOfTexts | routes/menu.js:100 | a form text spelling an integer, "0" included, is that category id; a non-empty text without a digit is NULL |
| Menu.AvailabilityOfTexts | routes/menu.js:99 | "0" (truthy) is stored as 0, "1" as 1, and "yes" as NULL; the general cases are Menu.AvailabilityOfNoDigits and Menu.AvailabilityOfIntText |
| Menu.AvailabilityOfNoDigits | routes/menu.js:99 | every non-empty text without a digit is NaN to parseInt and stored as NULL |
| Menu.AvailabilityOfIntText | routes/menu.js:99 | every text spelling an integer, "0" included, is stored as that integer |
| Menu.MissingField | routes/menu.js:94 | the 400 condition of POST /add-menu: name, price or details falsy (used by Menu.Catalog.Add) |
| Menu.NewItem | routes/menu.js:91-105 | the inserted row holds the submitted name, price and details, isAvailable and categoryId as the form values convert, `/uploads/<file>` or NULL as image, and createdAt = updatedAt = the insert time |
| Menu.Catalog.Add | routes/menu.js:85-114 | the upload is kept in every case; 400 exactly when name, price or details is falsy, and then no row is added; otherwise 201 and exactly one row added under a fresh id, which is returned |
| Menu.UpdatedAvailability | routes/menu.js:143-148 | kept when undefined, "" or null; otherwise always 0 or 1, and 1 exactly for "1", 1 and true |
| Menu.Merge | routes/menu.js:138-156 | each of name, price and details takes the submitted value when truthy, else keeps the stored one; image changes only with a new upload; createdAt and categoryId kept; updatedAt refreshed |
| Menu.MergeIdempotent | routes/menu.js:138-156 | sending the same update twice gives the row of the first |
| Menu.EmptyUpdate | routes/menu.js:138-156 | an update with no fields and no file only refreshes updatedAt |
| Menu.Catalog.Update | routes/menu.js:117-167 | the upload is kept in every case; 400 exactly when parseInt of the id is NaN; 404 exactly when no row has that id; both leave the rows unchanged; otherwise 200, that id returned and only that row replaced by the merge |
| Menu.PublicMenu | routes/menu.js:73-81 | exactly the rows whose isAvailable is 1, unchanged |
| Menu.ListAll | routes/menu.js:62-70 | 200 with every row from localhost, 403 otherwise |
| Menu.AddedIsPublic | routes/menu.js:74-99 | an item added without isAvailable is on the public menu |
| Menu.UpdateDecidesVisibility | routes/menu.js:74-148 | after an update with an explicit isAvailable, the row is public exactly when the value was "1", 1 or true |
| Menu.Admit | routes/menu.js:170 | off localhost the answer is 403 before the token is looked at; on localhost the token gate decides |
| Menu.ImageFiles | routes/menu.js:180-183 | the file DELETE unlinks: the row's image when it is set and non-empty, nothing otherwise (used by Menu.Catalog.Delete) |
| Menu.Catalog.Delete | routes/menu.js:170-190 | a refused gate answers its status and changes nothing; then 400 exactly for an empty or non-numeric id, 404 exactly when the id selects no row, 200 otherwise; on 200 only that row is removed and only its image file unlinked |
| Tables.Registry.constructor | routes/tables.js:11-15 | an empty `tables` table over the QR folder as found |
| Tables.Registry.List | routes/tables.js:23-28 | 200 with every row |
| Tables.Registry.Find | routes/tables.js:30-47 | 200 exactly when some row's number equals the parameter under integer affinity, with that row and its id, the only id whose number matches; 404 otherwise; nothing changes |
| Tables.Registry.Create | routes/tables.js:50-69 | 400 for a falsy number; 500 when the stored number is already taken; both change nothing; otherwise one row with a fresh id and status 'available', then the QR image written with the answer echoing that id, then 500 if the image write failed |
| Tables.QrFile | routes/tables.js:59 | POST / names the QR file `table_<n>.png` after the number as the request spelled it (read back by Tables.QrPartsAgree) |
| Tables.QrData | routes/tables.js:60 | the image encodes the origin, `/?table=` and the same number text (Tables.QrPartsAgree) |
| Tables.QrCodeUrl | routes/tables.js:66 | the answer's URL is the served URL of that same QR file (Tables.QrPartsAgree) |
| Tables.StoredQrFile | routes/tables.js:79-80 | DELETE names the file after the number read back from the INTEGER column (Tables.QrFileKept, Tables.LeadingZeroOrphansQr) |
| Tables.QrPartsAgree | routes/tables.js:59-66 | the file name, the encoded URL and the answered qrCodeUrl carry the same table text, and /list-qr reads it back from the file |
| Tables.QrFileKept | routes/tables.js:59-80 | a number sent as a JSON integer or as its decimal text names the same QR file on insert and on delete |
| Tables.LeadingZeroOrphansQr | routes/tables.js:59-80 | "05" is written as table_05.png but deleted as table_5.png |
| Tables.Registry.Delete | routes/tables.js:72-92 | 404 exactly when the id selects no row, and then no change; otherwise 200, exactly that row removed and only the QR file of its stored number unlinked |
| Tables.AddThenRemove | routes/tables.js:50-92 | adding a new number and deleting it by its id restores the rows and removes only its QR file |
| Qr.FileName | routes/tables.js:59 | the QR file of a table is `table_<table>.png`; `/list-qr` reads the table back when it has no ".png" (Qr.TableOfFileName) |
| Qr.IndexFrom | routes/qr.js:14 | the first occurrence of the pattern at or after a position, or none |
| Qr.IndexOf | routes/qr.js:14 | the first occurrence of the pattern, or none |
| Qr.RemoveFirst | routes/qr.js:14 | `replace(pat, "")` removes the first occurrence only and leaves a text without one unchanged |
| Qr.TableOfFile | routes/qr.js:14 | `file.replace("table_", "").replace(".png", "")`; it inverts Qr.FileName as Qr.TableOfFileName states |
| Qr.QrUrl | routes/qr.js:15 | the URL is the base and folder path followed by the unchanged file name |
| Qr.EntryOf | routes/qr.js:13-16 | one file's entry: the table read back from its name, and a URL whose suffix is the file name |
| Qr.Entries | routes/qr.js:13-16 | one entry per file, in the folder's order, none skipped |
| Qr.ListAt | routes/qr.js:9-20 | an unreadable folder gives 500 and no list; otherwise 200 with the entries |
| Qr.ListQr | routes/qr.js:9-20 | the `/list-qr` route: Qr.ListAt under the fixed origin `http://localhost:5000` (listing written tables: Qr.ListQrOfTables) |
| Qr.TableOfFileName | routes/qr.js:14 | for `table_<n>.png` with no ".png" in n, the listed table is n |
| Qr.TableOfFileNameWithPng | routes/qr.js:14 | ".png" followed by a non-empty text not starting with "." is read back as that text followed by ".png", not as the table |
| Qr.NoPngInIntText | routes/qr.js:14 | an integer's text never contains ".png", so every integer table round-trips |
| Qr.EntriesNameTheirFiles | routes/qr.js:15 | each listed URL gives back its file name |
| Qr.ListQrOfTables | routes/qr.js:13-16 | listing the files written for a sequence of tables reports exactly those tables, in order |
| Server.Port | server.js:18 | PORT when set and non-empty, 5000 otherwise |
| Server.BaseUrl | server.js:77-94 | `http://localhost:<port>`; with the default port it is the fixed origin of routes/qr.js (Server.DefaultBaseUrl) |
| Server.DefaultBaseUrl | server.js:18 | without PORT the base URL is the origin the routes hard-code |
| Server.GenerateWrite | server.js:76-82 | the file written is table_<t>.png and it encodes base + "/?table=" + t |
| Server.Generate | server.js:75-87 | success answers t and the URL of the file written; a failed write answers 500 |
| Server.ListQr | server.js:90-102 | server.js's `/list-qr`: Qr.ListAt under the configured base URL (equal to the route's under the default port: Server.ListQrAsRoute) |
| Server.ListQrAsRoute | server.js:90-102 | with the default port, /list-qr answers exactly as routes/qr.js does |
| Server.GenerateThenList | server.js:75-102 | wherever the generated file appears in the folder, the listing reports the entry generate answered with |
| Server.OnError | server.js:115-120 | status is err.status when truthy, else 500; the error text is err.message when truthy, else "Internal Server Error" |
| Server.UnsetStatusIsServerError | server.js:117 | an error without a status, or with status 0, is answered 500 |
| Server.Logout | server.js:123-125 | always 200 with success, from no input and no state |
| Auth.Login | routes/auth.js:12-21 | a token exactly when email and password strictly equal the configured pair; the token carries the email and the 1h lifetime; 401 otherwise |
| Auth.FailuresAlike | routes/auth.js:20 | every failed login gets the same answer, whichever field was wrong |
| Auth.SecondField | routes/auth.js:31 | `split(" ")[1]`: undefined exactly when the header has no space; otherwise a field without spaces |
| Auth.BearerToken | routes/auth.js:31 | the token is the second space-separated field of "scheme token" |
| Auth.Authenticate | routes/auth.js:24-44 | no or empty header: 401; no second field: 403; otherwise next with the verified user exactly when verify succeeds, 401 when expired, 403 for any other failure |
| Auth.AuthenticateUsesToken | routes/auth.js:31-43 | for "scheme token" the decision is that of verify on the token |
| Js.ParseIntOfNoDigits | routes/menu.js:99 | parseInt gives NaN on every text without a digit |
| Js.ParseIntOfText | routes/menu.js:122 | parseInt reads back every integer written as decimal text |
| Js.ParseIntIgnoresSuffix | routes/menu.js:99 | parseInt stops at the first non-digit |
| Js.NumberOfIntText | routes/menu.js:172 | Number reads back every integer text, so isNaN is false on it |
| Sql.Bind | routes/tables.js:55 | undefined, null and NaN bind as NULL; a boolean as 1 or 0; a number as that integer; a string as that text, and exactly the strings bind as text |
| Sql.RowId | routes/orders.js:125 | a parameter that selects a row is not NaN |
| Sql.RowIdOfText | routes/orders.js:125 | the decimal text of an id selects exactly that id |
| Sql.EqualThrough | routes/tables.js:13 | two numbers equal to the same value are equal, so a UNIQUE number is matched by at most one row |
| Sql.ConvertIntText | routes/tables.js:13 | integer affinity stores the decimal text of n as n |
| Db.AddIfMissing | db.js:53-60 | a listed column is not re-added, nor is one the schema already has; a missing one is added with its declaration; no other column changes |
| Db.MigratedColumns | db.js:46-90 | after the migration the menu has createdAt, updatedAt, categoryId and isAvailable, and every earlier column keeps its declaration |
| Db.AddStamped | db.js:53-66 | a timestamp step keeps the row ids; when the column was not listed, every row holds the migration time in it |
| Db.AddPlain | db.js:73-88 | a plain step keeps the row ids |
| Db.MigratedRows | db.js:53-88 | the same row ids; each missing column added in the order of db.js, the timestamps backfilled (Db.MigratedRowsStamped, Db.Database.MigrateMenu) |
| Db.StampedKept | db.js:53-88 | a later step on another column, timestamp or plain, keeps a stamped column stamped |
| Db.MigratedRowsStamped | db.js:53-66 | after the whole migration, every row holds the migration time in each timestamp column that was missing |
| Db.MigrationIdempotent | db.js:53-88 | a migration over a menu that has the four columns changes nothing |
| Db.MigratedDeclarations | db.js:54-83 | an added createdAt has no default; an added isAvailable defaults to 1 |
| Db.Widen | db.js:54 | ALTER TABLE ADD COLUMN: same rows, each gaining the column with its default |
| Db.Backfill | db.js:56 | same rows, each with the column stamped if it was NULL |
| Db.BackfillOnlyNulls | db.js:56-66 | a set value is kept, a NULL is stamped, and a second backfill changes nothing |
| Db.AddedTimestampIsSet | db.js:54-56 | after adding and backfilling a timestamp column, every existing row holds the migration time there |
| Db.NewRow | db.js:18-31 | an inserted row has exactly the menu's columns and holds every given value |
| Db.CreatedMenuDefaults | db.js:19-31 | on a fresh menu an insert gets its id, isAvailable 1 and both timestamps |
| Db.MigratedMenuDefaults | db.js:54-83 | on a migrated menu an insert still gets isAvailable 1 but a NULL createdAt |
| Db.InsertOrIgnore | db.js:93-98 | every VALUES row uses up the next AUTOINCREMENT id; a name already present adds no row, a new one is stored under that id |
| Db.InsertOrIgnoreKeeps | db.js:93-98 | one INSERT OR IGNORE keeps names unique and ids fresh, keeps every row, and leaves the name present |
| Db.SeedAll | db.js:93-98 | the multi-row INSERT OR IGNORE, one VALUES row after the other (Db.SeedAllKeeps, Db.SeedAllPresent) |
| Db.SeedAllKeeps | db.js:93-98 | seeding keeps names unique and ids fresh, keeps every category, leaves every seed present and moves the counter by one per seed |
| Db.SeedAllPresent | db.js:93-98 | seeding names already present adds no category; the counter still moves by one per name |
| Db.SeedIdempotent | db.js:93-98 | seeding twice leaves the categories of seeding once; the counter moves on by one per seed |
| Db.Database.constructor | db.js:3 | the database file as found, with its tables, menu schema, rows and categories |
| Db.Database.CreateTables | db.js:10-43 | the three tables exist afterwards; an existing menu keeps its schema; a new one gets the declared columns |
| Db.Database.AddColumn | db.js:54 | the schema gains the column and every row is widened |
| Db.Database.AddTimestamp | db.js:54-56 | the column is added, then the NULLs are backfilled |
| Db.Database.MigrateMenu | db.js:46-90 | the schema becomes MigratedColumns and the rows MigratedRows of the names the PRAGMA listed |
| Db.Database.SeedCategories | db.js:93-98 | the categories become SeedAll of the seeds, one VALUES row at a time |
| Db.Database.Prepare | db.js:10-90 | tables created, then migrated when the PRAGMA answered; a settled database is left as it is |
| Db.Database.Open | db.js:3-100 | the whole setup: tables, migration, seeding; once the PRAGMA answered the four columns and the three seeds are present, every category is kept, and on a settled database it changes nothing but the category id counter, which moves on by one per seed |
| Db.Database.InsertMenu | db.js:19-31 | an insert takes the next id and stores the row the column defaults give |

## Left out

- I/O: file writes, unlinks and folder reads are modelled as a set or map of names, and the outcome of a write or a folder read is a parameter. `mkdirSync` and `existsSync` on directories are not modelled.
- SQLite engine errors (the 500 answers from `err` in the database callbacks) are not modelled, except the UNIQUE violation in `routes/tables.js`.
- The connection error in db.js (line 4) is not modelled; `Db.Database.Open` is the success callback.
- SQL text, the sales table's columns and the FOREIGN KEY constraints are not modelled. The sales table is only named.
- The `orders` schema is not part of this model, because no file creates it. The affinity of `table_number` and the defaults of `status` and `payment_status` are constructor parameters.
- JSON.stringify of order items is not modelled. The stored items are the submitted sequence itself.
- Token signing and verification (jsonwebtoken): verification is a function parameter with outcomes verified, expired and invalid.
- QR image rendering (qrcode) is not modelled. The model records only the file name and the URL encoded.
- multer's storage, its `Date.now()` file naming and its 2 MB limit are not modelled. The stored file name is a parameter.
- The Joi `menuSchema` is declared but never applied, so add-menu does not check `price > 0`.
- CORS, body parsing, static file serving, the home route and `listen` are not modelled.
- Concurrency: the read-then-write handlers (menu update and delete, table delete) are modelled as atomic. Their async interleavings are not.
- Prices and totals are exact numbers. JSON numbers are modelled as integers, so no floating point.
- `Tables.StoredText` leaves the text of a fractional stored number abstract (`realText`); JavaScript's number formatting is not modelled.
- `Js.ParseIntText` models decimal input only. A `0x` prefix, which parseInt reads as hexadecimal, is not modelled.
- `Js.IsSpace` is the ASCII white space (space, tab, LF, VT, FF, CR). The Unicode spaces and line separators that `parseInt` and `Number` also skip are not modelled; `Js.ParseIntText`, `Js.NumberOfText` and `Sql.NumericText` all use this set.
- `Js.NumberOfText` accepts signed decimal numerals with an optional fraction. Exponents, "Infinity" and hexadecimal literals are not modelled.
- `Menu.NewItem` and `Menu.Merge` store the submitted name, price and details as the JavaScript values they are. The TEXT and REAL affinity of those columns is not applied, so a name sent as the JSON number 5 is held as a number where SQLite would store the text "5".
- `Server.Generate` is a function of the table and of whether the write succeeded. The file it writes into uploads/qr_codes, the folder of `Tables.Registry.qrFiles`, enters no state: the listing sees it only through the hypothesis of `Server.GenerateThenList`, and a later table delete cannot remove it in the model.
- `Orders.Ledger.Create` assumes `orders.id` is AUTOINCREMENT, as the other tables' ids are; no file creates the orders schema. With a plain INTEGER PRIMARY KEY, SQLite would reuse max(rowid)+1 after the highest order was deleted, and the promised fresh id would not hold.
- `Db.MigratedRows` stamps createdAt and updatedAt with one time `now`. db.js backfills them in two statements, each with its own `datetime('now')`, which can differ by a second.
- `Orders.Rejected` and `Orders.Request` model `items` as an array or absent. The handler tests only `!items || items.length === 0`, so a truthy non-array body such as `5`, `true`, `{}` or `"x"` passes and is stored; the model cannot express such a value.
- `Orders.Ledger.NewOrder` stores total_amount as node-sqlite3 binds it. The orders schema is not part of this model, so no affinity is applied to that column.
- `Db.Database.InsertMenu` models only what the menu schema's defaults put in a new row. The menu handlers' inserts are modelled by `Menu.Catalog`, a separate view of the same table; the two are not connected.
- `path.join` normalisation of QR and image paths is not modelled. Paths are the file names placed in the folder.
- db.js opens `./menu.db`, while routes/tables.js opens `./data/menu.db`. The table registry is therefore a store of its own, apart from `Db.Database`. The connection server.js opens in `data/menu.db` is never used.
- A menu update with a new image does not delete the previous image in the code, and the model follows the code.
- `Menu.Availability`: its contract covers falsy values and numbers; texts are covered by `Menu.AvailabilityOfTexts` for the values a form sends.

## Findings

| source | as written | input that shows it | evidently intended | confidence | as-written member | corrected member |
|---|---|---|---|---|---|---|
| routes/orders.js:91 | GET / filters on `status != 'paid'`, but only `payment_status` is ever set to 'paid' | a pending unpaid order, then PUT /1/payment: the order still appears in GET / | list the orders whose `payment_status` is not 'paid', as the comment on the query says | not executed; medium | Orders.PaidOrderStillListed | Orders.ListUnpaid |
