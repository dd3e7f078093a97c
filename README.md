# Coupon ledger and table layout, modelled in Dafny

This project models the two sequential parts of the time-coupon site.

**The store behind the REST routes of `server.js`.**

- What it holds: three SQLite tables, each with its AUTOINCREMENT counter.
  - `issued_coupons`: the coupons handed out.
  - `completed_coupons`: the coupons used. The `issued_id` column is optional and is not enforced as a foreign key.
  - `guestbook`: visitor messages.
- `Ledger.Database` is a class with one method per route handler. Every handler has the same two outcomes:
  - it refuses with 400 (a missing field) or 404 (an unknown id) and leaves every table and counter as it was;
  - or it applies its SQL statements.
- The SQL statements are modelled with SQL's meaning in module `Sql`:
  - an UPDATE or DELETE acts on every row its WHERE clause matches;
  - `this.changes` is the number of matching rows;
  - `x = NULL` is never true.
- `ORDER BY` is an insertion sort by a (text, stamp) key in module `OrderBy`. Text is compared under SQLite's BINARY collation.
- **A completion's delete cascades.** It counts the completions sharing the row's `issued_id`, deletes the row, and if the count was exactly 1 also deletes the issued coupon.
  - This step is the pure function `Ledger.DeleteCompletedOn`. Its lemmas prove the cascade's behaviour.
  - The handler method `Ledger.Database.DeleteCompleted` is proved to implement the function, statement by statement.

**The client's row building in `js/app.js`.**

- `formatAmountForMobile` removes every `(`…`)` group and trims the result. It is a function, with lemmas giving its shape, idempotence and a worked example.
- `renderCoupons` and `renderCompletedCoupons` are methods with the source's loops:
  - the count map and the group map are filled in a loop;
  - the row list grows by push.
- Rows are abstract values, not HTML.
  - Issued table: one data row per coupon, then `count - 1` blank rows.
  - Completed table: a coupon's completions in list order, or one blank row when it has none.
- Each method is proved equal to a table function. The properties are proved about those functions. The main one is `Layout.TablesAlign`: the two tables have the same label column row for row, so they line up side by side.
  - This needs every issued id to be nonzero. `Layout.ZeroIdBreaksAlignment` shows why: `renderCoupons` does not count a falsy `issued_id`, but `renderCompletedCoupons` still groups under it.

**How inputs are represented.**

- The mobile test `window.innerWidth <= 768` is a boolean parameter, `narrow`.
- The `mode` argument is the datatype `Layout.Mode`.
- `CURRENT_TIMESTAMP` is an abstract integer stamp passed in as `now`.

**Behaviour the model keeps from the code.**

- `createCompleted` never checks that `issued_id` names an issued coupon (server.js:153-160). So `CreateCompleted` accepts a dangling reference.
- The completion delete chains callbacks (server.js:278-341). The model takes the whole handler as one atomic step.

**Server and page together.** Module `Page` feeds the two listings of the API into the layout. `Page.ListingsAlign` proves that the page built from any valid database's listings has aligned tables: listed ids are always positive, so the nonzero-id condition of `Layout.TablesAlign` always holds.

## Model

| member | source | states |
|---|---|---|
| Js.TextOrNull | server.js:138 | `v \|\| null` is null exactly when the field is absent, null or empty, and is the field itself otherwise |
| Js.NumberOrNull | server.js:242 | `issued_id \|\| null` is null exactly when the field is absent, null or 0, and is the field itself otherwise |
| Js.TextOrEmpty | js/app.js:519 | `issuer \|\| ''` is empty exactly when the field is falsy, and is the field's text otherwise |
| Js.TrimStart | server.js:368 | the result is a suffix of the input that is empty or starts with a non-space |
| Js.TrimEnd | server.js:368 | the result is a prefix of the input that is empty or ends with a non-space |
| Js.TrimStartCutsSpace | server.js:368 | everything TrimStart removes is white space |
| Js.TrimEndCutsSpace | server.js:368 | everything TrimEnd removes is white space |
| Js.TrimIsSlice | server.js:368 | `trim()` keeps one contiguous slice of its input, and only white space lies on either side of it |
| Js.TrimEnds | server.js:368 | a trimmed message neither starts nor ends with white space |
| Js.TrimIdempotent | server.js:368 | trimming a trimmed message changes nothing |
| Js.TrimEmptyIffAllSpace | server.js:362 | `!message.trim()` holds exactly for messages made only of white space |
| Js.TrimStartPadded | server.js:368 | TrimStart removes exactly a white space prefix in front of a non-space |
| Js.TrimEndPadded | server.js:368 | TrimEnd removes exactly a white space suffix after a non-space |
| Js.TrimPadded | server.js:368 | trimming `p + a + q` gives `a` when `p` and `q` are white space and `a` has non-space ends |
| Js.TrimExample | server.js:368 | `"  hello  "` is stored as `"hello"` |
| OrderBy.TextLeTotal | server.js:101 | any two texts are comparable under the BINARY collation |
| OrderBy.TextLeAntisymmetric | server.js:101 | texts that are each at most the other are equal |
| OrderBy.TextLeTransitive | server.js:101 | the BINARY collation is transitive |
| OrderBy.KeyLeTotal | server.js:101 | any two (date, created_at) keys are comparable |
| OrderBy.KeyLeTransitive | server.js:101 | the two-column ordering is transitive |
| OrderBy.PrependSorted | server.js:101 | a least element put in front keeps a sorted list sorted |
| OrderBy.HeadIsLeast | server.js:101 | the head of a sorted list is at most every element |
| OrderBy.Insert | server.js:101 | inserting into a sorted list gives a sorted list holding one more copy of the element |
| OrderBy.SortBy | server.js:101 | `ORDER BY` returns the same rows, as a multiset, in ascending key order |
| Sql.Find | server.js:174 | `db.get` on `WHERE id = ?` finds nothing exactly when no row has the key; otherwise it finds the first row with it |
| Sql.CountWhere | server.js:291 | `COUNT(*)` is at most the number of rows |
| Sql.CountWhereZero | server.js:291 | a count is zero exactly when no row matches |
| Sql.DeleteWhere | server.js:260 | DELETE shrinks the table by the number of rows it matched |
| Sql.DeleteWhereMembers | server.js:260 | the rows kept by DELETE are exactly the rows that do not match its WHERE clause |
| Sql.DeleteLeavesNoMatch | server.js:260 | after DELETE, no row matches its clause |
| Sql.CountWhereWithout | server.js:291-300 | a count taken before deleting row `j` equals the count after it, plus one if row `j` matched |
| Sql.FindSameKeys | server.js:213-215 | UPDATE leaves the keys alone, so a later lookup by key finds the same row |
| Sql.AppendKeepsKeys | server.js:35 | an INSERT under AUTOINCREMENT keeps the keys ascending, positive and within the counter |
| Sql.TailKeys | server.js:35 | the key invariant holds of every suffix of a table |
| Sql.DeleteKeepsKeys | server.js:35 | DELETE keeps the key invariant |
| Sql.FindUnique | server.js:35 | with ascending keys, looking up row `j`'s key finds row `j` |
| Sql.KeyNamesOneRow | server.js:221 | with ascending keys, `this.changes` of `WHERE id = ?` is 0 or 1, and it is 1 exactly when the lookup finds the row |
| Sql.DeleteNothing | server.js:265 | a DELETE matching nothing leaves the table as it was |
| Sql.DeleteOneRow | server.js:300 | with ascending keys, deleting by row `j`'s key removes exactly row `j` |
| Ledger.UpdateIssuedWhereId | server.js:213-215 | UPDATE keeps the length, every id and every created_at, and leaves each row with another id as it was |
| Ledger.UpdateCompletedWhereId | server.js:240-242 | the same for `completed_coupons` |
| Ledger.RowsOfRank | server.js:107-110 | adding `order` to each row keeps the rows themselves |
| Ledger.NullRefersToNothing | server.js:291 | `WHERE issued_id = NULL` counts no row |
| Ledger.CascadeIffLastReference | server.js:291-311 | the count before the DELETE is 1 exactly when the reference is not NULL and, after the DELETE, no completion refers to that coupon |
| Ledger.DeleteCompletedFinds | server.js:278-286 | an unknown id gives 404 and changes nothing; a known one is deleted from `completed_coupons` |
| Ledger.DeleteCompletedCascade | server.js:274-341 | deleting completion `j` removes exactly that row. The plain answer comes exactly when the reference is NULL or still shared, and then the issued table is untouched. The `reorder` answer names the referenced coupon and deletes it, after which no row has its id and no completion names it |
| Ledger.DeleteCompletedKeepsKeys | server.js:274-341 | the cascade keeps both key invariants |
| Ledger.TwoCompletionsCascadeOnce | server.js:291-335 | deleting in turn both completions of a coupon that has exactly two: the first deletion leaves the issued table alone, and the second deletes the coupon and answers `reorder` |
| Ledger.Database.constructor | server.js:32-62 | freshly created tables are empty and their counters start at 0 |
| Ledger.Database.Seed | server.js:65-94 | only an empty coupon table receives the sample rows, under the next keys; every other table and counter is unchanged |
| Ledger.Database.ListIssued | server.js:100-111 | every issued row appears once, sorted by (date text, created_at), and the k-th has `order = k + 1` |
| Ledger.Database.ListCompleted | server.js:114-125 | every completed row appears once, sorted by ascending id, and the k-th has `order = k + 1` |
| Ledger.Database.GetIssued | server.js:172-185 | 404 exactly when no row has the id; otherwise the row with that id |
| Ledger.Database.GetCompleted | server.js:188-201 | 404 exactly when no row has the id; otherwise the row with that id |
| Ledger.Database.CreateIssued | server.js:128-147 | 400 with nothing changed when date, worker, content or amount is falsy. Otherwise exactly one row is appended, with fields as given (not trimmed) and issuer `\|\| null`; its id exceeds every id before it, and a GET returns it. The other tables are unchanged |
| Ledger.Database.CreateCompleted | server.js:150-169 | 400 with nothing changed when date, content, amount or issued_id is falsy (0 included). Otherwise exactly one row is appended with `issued_id` as given, whether or not it names a coupon; a GET returns it |
| Ledger.Database.UpdateIssued | server.js:204-228 | 400 or 404 with nothing changed. Otherwise only the target row's five text columns are replaced; its id, created_at and every other row are kept, and a later GET returns the new fields |
| Ledger.Database.UpdateCompleted | server.js:231-255 | 400 only on a falsy date, content or amount; 404 on an unknown id. Otherwise a full replace in which an absent `issued_id`, performer or photo becomes NULL; ids, created_at and other rows are kept |
| Ledger.Database.DeleteIssued | server.js:258-271 | 404 with nothing changed for an unknown id; otherwise exactly that row goes. Completions are never touched, and afterwards no row has the id |
| Ledger.Database.DeleteCompleted | server.js:274-341 | the handler's answer and its new coupon tables are exactly DeleteCompletedOn of the old tables; the guestbook and the counters are unchanged |
| Ledger.Database.GuestbookList | server.js:346-354 | every message appears once, in ascending created_at |
| Ledger.Database.GuestbookAppend | server.js:357-377 | 400 with nothing changed for an absent, empty or all-white-space message; otherwise exactly one entry holding `message.trim()` is appended under the next key |
| Ledger.Database.GuestbookDeleteTest | server.js:380-388 | exactly the messages starting with `테스트` are deleted; the others keep their order |
| Ledger.Database.GuestbookDeleteAll | server.js:391-401 | the guestbook is emptied; its counter and the coupon tables are unchanged |
| Layout.FirstClose | js/app.js:487 | finds nothing exactly when there is no `)`; otherwise the position of the first `)` |
| Layout.FormatAmountShape | js/app.js:482-490 | an empty amount gives `''` and a wide screen gives the amount unchanged. On a narrow screen no `(` precedes a `)` in the result, and the result is already trimmed |
| Layout.NoCloseUnchanged | js/app.js:487 | the replace leaves a text without `)` unchanged |
| Layout.StripGroupsNoGroup | js/app.js:487 | after the replace, no `(` occurs before a `)` |
| Layout.NoGroupFixpoint | js/app.js:487 | the replace leaves a text with no `(` before a `)` unchanged |
| Layout.TrimKeepsNoGroup | js/app.js:487 | trimming keeps "no `(` before a `)`" |
| Layout.FormatAmountIdempotent | js/app.js:482-490 | formatting a formatted amount changes nothing |
| Layout.StripTrailingGroup | js/app.js:487 | a final `(…)` group is removed, together with its parentheses |
| Layout.FirstCloseAfter | js/app.js:487 | the first `)` of `b + ")"` is the appended one when `b` has none |
| Layout.SampleStripped | js/app.js:446 | the replace turns `3시금(1시간 30분)` into `3시금` |
| Layout.SampleTrimmed | js/app.js:446 | `3시금` is already trimmed |
| Layout.FormatAmountExample | js/app.js:482-490 | on a narrow screen `3시금(1시간 30분)` is shown as `3시금` |
| Layout.Blanks | js/app.js:541-553 | `n` blank rows, all with the coupon's label |
| Layout.IssuedTableStep | js/app.js:516-555 | one more coupon appends its block to the issued table |
| Layout.CountByIssuedId | js/app.js:506-511 | after the loop, the map gives for every id the number of completions with that truthy `issued_id` |
| Layout.PushBlanks | js/app.js:539-554 | the inner loop appends exactly `n` blank rows |
| Layout.RenderCoupons | js/app.js:493-561 | the rows pushed are exactly the issued table for the mobile flag `narrow \|\| mode == mobile-content` |
| Layout.GroupMembers | js/app.js:577-583 | a group holds exactly the completions with that `issued_id` |
| Layout.DataRowsStep | js/app.js:597-615 | one more completion appends its data row |
| Layout.CompletedTableStep | js/app.js:590-631 | one more issued coupon appends its rows to the completed table |
| Layout.GroupByIssuedId | js/app.js:577-583 | after the loop, the map gives for every key its completions in list order |
| Layout.PushCompletionRows | js/app.js:597-615 | the inner loop appends exactly one data row per completion of the group |
| Layout.RenderCompletedCoupons | js/app.js:564-637 | the rows pushed are exactly the completed table for the mobile flag `narrow \|\| mode is mobile-content or mobile` |
| Layout.CountForIsGroupSize | js/app.js:506-593 | for a nonzero id, the count map's entry equals the size of that id's group; for id 0 the count is 0 |
| Layout.DataRowsShape | js/app.js:597-615 | one data row per completion, in order. Each has the coupon's label, the issuer in the worker column, and the completion's amount and photo |
| Layout.IssuedBlockShape | js/app.js:516-555 | a coupon takes max(1, count) rows: its data row first, then only blank rows, all with its label |
| Layout.IssuedTableSize | js/app.js:516-555 | the issued table has the sum of max(1, count) over the coupons rows |
| Layout.CompletedBlockShape | js/app.js:590-631 | a coupon takes max(1, group size) rows: its completions, or one blank row when it has none. Every row has the coupon's label and its issuer, not the performer |
| Layout.LabelsAppend | js/app.js:557 | the label column of joined rows is the joined label columns |
| Layout.BlocksAlign | js/app.js:538-631 | a coupon's rows in both tables have the same label column |
| Layout.TablesAlign | js/app.js:538-631 | when no issued id is 0, both tables have the same length and the same label in every row, whichever layout each is drawn in |
| Layout.ZeroIdBreaksAlignment | js/app.js:508-593 | with an issued id 0 and two completions naming 0, the issued table has one row and the completed table two |
| Layout.CompletedRowsSitUnderIssued | js/app.js:590-631 | every completed-table row sits under a listed coupon: its label and issuer, and a completion of that coupon. A completion naming no listed coupon is never shown |
| Layout.ShownInPrefix | js/app.js:590-631 | a completion shown in the rows so far stays shown |
| Layout.ShownInBlock | js/app.js:597-615 | each completion of a group is shown in that group's rows |
| Layout.CompletionsAreShown | js/app.js:590-631 | every completion naming a listed coupon is shown in a data row |
| Page.ListedIdsNonzero | server.js:35 | every issued coupon the server lists has a nonzero id |
| Page.ListingsAlign | js/app.js:493-637 | the issued and completed tables built from a valid database's two listings have the same length and the same label in every row |

## Left out

- **Framework and files.** Left out: Express setup, CORS, body parsing, static files, `listen` and the shutdown handler; also opening the SQLite file and the `CREATE TABLE` statements. The constructor stands for freshly created tables.
- **Storage errors.** The 500 answers on a storage error and all console logging are absent: the model has no failing storage.
- **Concurrency.** The callback chain of the completion delete is not modelled as interleaving steps; the handler is one atomic step.
  - So the guard `this.changes === 0` after the lookup (server.js:305-308) cannot fire, and it is left out.
  - Concurrent requests are not modelled. TwoCompletionsCascadeOnce covers only the sequential order.
- **The reorder query.** Its result (server.js:320) is thrown away by the code. The model does not run it; `order` is recomputed on every list.
- Ledger.Database.ListIssued: stated as sortedness plus permutation only. SQLite does not specify the order of rows that tie on (date, created_at); stamps have second resolution.
- Ledger.Database.GuestbookList: the same, for ties on created_at.
- **Request parsing.** Path ids are taken as integers; the conversion of the path text is not modelled.
- **Field types.** JSON fields of a wrong type are not modelled. Text fields are optional texts and `issued_id` is an optional integer.
- **Echoed stamp.** The `created_at` that the guestbook POST answers with comes from the JavaScript clock. The model answers with the id and the trimmed message only.
- **Browser.**
  - The DOM is not modelled: tbody lookup, the `type` argument, `innerHTML` and `initResumeLinks`.
  - `createResumeLink` markup is reduced to the plain name it wraps.
  - Button markup and the character-wrapper spans are left out.
- **Other client code.** Network loading, the fallback sample data, editing and deleting from the page, forms, photos, Date parsing and animations are not part of this model.
- Layout.FormatAmountForMobile: takes the text after the caller's `amount || ''`. An absent amount is therefore the empty text.
- Js.IsSpace: the white space table is written out for the code points ECMAScript lists as of its current edition. Later additions to Unicode's Space_Separator category are not tracked.
