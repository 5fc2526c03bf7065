# A verified model of the CMS backend's repositories

This project models the data layer of a small content-management backend:
- the user repository (`src/services/userDB.ts`), which reads and writes `users_and_admins`;
- the article repository (`src/services/articleDB.ts`), which works on `articles` and `visits` and joins them with the accounts;
- the day-interval helper (`src/utils/getDayIntervals.ts`);
- the `Status` envelope that every repository call returns (`src/classes/Status.ts`).

The model follows the source's own shape:

- **Tables.** A table is the sequence of its rows in storage order.
- **Clauses.** `WHERE`, `JOIN … ON`, `LIMIT`, `UPDATE … SET` and `DELETE` are functions on those sequences (module `Tables`).
- **Reads.** Each SELECT variant is a function from the tables to a `Status`. Each says which rows come back and what the failure envelope is.
- **Writes.** The INSERT, UPDATE and DELETE variants are methods of the classes `Users.UserTable` and `Articles.ArticleStore`. They hold the rows and the AUTO_INCREMENT counters.
  - Each method ties its new state to a function of the old state.
  - Each method keeps the invariant `Valid()`: keys are unique and every key is below the next counter value.
- **Failure.** A store failure (connectivity, constraint, syntax) is a boolean input, `dbFails`. The visit that `findById` records has two flags of its own: `visitConnectFails` for its connection and `visitInsertFails` for its insert (`visitFails` in `AddArticleViewCount`).
- **Time.** Instants are integer milliseconds since the epoch.
  - The calendar arithmetic is that of ECMAScript's `Date` (section 21.4.1 of ECMA-262).
  - The process time zone is a fixed offset east of UTC.

In these places the model follows the code as written rather than what its names or callers suggest:

- `findNewestArticle` records no visit.
- `findAllUsers` would list inactive non-admins too, once its typo is fixed.
- Deletes are hard deletes.
- The failure envelopes carry `null` or `false` exactly as each function writes them.
- `getDayIntervals` takes the local year, not the UTC year.
- The random article lookup always fails.

After an UPDATE or DELETE, `Written(n, 0)` reports `n` as the number of rows the WHERE clause matched. This is the driver's `affectedRows` with the `CLIENT_FOUND_ROWS` flag, which mysql2 sets by default. After an INSERT, `Written(1, id)` reports the new row's id.

## Model

| member | source | states |
|---|---|---|
| Strings.Split | src/services/articleDB.ts:42 | `split` always yields at least one piece, and no piece contains the separator |
| Strings.SplitJoin | src/services/articleDB.ts:42 | `s.split(c).join(rep)` replaces every `c` in `s` by `rep` |
| Strings.JoinSplit | src/services/articleDB.ts:42 | splitting undoes joining with a one-character separator, when no piece contains it |
| Users.FindAllUsers | src/services/userDB.ts:17-37 | the misspelt `WHRE` makes every call fail: status 1, the select failure message, rows `false` |
| Users.FindAllUsersCorrected | src/services/userDB.ts:20-36 | with `WHERE` spelt correctly: a row is returned iff it is in the table and not an admin; the failure envelope otherwise |
| Users.FindAllUsersLosesRows | src/services/userDB.ts:20 | every non-admin row the corrected query returns is lost by the one as written, which never succeeds |
| Users.FindOneAdmin | src/services/userDB.ts:39-60 | a row is returned iff it has that id, is an admin and is active; failure carries `false` |
| Users.FindOneAdminAlt | src/services/userDB.ts:62-87 | a row is returned iff its name or its email matches and it is an active admin; failure carries `null` |
| Users.FindOne | src/services/userDB.ts:89-111 | a row is returned iff it has that id and is active, whatever its tier; failure carries `null` |
| Users.FindOneAlt | src/services/userDB.ts:113-135 | a row is returned iff it is an active non-admin whose name or email matches; the message is "Rows Found." |
| Users.FindEmails | src/services/userDB.ts:159-175 | a row is returned iff it holds that email and is active; failure carries the write-failure message and `null` |
| Users.LookupByIdAtMostOne | src/services/userDB.ts:39-111 | with unique ids, both lookups by id return at most one row |
| Users.FindOneIncludesAdmins | src/services/userDB.ts:39-111 | findOne returns every row findOneAdmin returns, and its admin rows are exactly those |
| Users.AltLookupsDisjoint | src/services/userDB.ts:62-135 | the admin and the non-admin name-or-email lookups never return the same row |
| Users.UpdateEmailRows | src/services/userDB.ts:184 | only the email column changes, and only on active rows with that id whose email is still the old one |
| Users.UpdateEmailStaleIsNoOp | src/services/userDB.ts:177-196 | when no active row with that id holds the old email, the table is unchanged and zero rows match |
| Users.UpdatePasswordRows | src/services/userDB.ts:204 | only the hash changes, and only on active rows with that id, admin or not |
| Users.UpdatePasswordOneRow | src/services/userDB.ts:204 | with unique ids, at most one row matches and at most one row changes |
| Users.DeleteUserRows | src/services/userDB.ts:223 | a row survives iff it does not match the whole identity as an active non-admin; kept and removed rows add up to the table |
| Users.UpgradeRows | src/services/userDB.ts:242 | (intended statement) only the tier flag changes; the first matching row is promoted and no other row changes |
| Users.DeleteUserRowsAppend | src/services/userDB.ts:223 | the delete keeps table order: the rows kept from `a + b` are those kept from `a` followed by those kept from `b` |
| Users.DeleteUserRowsSnoc | src/services/userDB.ts:223 | row by row, a row is dropped iff it is an active non-admin matching the whole identity, and a kept row is appended once after the rows kept before it |
| Users.UpgradePromotesFirstMatch | src/services/userDB.ts:242 | the intended statement does change the table when a non-admin row matches the identity |
| Users.DowngradeRows | src/services/userDB.ts:267 | only the tier flag changes; it is cleared exactly on the matching admin rows, active or not |
| Users.DowngradeIdempotent | src/services/userDB.ts:267 | a second identical downgrade changes nothing |
| Users.UpgradeThenDowngradeRestores | src/services/userDB.ts:236-279 | an intended upgrade of a non-admin followed by a downgrade of the same identity restores the table exactly |
| Users.RegisterThenFind | src/services/userDB.ts:113-157 | after a registration whose name-or-email pre-check found nothing, the same lookup returns exactly the new row |
| Users.UserTable.CreateOne | src/services/userDB.ts:137-157 | appends one non-admin active row under a fresh id and reports that id; on failure the table is unchanged |
| Users.UserTable.UpdateEmail | src/services/userDB.ts:177-196 | the table becomes UpdateEmailRows of the old one, and the matched count is reported |
| Users.UserTable.UpdatePassword | src/services/userDB.ts:198-215 | the table becomes UpdatePasswordRows of the old one, and the matched count is reported |
| Users.UpgradeRowsUnlimited | src/services/userDB.ts:242 | with unique ids, the WHERE clause fixes the id, so the `LIMIT 1` update equals the unlimited update of every matching row |
| Users.UserTable.DeleteUser | src/services/userDB.ts:217-234 | the table becomes DeleteUserRows of the old one; the message names the user |
| Users.UserTable.UpgradeUserToAdmin | src/services/userDB.ts:236-257 | the statement as written is a syntax error: every call fails with `null` and changes nothing |
| Users.UserTable.UpgradeUserToAdminCorrected | src/services/userDB.ts:236-257 | with the stray `AND` removed: the table becomes UpgradeRows of the old one, which with unique ids is the unlimited update of every matching row, with 0 or 1 rows matched |
| Users.UserTable.DowngradeAdminToUser | src/services/userDB.ts:259-279 | the table becomes DowngradeRows of the old one; on failure "Query run failed" and `null` |
| Articles.Paragraphs | src/services/articleDB.ts:68 | the stored markup of a paragraph list: the pieces joined by `</p><p>` inside one `<p>`…`</p>` pair, so it always opens with `<p>` and closes with `</p>`, and the empty list is `<p></p>` |
| Articles.ParagraphsWrapEach | src/services/articleDB.ts:68 | the joined markup of a non-empty paragraph list wraps each paragraph in its own `<p>` tag |
| Articles.ParagraphsExamples | src/services/articleDB.ts:68 | `["a","b"]` is stored as `<p>a</p><p>b</p>`, and the empty list as `<p></p>` |
| Articles.ProcessedContent | src/services/articleDB.ts:286-289 | updateArticle's markup: a paragraph list is serialised as addOne does, and a string is wrapped in one `<p>`…`</p>` pair with the text between them unchanged |
| Articles.ProcessedContentAgrees | src/services/articleDB.ts:286-289 | in updateArticle, a one-paragraph list and the same text as a string store the same markup |
| Articles.SqlTimestamp | src/services/articleDB.ts:42-43 | the `split("T").join(" ").split("Z").join("")` chain applied to an ISO string (also at lines 72, 184-185 and 243); no `T` and no `Z` is left in its result |
| Articles.SqlTimestampRewrites | src/services/articleDB.ts:42 | the timestamp rewrite turns every `T` into a space and drops every `Z`, so neither letter remains |
| Articles.SqlTimestampOfIso | src/services/articleDB.ts:72 | an ISO instant `YYYY-MM-DDTHH:mm:ss.sssZ` becomes `YYYY-MM-DD HH:mm:ss.sss`: 23 characters with the space at index 10 |
| Articles.MaxTimestamp | src/services/articleDB.ts:21 | the subquery `MAX(timestamp)` is absent exactly for an empty table; otherwise it bounds every timestamp and is attained |
| Articles.FindNewestArticle | src/services/articleDB.ts:17-34 | at most one joined row, which holds the greatest timestamp of all articles and matches its author; some row whenever the newest article has an author |
| Articles.Find100Random | src/services/articleDB.ts:36-57 | an article is returned iff its timestamp lies in the closed range, with no limit or sampling |
| Articles.ListAllByUserFullName | src/services/articleDB.ts:95-111 | the summaries are exactly those of articles whose author has that name; failure carries `null` |
| Articles.FindAllByCategory | src/services/articleDB.ts:113-129 | the listings are exactly those of articles in that category |
| Articles.FindAllByUserFullNameAndCategory | src/services/articleDB.ts:131-150 | the bodies are exactly those of articles in that category whose author has that name |
| Articles.FindAllByTitle | src/services/articleDB.ts:152-167 | an article is returned iff its title contains the term |
| Articles.FindByTitleAndCategory | src/services/articleDB.ts:257-273 | the views are exactly those of authored articles in that category whose title contains the term |
| Articles.FindByIdRows | src/services/articleDB.ts:222 | at most one row, the view of the article with that id joined with its author; a row whenever both exist |
| Articles.FindOneRandom | src/services/articleDB.ts:169-198 | `getId` does not exist on the driver's plain rows, so every call fails with `false` and records no visit |
| Articles.FindLastPosted | src/services/articleDB.ts:200-216 | `MAX()` inside WHERE is rejected by the store, so every call fails with `false` |
| Articles.UpdateArticleRows | src/services/articleDB.ts:284 | title, content and category are overwritten on the rows with that id; ids, timestamps, authors and other rows are kept |
| Articles.DeleteArticleRows | src/services/articleDB.ts:307 | a row survives iff its id differs; kept and removed rows add up to the table |
| Articles.DeleteArticleRowsAppend | src/services/articleDB.ts:307 | the delete keeps table order: the rows kept from `a + b` are those kept from `a` followed by those kept from `b` |
| Articles.DeleteArticleRowsSnoc | src/services/articleDB.ts:307 | row by row, a row is dropped iff it has that id, and a kept row is appended once after the rows kept before it |
| Articles.DeleteThenFindById | src/services/articleDB.ts:304-319 | after deleting an id, reading that id returns nothing |
| Articles.PublishThenFindById | src/services/articleDB.ts:218-235 | an article inserted under a fresh id is read back by that id as exactly its view joined with its author |
| Articles.VisitCountAppend | src/services/articleDB.ts:240 | recording a visit raises that article's count by one and leaves every other count alone |
| Articles.ArticleStore.AddOne | src/services/articleDB.ts:59-93 | appends one article under a fresh id, with the markup of its paragraphs and the current instant, and reports the id; on failure nothing changes |
| Articles.ArticleStore.UpdateArticle | src/services/articleDB.ts:275-302 | the articles become UpdateArticleRows of the old ones, with the processed content; the visits are untouched |
| Articles.ArticleStore.DeleteArticle | src/services/articleDB.ts:304-319 | the articles become DeleteArticleRows of the old ones; the article's visits are kept |
| Articles.ArticleStore.AddArticleViewCount | src/services/articleDB.ts:237-255 | appends exactly one visit for that article at the current instant under the next visit id, which then advances by one, or nothing on failure; visit ids stay unique |
| Articles.ArticleStore.FindById | src/services/articleDB.ts:218-235 | returns FindByIdRows and records one visit whether or not a row was found; a failing visit insert leaves the answer unchanged and records nothing; a failing connection for the visit turns the call into findById's failure `Status(1, "Query run failed", false)` with no visit recorded; a failing read records none |
| DayIntervals.GetDayIntervals | src/utils/getDayIntervals.ts:1-24 | startDate is a whole UTC day, and endDate is one day after it minus the zone offset |
| DayIntervals.StartDateIsUtcMidnight | src/utils/getDayIntervals.ts:2-12 | when local and UTC years agree (and the year is not 0-99), startDate is the UTC midnight that begins the instant's day, so it holds the instant |
| DayIntervals.EndDateIsNextMidnight | src/utils/getDayIntervals.ts:13-21 | in a UTC process, endDate is exactly one day after startDate: the next UTC midnight |
| DayIntervals.MonthRollover | src/utils/getDayIntervals.ts:16 | the date after a month's last is the first of the next month, and after 31 December comes 1 January of the next year |
| DayIntervals.EndOfJanuary | src/utils/getDayIntervals.ts:16 | noon on 31 January 1970 gives the interval up to 1 February 00:00 |
| DayIntervals.EndOfYear | src/utils/getDayIntervals.ts:16 | noon on 31 December 1970 gives the interval up to 1 January 1971 00:00 |
| DayIntervals.StartDateMonotone | src/utils/getDayIntervals.ts:2-12 | a later instant never has an earlier startDate |
| DayIntervals.StartDateIdempotent | src/utils/getDayIntervals.ts:2-12 | the interval of a startDate starts at that same startDate |
| DayIntervals.LocalYearMismatch | src/utils/getDayIntervals.ts:4 | 1969-12-31T23:30Z one hour east of UTC gets startDate 1970-12-31, after the instant |
| DayIntervals.DayIntervalsUtc | src/utils/getDayIntervals.ts:2-21 | the intended all-UTC interval holds the instant, starts at a UTC midnight and lasts one day, for every instant |
| DayIntervals.AsWrittenAgreesInUtc | src/utils/getDayIntervals.ts:1-24 | in a UTC process, outside the years 0-99, the code as written computes the intended interval |

## Left out

- Connections: creating and ending a connection per call is not modelled. The leaked connections on the failure paths of updatePassword, deleteUser and upgradeUserToAdmin are not modelled either. A failure to connect, which happens outside the `try` blocks, is not modelled; it would reject the promise instead of returning a `Status`. The one exception is the visit that findById records: addArticleViewCount connects outside its own `try` (src/services/articleDB.ts:238) but is awaited inside findById's `try` (src/services/articleDB.ts:225-234), so findById then returns its failure envelope. Articles.ArticleStore.FindById models that case with `visitConnectFails`. So would `toISOString()` on an invalid `Date` in find100Random and findOneRandom (src/services/articleDB.ts:42-43, 183-188): it throws a RangeError before the `try`. Invalid dates lie outside the model, whose instants are integers.
- Logging of errors (`console.log`) is not modelled.
- Password hashing, tokens, middleware, the route handlers and the input validators are not part of this model. They depend on bcrypt, jsonwebtoken, Express and Joi.
- `Date.prototype.toISOString` is not modelled as a function of the instant. Its output shape is the predicate `IsoShaped`, and the stored timestamp is the instant `now` passed in. The clock is the input `now`; `Math.random` is left out.
- `=` on strings (full name, email, category, and the name in the joins) is read as exact, case-sensitive equality. MySQL's default collations compare case-insensitively, and its PAD SPACE collations ignore trailing spaces; neither is modelled. This affects Users.RegisterThenFind, Users.UpdateEmailRows, Users.DeleteUserRows, Users.UpgradeRows, Users.DowngradeRows and the lookups by name or category.
- `LIKE '%t%'` is read as case-sensitive substring containment. Collation, case folding and escaping of `%` or `_` in the term are not modelled.
- Articles.FindByIdRows, Articles.FindNewestArticle and the other joins do not fix the order of joined rows. The model uses a nested loop with articles outermost, and the store may order the rows differently. Their contracts speak about membership only, and about `LIMIT 1` returning at most one row.
- Users.DeleteUserWhere reads the statement's `user_id = ?` as `id = ?`. Taken literally, `user_id` names no column of `users_and_admins`, so every deleteUser call would fail.
- Foreign keys between `articles`, `visits` and `users_and_admins` are not modelled. Deletes never cascade, and inserts are never rejected for a missing author.
- Users.FindOne takes the id as a number. The source passes a string and lets the store convert it.
- DayIntervals.GetDayIntervals: the `TimeClip` range of ±8.64·10¹⁵ ms is not modelled, and neither is daylight saving time. The zone is a fixed offset.
- DayIntervals.StartDateIsUtcMidnight, StartDateMonotone and StartDateIdempotent are stated only outside the years 0 to 99 and only when local and UTC years agree. Date.UTC moves the years 0-99 into 1900-1999. The year mismatch is the finding below.
- DayIntervals.EndDateIsNextMidnight and DayIntervals.AsWrittenAgreesInUtc carry the same restriction to years outside 0 to 99, for the same reason.
- The accessors of src/classes/DBArticle.ts and the constructors of both row classes (src/classes/DBArticle.ts, src/classes/DBUser.ts) are not modelled beyond the fields of the datatypes. The interfaces under src/interfaces are not modelled either.
- Row objects of the driver: a `SELECT *` over the join gives both `id` columns one name. The model keeps both rows whole in `Joined`.

## Findings

| source | as written | input that shows it | evidently intended | confidence | as-written member | corrected member |
|---|---|---|---|---|---|---|
| src/services/userDB.ts:20 | `WHRE is_admin = FALSE` is a syntax error, so findAllUsers always fails | any table, e.g. one holding a single non-admin row | `WHERE is_admin = FALSE`, listing the non-admin rows | high; not executed | Users.FindAllUsersLosesRows | Users.FindAllUsersCorrected |
| src/services/userDB.ts:242 | `SET is_admin = TRUE AND WHERE ...` is a syntax error, so no account is ever upgraded | any identity, e.g. one matching a single active non-admin row | `SET is_admin = TRUE WHERE ... LIMIT 1`, promoting the first matching row | high; not executed | Users.UserTable.UpgradeUserToAdmin | Users.UserTable.UpgradeUserToAdminCorrected |
| src/utils/getDayIntervals.ts:4 | `getFullYear()` (local) is combined with `getUTCMonth()` and `getUTCDate()`, and endDate is built in local time | t = 1969-12-31T23:30Z in a zone one hour east of UTC: startDate is 1970-12-31T00:00Z | getUTCFullYear and Date.UTC throughout: the UTC day holding t, outside the years 0-99 (which Date.UTC moves into the 1900s) | high; not executed | DayIntervals.LocalYearMismatch | DayIntervals.DayIntervalsUtc |
