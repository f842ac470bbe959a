# Barbershop booking: record store and request handlers

A model of the core of a small barbershop booking web application. The
application keeps five flat tables: users, admins, services, reservations and
reviews. Each row has a numeric `id`. Its request handlers append rows, rewrite
a table, or read the tables and join them for display. Here every table is a
sequence of rows in file order. Each handler is a deterministic operation: it
takes the tables and its inputs (form fields, the signed-in principal) and
returns an outcome plus the new tables.

Modules:

- `Records`: the five row types, the session, and `Db`, all five tables at one moment.
- `Tables`: the operations every table has. `NextId` is the id allocator (largest id plus one, or 1 for an empty table). `IndexById` is the dictionary `{row.id: row}`, in which a later row overwrites an earlier one with the same id. `IdSet` is the set of distinct ids.
- `Identity`: the two credential scans, the username check that spans users and admins, and the login form.
- `Lookups`: the display joins. A reservation's service name falls back to "Unknown". A user's name falls back to "Anonymous" or "Unknown".
- `Booking`: the first-row lookup, the ownership check and the delete-by-id filter used by cancelling, and a user's reservation list.
- `ReviewService`: the reviews page.
- `AdminConsole`: dashboard rows, statistics, and clearing a named table.
- `Handlers`: the class `Store`. It has one field per table and one method per handler. `Consistent` is what the handlers keep true of data they wrote themselves: unique ids in every table, usernames distinct across users and admins, and every reservation "confirmed". Every method preserves it (`old(Valid()) ==> Valid()`), and no method requires it. Three client methods at the end replay a register, log in, book, list and cancel session.

Behaviour of the source that the model keeps, and that a reader might not expect:

- Cancelling deletes the row. No handler ever writes the status "cancelled", so on the application's own data the dashboard's cancelled count is always 0 (`AllConfirmedStats`).
- The ownership check looks only at the FIRST row with the id, but the filter removes EVERY row with it. With unique ids this removes exactly the caller's one row (`RemoveUniqueId`, `CancelRemovesOnlyOwnRows`). If two users' rows shared an id, the owner of the first could delete the other's row (`DuplicateIdCancelsOthersRow`). The handlers never create such a pair.
- `total_users` and `total_services` are dictionary sizes, so they count distinct ids and not rows (`DashboardStats`).
- Joins take the LAST row with a given id (`ServiceNameIsLastMatch`, `UsernameIsLastMatch`).
- Users and admins share one session key for their id. The booking handlers check only that id, not whether the principal is an admin. So an admin whose id equals a user's id sees and may cancel that user's reservations.
- `NextId` reuses ids. Cancelling the reservation just made (it carries the largest id) makes its id the next one handed out again (`CancelUndoesReservation` shows that the table returns exactly to its earlier state), and clearing a table restarts its ids at 1.

## Model

| member | source | states |
|---|---|---|
| `Tables.MaxId` | app.py:45 | the result is one of the table's ids and no id is larger |
| `Tables.NextId` | app.py:41-45 | 1 for an empty table; otherwise some existing id plus one; always larger than every id in the table |
| `Tables.AppendNextIdKeepsUnique` | app.py:41-45 | appending a row that carries the next id keeps the table's ids unique |
| `Tables.IndexById` | app.py:144 | the dictionary has one key per distinct id, and each key maps to the last row in table order with that id |
| `Tables.IndexExtend` | app.py:144 | adding one more row to the dictionary keeps its keys equal to the distinct ids and maps the new row's id to the new row, the last with that id |
| `Tables.IdSetSize` | app.py:265-266 | a dictionary keyed by id has as many entries as there are distinct ids: at most the row count, and exactly the row count when ids are unique |
| `Tables.DistinctIds` | app.py:265-266 | the number of distinct ids is at most the row count, and equals it when ids are unique |
| `Identity.AuthenticateUser` | app.py:48-53 | returns none exactly when no user row matches both username and password; otherwise returns the first matching row in table order |
| `Identity.AuthenticateAdmin` | app.py:55-60 | the same first-match property over the admins table only |
| `Identity.UsernameExists` | app.py:62-65 | true exactly when some user row or some admin row has the username |
| `Identity.Login` | app.py:76-98 | "admin" searches only the admins table and any other user type searches only the users table; a session opens exactly when a row matches, with the id of the FIRST matching row in table order, the username and the right admin flag |
| `Identity.RegisteredUserIsOnlyMatch` | app.py:110-121 | after a registration the check accepted, the new row is the only row the new credentials match, so logging in finds it |
| `Identity.RegisterKeepsUsernamesDistinct` | app.py:110-121 | a registration the check accepted keeps usernames distinct within and across users and admins |
| `Identity.UserAndAdminDisjoint` | app.py:62-65 | while usernames are distinct, no username can log in both as a user and as an admin |
| `Lookups.ServiceName` | app.py:144-147 | "Unknown" when no service row has the id; otherwise the name of the last service row with that id |
| `Lookups.UsernameOr` | app.py:228-231 | the fallback when no user row has the id; otherwise the username of the last user row with that id |
| `Lookups.ServiceNameIsLastMatch` | app.py:144-147 | the service name is "Unknown" when no service has the id; otherwise it is the name of the last service row with that id, and with unique ids the name of the one row with it |
| `Lookups.UsernameIsLastMatch` | app.py:228-231 | the username is the fallback when no user has the id; otherwise it is the username of the last user row with that id, and with unique ids that of the one row with it |
| `Booking.FindReservation` | app.py:189 | none exactly when no row has the id; otherwise the first row in table order with that id |
| `Booking.MayCancel` | app.py:189-191 | true exactly when the first row with the id exists and has the caller's user id |
| `Booking.RemoveId` | app.py:196 | keeps exactly the rows whose id differs; the table is unchanged when no row has the id and strictly shorter when one does |
| `Booking.RemoveIdAppend` | app.py:196 | filtering a concatenation filters each part in place, so the kept rows stay in their original relative order |
| `Booking.RemoveIdSplit` | app.py:196 | removing the id that only one row has leaves exactly the rows before it followed by the rows after it |
| `Booking.RemoveUniqueId` | app.py:189-198 | with unique ids, an authorised cancel removes exactly the found row and leaves the rows before and after it as they were |
| `Booking.CancelRemovesOnlyOwnRows` | app.py:189-198 | with unique ids, a cancel that passes the ownership check removes exactly one row, and that row belongs to the caller |
| `Booking.DuplicateIdCancelsOthersRow` | app.py:189-196 | when two users' rows share an id, the owner of the first passes the check and the other user's row is deleted |
| `Booking.RemoveIdKeepsUnique` | app.py:196 | removing rows keeps the remaining ids unique |
| `Booking.CancelUndoesReservation` | app.py:164-198 | cancelling the reservation just made returns the table exactly to its previous state |
| `Booking.UserReservations` | app.py:146-149 | every listed row belongs to the user, comes from the table and carries its service's name; every row of the user is listed |
| `Booking.UserReservationsAppend` | app.py:146-149 | the list of a concatenation is the lists of the parts in order, so the listing keeps table order |
| `Booking.NewReservationListed` | app.py:146-149 | a new reservation is appended to its owner's list and changes no other user's list |
| `Handlers.ListedWithServiceName` | app.py:144-149 | with unique service ids, a user's single reservation is listed with the name of the service row its service id points to |
| `ReviewService.ReviewsPage` | app.py:227-233 | one entry per review in table order, each labelled with its author's username or "Anonymous" |
| `AdminConsole.ParseDataset` | app.py:278-286 | a name is accepted exactly when it is one of the five table names, and then gives that table |
| `AdminConsole.ClearDataset` | app.py:286-298 | the named table has no data rows afterwards and every other table is unchanged |
| `AdminConsole.ClearIdempotent` | app.py:296-298 | clearing the same table twice is the same as clearing it once |
| `AdminConsole.CountStatus` | app.py:263-264 | at most the row count; 0 exactly when no row has the status; the row count exactly when every row has it (so a one-row table counts 1 or 0 by its status) |
| `AdminConsole.CountStatusAppend` | app.py:263-264 | the count over a concatenation is the sum of the counts over the parts, so together with the one-row case the count is the number of rows with the status |
| `AdminConsole.TwoStatusesAtMostTotal` | app.py:262-264 | counts of two different statuses add up to at most the row count |
| `AdminConsole.DashboardStats` | app.py:261-267 | the reservation total is the row count; the confirmed and cancelled totals are the counts of rows with status "confirmed" and "cancelled", and add up to at most the total; the user and service totals are the numbers of distinct ids, equal to the row counts when ids are unique |
| `AdminConsole.AllConfirmedStats` | app.py:261-267 | on the application's own data (every row "confirmed") the confirmed count is the total and the cancelled count is 0 |
| `AdminConsole.EnhancedNames` | app.py:256-258 | a dashboard row keeps the reservation unchanged; its service name and its username are each "Unknown" when no row has the id, and with unique ids the name of the one row that has it |
| `AdminConsole.DashboardRows` | app.py:254-259 | one entry per reservation in table order, each that reservation with its service's name and its user's name (`Enhanced`), each "Unknown" when missing |
| `Handlers.Store.constructor` | app.py:13-23 | the store holds the tables found at startup; it is consistent exactly when they are |
| `Handlers.Store.Register` | app.py:104-123 | a username taken in users or admins is rejected with the users table unchanged; otherwise exactly one row is appended carrying the next id and the form fields; consistency is preserved |
| `Handlers.Store.MakeReservation` | app.py:155-177 | without a session nothing changes; otherwise exactly one row is appended with the next id, the session's user id and status "confirmed", with no overlap check; consistency is preserved |
| `Handlers.Store.CancelReservation` | app.py:184-204 | the table is unchanged without a session, when no row has the id, or when the first such row is another user's; an authorised GET shows the row with its service name; an authorised POST leaves the table with every row of that id removed, and on consistent data exactly one row fewer |
| `Handlers.Store.AddReview` | app.py:208-225 | without a session nothing changes; otherwise exactly one review row is appended with the next id, the session's user id and the given date |
| `Handlers.Store.AdminDelete` | app.py:274-304 | non-admins change nothing; an unknown name changes nothing; a known name clears that table only; consistency is preserved |
| `Handlers.Store.ReservationsPage` | app.py:138-151 | no page without a session; otherwise the user's reservation list |
| `Handlers.Store.AdminDashboard` | app.py:245-271 | no page unless an admin is signed in; otherwise the statistics and one row per reservation with both names; on consistent data the cancelled count is 0 |

## Left out

- CSV encoding and decoding, creating files with headers, and the data directory (app.py:9-39). These are Python's `csv` module and file I/O. Each table is a sequence of rows, and a header-only file is an empty table.
- Ids are naturals. The source stores them as decimal text and compares them as strings in the joins and in the cancel lookup. The model assumes every id is written in canonical decimal form, so string equality and number equality agree. `int()` on a malformed id (app.py:45) is not modelled.
- Form fields such as `service_id` are naturals too. A non-numeric `service_id` would simply match no service and show "Unknown".
- Session cookies, logout (app.py:127-130), redirects, flash messages and templates. The signed-in principal is a parameter, and the outcome datatype names the flash message or page.
- The login gates of the read-only pages are modelled in `ReservationsPage` and `AdminDashboard`. The pure joins underneath take the user id directly.
- `datetime.now()` (app.py:221). The review's date is a parameter of `AddReview`.
- The home page's first four services and last three reviews (app.py:68-72), the services page (app.py:132-135), the make-reservation form with its fixed barber list (app.py:179-181), and the contact page's branch list (app.py:235-242). These only read a table or constant data for display.
- First-run seeding of the default admin and four services (app.py:306-325). The client methods start from such a seeded state.
- Concurrency. Two requests can interleave their reads and writes and lose updates, and the sequential model does not capture this.
- `ReviewService.ReviewsPage` builds a new sequence rather than adding the username to each freshly read row in place. Those rows belong to the request alone, so nothing else can observe the difference.
