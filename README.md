# Contact book repository layer, in Dafny

This project models the repository layer of a FastAPI contact-book service:
the functions that query and change the `contacts` and `users` tables on
behalf of an authenticated user.

- **Contacts** (`src/repository/contacts.py`). The `contacts` table is a
  sequence of `Contact` rows (`id`, `user_id`, `name`, `surname`, `birthday`,
  `email`, `phone`). The read queries are pure functions over those rows, and
  every one is scoped to one owner:
  - `get_contacts` pages with OFFSET/LIMIT;
  - `get_contact` looks a contact up by id and owner;
  - `search_everywhere_contacts` matches a text in name OR surname OR email;
  - `filter_contacts` matches three texts in name AND surname AND email.

  `get_birthdays_week` is a method that keeps the source's two branches. Up to
  day 21 of the month it makes one query over the day list `day .. day+6`. Later
  in the month it loops over the seven calendar days `today + 0 .. today + 6`
  and concatenates one query per day. The writes are methods of the class
  `ContactStore`, which holds the rows and the next id to hand out:
  `post_contact` inserts, `put_contact` replaces fields in place, and
  `delete_contact` removes a row.
- **Users** (`src/repository/users.py`). The `users` table is a sequence of
  `User` rows in the class `UserStore`. `get_user_by_email` is a pure lookup.
  `create_user` inserts. `update_token`, `mark_email_confirmed` and
  `update_avatar` each update one field of one row in place.
- **Dates**. These are proleptic Gregorian `(year, month, day)` triples, as
  Python's `datetime.date` has them. `AddDays` is `date + timedelta(n)`.

The search, the filter and the birthday week are stated as multisets over the
store, since SQL promises no order: each result holds every matching row as
often as the store does, and no other row. `get_contacts` is stated by
position instead: a page of at most `limit` of the owner's rows, taken in store
order from `offset`. `get_contact` returns an `Option`: the owner's first row
with that id, or `None` when there is none. The birthday query is proved to return exactly the owner's contacts whose
birthday (month, day) falls on one of `today .. today + 6`. This holds in both
branches. The key step is `Dates.ShortcutWeekIsCalendarWeek`. For a day of
month of at most 21, the day list `day .. day+6` in the current month is,
pair for pair, the list of calendar days, because every month has at least 28
days. The model keeps the shortcut as the code has it, and proves that both
branches give the same result.

Files: `wrappers.dfy` (`Option`), `dates.dfy`, `substring.dfy` (text
containment), `contacts.dfy`, `users.dfy`.

## Model

| member | source | states |
|---|---|---|
| Dates.DaysInMonth | src/repository/contacts.py:198 | every month has 28 to 31 days; 28 or 29 exactly for February of a common or a leap year, 30 exactly for April, June, September, November |
| Dates.NextDay | src/repository/contacts.py:198 | the next day is a valid date; it is day+1 of the same month unless `d` is the month's last day, when it is the 1st of the next month (January of the next year after December 31) |
| Dates.AddDays | src/repository/contacts.py:198 | `today + timedelta(n)` is a valid date in the same or a later year |
| Dates.AddDaysWithinWeek | src/repository/contacts.py:198 | for 0..6 days: same month if day+k fits, else day+k-monthlength of the next month (January of the next year after December) |
| Dates.AddDaysStaysInMonth | src/repository/contacts.py:186-187 | when day <= 21, adding 0..6 days stays in the month with day+k |
| Dates.CalendarWeek | src/repository/contacts.py:198 | seven pairs, the k-th being the (month, day) of `today + k` |
| Dates.ShortcutWeek | src/repository/contacts.py:187-192 | seven pairs, the k-th being (current month, day + k) |
| Dates.ShortcutWeekIsCalendarWeek | src/repository/contacts.py:186-198 | for day <= 21 both branches' day lists are the same (month, day) sequence |
| Dates.CalendarWeekDistinct | src/repository/contacts.py:198-203 | no (month, day) occurs twice among the seven days, so the per-day queries never return a row twice |
| Substring.Contains | src/repository/contacts.py:126-128 | the empty text is contained in every string; a contained text is no longer than the string |
| Substring.ContainsSound | src/repository/contacts.py:126-128 | whatever `Contains` accepts occurs at some position of the string |
| Substring.ContainsComplete | src/repository/contacts.py:126-128 | a text that occurs at any position is accepted |
| Substring.ContainsIsSubstring | src/repository/contacts.py:126-128 | `Contains` holds exactly when the needle is a substring (both directions) |
| Substring.ContainsInContext | src/repository/contacts.py:126-128 | a text is found wherever it is embedded, e.g. in part of an email's local part |
| ContactRepository.Select | src/repository/contacts.py:23 | a filtered query: only rows passing the filter, each as often as stored, none longer than the store |
| ContactRepository.SelectAgrees | src/repository/contacts.py:150-153 | filters that agree on the stored rows return the same rows in the same order |
| ContactRepository.Owned | src/repository/contacts.py:23 | exactly the rows whose `user_id` is the caller's, each as often as stored |
| ContactRepository.GetContacts | src/repository/contacts.py:12-23 | at most `limit` contacts, all the caller's, namely the owner's contacts following the first `skip`; none when `skip` passes the end |
| ContactRepository.PagesConcatenate | src/repository/contacts.py:23 | page [skip, skip+a) followed by page [skip+a, skip+a+b) is page [skip, skip+a+b) |
| ContactRepository.FullPageIsOwned | src/repository/contacts.py:23 | skip 0 with a limit as large as the store returns all of the owner's contacts |
| ContactRepository.OwnedIndexSpec | src/repository/contacts.py:39 | the `.first()` position is `None` exactly when no row has that id and owner; otherwise it is the first row that has both |
| ContactRepository.GetContact | src/repository/contacts.py:26-39 | `None` exactly when no stored contact has that id and owner; otherwise a stored contact with that id and owner |
| ContactRepository.GetContactByRowId | src/repository/contacts.py:39 | with unique ids, looking up a stored row's id finds it for its owner and `None` for any other user |
| ContactRepository.SearchEverywhere | src/repository/contacts.py:111-129 | exactly the owner's contacts in whose name OR surname OR email the text is a substring, each as often as stored |
| ContactRepository.FilterContacts | src/repository/contacts.py:132-154 | exactly the owner's contacts whose name, surname AND email contain the three texts, each as often as stored |
| ContactRepository.FilterNothingIsOwned | src/routes/contacts_search.py:35-50 | `filter_contacts("", "", "")` (the route's defaults) returns all the owner's contacts in store order |
| ContactRepository.SearchEmptyIsOwned | src/repository/contacts.py:126-128 | searching for the empty text returns all the owner's contacts |
| ContactRepository.FilterByNameOnly | src/repository/contacts.py:150-153 | with surname and email left empty, the filter selects by name alone |
| ContactRepository.FilterWithinSearch | src/repository/contacts.py:126-153 | the AND filter with one text in all fields returns no more than the OR search for it |
| ContactRepository.QueriesAreOwnerScoped | src/repository/contacts.py:126-153 | a contact of another user is never returned by the search, the filter or the lookup |
| ContactRepository.ShortcutWeekMembership | src/repository/contacts.py:187-195 | (month, day) is in the shortcut week exactly when month is the current one and day is in `day .. day+6` |
| ContactRepository.ShortcutQueryIsWeek | src/repository/contacts.py:186-195 | the one-query branch selects exactly the owner's contacts with a birthday in the calendar week |
| ContactRepository.ExtendByDay | src/repository/contacts.py:200-203 | extending the accumulated rows of days 0..k-1 with the rows of day k gives the rows of days 0..k |
| ContactRepository.GetBirthdaysWeek | src/repository/contacts.py:169-205 | exactly the owner's contacts whose birthday (month, day) is that of `today + k` for some k in 0..6, each as often as stored; with unique ids, no duplicates |
| ContactRepository.SubMultisetKeepsUniqueIds | src/repository/contacts.py:200-203 | a result that holds no row more often than the store keeps the store's ids unique |
| ContactRepository.WindowCrossesFebruary | src/repository/contacts.py:198 | from 25 February of a common year the window includes 3 March and excludes 4 March |
| ContactRepository.WindowCrossesNewYear | src/repository/contacts.py:198 | from 28 December the window includes 2 January |
| ContactRepository.RemoveAt | src/repository/contacts.py:106 | deleting a row removes one copy of it and leaves the store one shorter |
| ContactRepository.OwnedIndexAppend | src/repository/contacts.py:58 | after an append, an earlier match stays first; otherwise the new row matches exactly when it has that id and owner |
| ContactRepository.InsertedIsFound | src/repository/contacts.py:52-61 | after inserting a row with a fresh id, it is found by id and owner, and every other lookup is unchanged |
| ContactRepository.UpdatedIsFound | src/repository/contacts.py:78-87 | after updating a row in place, ids stay unique, the row is found updated, and every other lookup is unchanged |
| ContactRepository.OwnedIndexConcat | src/repository/contacts.py:104 | the lookup over two concatenated parts is the first part's match, else the second part's match shifted by the first part's length |
| ContactRepository.OwnedIndexSkip | src/repository/contacts.py:104 | a non-matching row in front shifts the lookup by one and changes nothing else |
| ContactRepository.RemoveAtPositions | src/repository/contacts.py:106 | after deleting row `i`, earlier rows keep their positions and later rows move down by one |
| ContactRepository.RemovedIdIsGone | src/repository/contacts.py:104-108 | with unique ids, deleting a row keeps the ids unique and its id is then found for no user |
| ContactRepository.RemovedKeepsOtherIndex | src/repository/contacts.py:104-108 | deleting a row with another id keeps the first match of `id`, shifted down by one when it came after the deleted row |
| ContactRepository.RemovedKeepsOtherLookups | src/repository/contacts.py:104-108 | deleting a row changes no lookup of a different id |
| ContactRepository.RemovedIsGone | src/repository/contacts.py:104-108 | after removing a row, ids stay unique, its id is found for nobody, and every other lookup is unchanged |
| ContactRepository.ContactStore.PostContact | src/repository/contacts.py:42-61 | appends exactly one row, owned by the caller, with the body's five fields and an id no stored row has; the new row is found by `get_contact` |
| ContactRepository.ContactStore.PutContact | src/repository/contacts.py:64-87 | when the owner has that id, replaces the five fields in place (same id and owner, no other row changes) and returns the updated row; otherwise `None` and the store unchanged |
| ContactRepository.ContactStore.DeleteContact | src/repository/contacts.py:90-108 | returns what `get_contact` found; when found removes exactly that row, after which the id is not found; otherwise the store is unchanged |
| UserRepository.FirstIndex | src/repository/users.py:17 | `None` exactly when no row satisfies the filter; otherwise the first row that does |
| UserRepository.FirstIndexSamePattern | src/repository/users.py:17 | stores matching the filter at the same positions have the same first match |
| UserRepository.FirstIndexAppend | src/repository/users.py:17 | after an append, an earlier first match stays; otherwise the new row is the match if it passes the filter |
| UserRepository.GetUserByEmail | src/repository/users.py:8-17 | `None` exactly when no user has that email; otherwise the first stored user with it |
| UserRepository.InsertedUserLookup | src/repository/users.py:38-42 | after an insert, the new email finds the new user unless an earlier user already had it; other emails find what they found before |
| UserRepository.SameEmailKeepsLookup | src/repository/users.py:68-70 | changing a user's fields other than the email moves no email lookup |
| UserRepository.UserStore.CreateUser | src/repository/users.py:20-42 | appends one user with the body's username, email and password, a fresh id, the Gravatar result as avatar (`None` when the lookup failed), no refresh token, not confirmed |
| UserRepository.UserStore.UpdateToken | src/repository/users.py:45-56 | only the given user's refresh token changes, to the given value (which may be `None`) |
| UserRepository.UserStore.MarkEmailConfirmed | src/repository/users.py:59-70 | requires a user with that email; that user becomes confirmed and nothing else changes |
| UserRepository.UserStore.UpdateAvatar | src/repository/users.py:73-87 | requires a user with that email; its avatar becomes `url`, no other field or user changes, and the updated user is returned and found by email |

## Left out

- HTTP routes (`src/routes/`), application start-up (`main.py`) and the Alembic migration: framework wiring, dependency injection, the None-to-404 mapping, rate limiting, CORS and schema DDL, with no repository logic.
- SQLAlchemy sessions, `commit`/`refresh` and `async`: the session is a plain in-memory store and the functions run one after another.
- `src/database/models.py` and `src/schemas.py` are not part of this model; the fields of `Contact` and `User` are taken from their use in the repository and its tests.
- SearchEverywhere: the column `contains` filter is SQL `LIKE '%text%'`; the model treats the text literally, so `%`, `_` and `\` in a search text (LIKE wildcards and escape) are not modelled.
- FilterContacts: same literal reading of `LIKE` as for the free-text search.
- SQL NULL columns are not modelled: every text field holds a string.
- GetContacts: `skip` and `limit` are natural numbers; a negative OFFSET or LIMIT is rejected by the database, which is outside this model.
- GetContacts: SQL without ORDER BY gives no order; the model pages the owner's rows in store order.
- GetBirthdaysWeek: `today` is a parameter (the source reads `date.today()`); the fast branch compares `date_part` results with zero-padded strings, which the database coerces to numbers; the model compares integers.
- GetBirthdaysWeek: years are unbounded, so the `OverflowError` Python raises when `today + 6 days` passes 31 December 9999 is not modelled.
- Contact `user_id` is not checked against the users table (a database foreign key).
- CreateUser: the Gravatar call is a third-party library call that may raise; its outcome is the parameter `lookup` (`None` standing for a raised exception). The printed exception is not modelled. A new user's `confirmed` is `false`; its column default lives in the models file, which is not part of this model.
- UpdateToken: the source receives the user object itself; the model names that user by its id, which must be stored.
- MarkEmailConfirmed: with no user for the email the source fails by dereferencing `None`; the model requires the user to exist.
- UpdateAvatar: as for MarkEmailConfirmed, the user must exist.
- Password hashing, JWT tokens and the auth service: the repository only receives an already resolved user.
