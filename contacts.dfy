/**
 * The contact repository: the `contacts` table as an in-memory store of rows,
 * every query scoped to one owner (`user_id`), and the writes that insert,
 * replace and delete a row.
 */
module ContactRepository {
  import opened Wrappers
  import opened Dates
  import opened Substring

  /** A row of the `contacts` table. */
  datatype Contact = Contact(
    id: int,
    userId: int,
    name: string,
    surname: string,
    birthday: Date,
    email: string,
    phone: string)

  /** The request body of a create or an update: every field a caller may set. */
  datatype ContactInput = ContactInput(
    name: string,
    surname: string,
    birthday: Date,
    email: string,
    phone: string)

  /** The table's primary key: no two rows share an id. */
  ghost predicate UniqueIds(rows: seq<Contact>) {
    forall i, j :: 0 <= i < j < |rows| ==> rows[i].id != rows[j].id
  }

  function Min(a: int, b: int): int { if a <= b then a else b }

  // ---------------------------------------------------------------------
  // Queries

  /**
   * The rows that satisfy the filter `p`, in store order: every row that
   * passes occurs as often as in the store, every other row not at all.
   */
  function Select(rows: seq<Contact>, p: Contact -> bool): (r: seq<Contact>)
    ensures |r| <= |rows|
    ensures forall i :: 0 <= i < |r| ==> p(r[i])
    ensures forall c :: multiset(r)[c] == if p(c) then multiset(rows)[c] else 0
    ensures forall c :: c in r <==> c in rows && p(c)
  {
    if rows == [] then []
    else
      assert rows == [rows[0]] + rows[1..];
      (if p(rows[0]) then [rows[0]] else []) + Select(rows[1..], p)
  }

  /** Filters that agree on the rows of the store select the same rows. */
  lemma {:induction false} SelectAgrees(rows: seq<Contact>, p: Contact -> bool, q: Contact -> bool)
    requires forall c :: c in rows ==> p(c) == q(c)
    ensures Select(rows, p) == Select(rows, q)
  {
    if rows != [] {
      SelectAgrees(rows[1..], p, q);
    }
  }

  /** Every contact of user `u`: the owner filter every query starts from. */
  function Owned(rows: seq<Contact>, u: int): (r: seq<Contact>)
    ensures forall c :: multiset(r)[c] == if c.userId == u then multiset(rows)[c] else 0
    ensures forall c :: c in r <==> c in rows && c.userId == u
  {
    Select(rows, (c: Contact) => c.userId == u)
  }

  /**
   * `get_contacts`: the owner's contacts with OFFSET `skip` and LIMIT `limit`:
   * at most `limit` of them, the ones that follow the first `skip`.
   */
  function GetContacts(rows: seq<Contact>, skip: nat, limit: nat, u: int): (r: seq<Contact>)
    ensures |r| == if skip < |Owned(rows, u)| then Min(limit, |Owned(rows, u)| - skip) else 0
    ensures forall i :: 0 <= i < |r| ==> r[i] == Owned(rows, u)[skip + i]
    ensures forall c :: c in r ==> c in rows && c.userId == u
  {
    var owned := Owned(rows, u);
    if skip >= |owned| then [] else owned[skip..][..Min(limit, |owned| - skip)]
  }

  /** Consecutive pages put together are the page that spans them both. */
  lemma PagesConcatenate(rows: seq<Contact>, skip: nat, a: nat, b: nat, u: int)
    ensures GetContacts(rows, skip, a, u) + GetContacts(rows, skip + a, b, u)
         == GetContacts(rows, skip, a + b, u)
  {
    var left, right, whole := GetContacts(rows, skip, a, u), GetContacts(rows, skip + a, b, u), GetContacts(rows, skip, a + b, u);
    assert |left + right| == |whole|;
    forall i | 0 <= i < |whole|
      ensures (left + right)[i] == whole[i]
    {
      if i >= |left| {
        assert (left + right)[i] == right[i - |left|];
      }
    }
  }

  /** A page starting at 0 and as large as the store holds every contact of the owner. */
  lemma FullPageIsOwned(rows: seq<Contact>, u: int)
    ensures GetContacts(rows, 0, |rows|, u) == Owned(rows, u)
  {
  }

  /** The row has id `id` and belongs to user `u`. */
  predicate IsOwnedWithId(c: Contact, id: int, u: int) {
    c.id == id && c.userId == u
  }

  /** The position of the first row with id `id` owned by `u`, if any (the query's `.first()`). */
  function OwnedIndex(rows: seq<Contact>, id: int, u: int): Option<nat> {
    if rows == [] then None
    else if IsOwnedWithId(rows[0], id, u) then Some(0)
    else match OwnedIndex(rows[1..], id, u)
      case None => None
      case Some(i) => Some(i + 1)
  }

  /**
   * `OwnedIndex` is `None` exactly when no row has that id and owner, and
   * otherwise the position of the first row that has both.
   */
  lemma {:induction false} OwnedIndexSpec(rows: seq<Contact>, id: int, u: int)
    ensures var r := OwnedIndex(rows, id, u);
      && (r.None? <==> forall i :: 0 <= i < |rows| ==> !IsOwnedWithId(rows[i], id, u))
      && (r.Some? ==> r.value < |rows| && IsOwnedWithId(rows[r.value], id, u))
      && (r.Some? ==> forall j :: 0 <= j < r.value ==> !IsOwnedWithId(rows[j], id, u))
  {
    if rows != [] {
      OwnedIndexSpec(rows[1..], id, u);
      assert forall i :: 1 <= i < |rows| ==> rows[1..][i - 1] == rows[i];
    }
  }

  /**
   * `get_contact`: the contact with that id and owner, or `None`, also when a
   * contact with that id exists but belongs to another user.
   */
  function GetContact(rows: seq<Contact>, id: int, u: int): (r: Option<Contact>)
    ensures r.None? <==> forall c :: c in rows ==> !IsOwnedWithId(c, id, u)
    ensures r.Some? ==> r.value in rows && r.value.id == id && r.value.userId == u
  {
    OwnedIndexSpec(rows, id, u);
    match OwnedIndex(rows, id, u)
    case None => None
    case Some(i) => Some(rows[i])
  }

  /** With unique ids, a lookup by a stored row's id finds that row exactly when the owner is right. */
  lemma GetContactByRowId(rows: seq<Contact>, i: nat, u: int)
    requires UniqueIds(rows) && i < |rows|
    ensures GetContact(rows, rows[i].id, u) == if rows[i].userId == u then Some(rows[i]) else None
  {
    var r := GetContact(rows, rows[i].id, u);
    assert rows[i] in rows;
    if r.Some? {
      var j :| 0 <= j < |rows| && rows[j] == r.value;
      assert i == j;
    }
  }

  /** Free-text search: `p` occurs in the name, the surname or the email. */
  predicate MatchesAnywhere(c: Contact, p: string) {
    Contains(c.name, p) || Contains(c.surname, p) || Contains(c.email, p)
  }

  /** Structured filter: each given text occurs in its own field. */
  predicate MatchesAll(c: Contact, name: string, surname: string, email: string) {
    Contains(c.name, name) && Contains(c.surname, surname) && Contains(c.email, email)
  }

  /** `Contains` agrees with the substring relation everywhere. */
  lemma ContainsIsSubstringEverywhere()
    ensures forall hay, needle :: Contains(hay, needle) <==> IsSubstring(needle, hay)
  {
    forall hay, needle
      ensures Contains(hay, needle) <==> IsSubstring(needle, hay)
    {
      ContainsIsSubstring(hay, needle);
    }
  }

  /**
   * `search_everywhere_contacts`: exactly the owner's contacts in whose name,
   * surname or email `p` occurs.
   */
  function SearchEverywhere(rows: seq<Contact>, p: string, u: int): (r: seq<Contact>)
    ensures forall c ::
              multiset(r)[c] ==
                if c.userId == u && (IsSubstring(p, c.name) || IsSubstring(p, c.surname) || IsSubstring(p, c.email))
                then multiset(rows)[c] else 0
  {
    ContainsIsSubstringEverywhere();
    Select(rows, (c: Contact) => c.userId == u && MatchesAnywhere(c, p))
  }

  /**
   * `filter_contacts`: exactly the owner's contacts whose name contains `name`,
   * whose surname contains `surname` and whose email contains `email`.
   */
  function FilterContacts(rows: seq<Contact>, name: string, surname: string, email: string, u: int): (r: seq<Contact>)
    ensures forall c ::
              multiset(r)[c] ==
                if c.userId == u && IsSubstring(name, c.name) && IsSubstring(surname, c.surname) && IsSubstring(email, c.email)
                then multiset(rows)[c] else 0
  {
    ContainsIsSubstringEverywhere();
    Select(rows, (c: Contact) => c.userId == u && MatchesAll(c, name, surname, email))
  }

  /** An empty filter in every field is no filter: all the owner's contacts, in store order. */
  lemma FilterNothingIsOwned(rows: seq<Contact>, u: int)
    ensures FilterContacts(rows, "", "", "", u) == Owned(rows, u)
  {
    SelectAgrees(rows, (c: Contact) => c.userId == u && MatchesAll(c, "", "", ""), (c: Contact) => c.userId == u);
  }

  /** Searching for the empty text finds every contact of the owner, in store order. */
  lemma SearchEmptyIsOwned(rows: seq<Contact>, u: int)
    ensures SearchEverywhere(rows, "", u) == Owned(rows, u)
  {
    SelectAgrees(rows, (c: Contact) => c.userId == u && MatchesAnywhere(c, ""), (c: Contact) => c.userId == u);
  }

  /** Filtering on the name alone selects by the name alone. */
  lemma FilterByNameOnly(rows: seq<Contact>, name: string, u: int)
    ensures FilterContacts(rows, name, "", "", u) == Select(rows, (c: Contact) => c.userId == u && Contains(c.name, name))
  {
    SelectAgrees(rows, (c: Contact) => c.userId == u && MatchesAll(c, name, "", ""), (c: Contact) => c.userId == u && Contains(c.name, name));
  }

  /** A filter with the same text in all three fields is narrower than the free-text search for it. */
  lemma FilterWithinSearch(rows: seq<Contact>, p: string, u: int)
    ensures multiset(FilterContacts(rows, p, p, p, u)) <= multiset(SearchEverywhere(rows, p, u))
  {
  }

  /** A contact of another owner is never returned by any query. */
  lemma QueriesAreOwnerScoped(rows: seq<Contact>, c: Contact, u: int, p: string, n: string, s: string, e: string)
    requires c.userId != u
    ensures c !in SearchEverywhere(rows, p, u)
    ensures c !in FilterContacts(rows, n, s, e, u)
    ensures forall id :: GetContact(rows, id, u) != Some(c)
  {
  }

  // ---------------------------------------------------------------------
  // Birthdays of the coming week

  /** The birthday falls, by month and day, on one of `today`, ..., `today + 6`. */
  ghost predicate BirthdayInWeek(birthday: Date, today: Date)
    requires ValidDate(today)
  {
    MonthDay(birthday) in CalendarWeek(today)
  }

  /** In the shortcut week, membership is "same month, day in day..day+6". */
  lemma ShortcutWeekMembership(today: Date, days: seq<int>, b: Date)
    requires |days| == 7 && forall k :: 0 <= k < 7 ==> days[k] == today.day + k
    ensures MonthDay(b) in ShortcutWeek(today) <==> b.month == today.month && b.day in days
  {
    if b.month == today.month && b.day in days {
      var k :| 0 <= k < 7 && days[k] == b.day;
      assert ShortcutWeek(today)[k] == MonthDay(b);
    }
    if MonthDay(b) in ShortcutWeek(today) {
      var k :| 0 <= k < 7 && ShortcutWeek(today)[k] == MonthDay(b);
      assert days[k] == b.day;
    }
  }

  /** The shortcut query (same month, day in day..day+6) selects exactly the birthdays of the week. */
  lemma ShortcutQueryIsWeek(rows: seq<Contact>, u: int, today: Date, days: seq<int>)
    requires ValidDate(today) && today.day <= 21
    requires |days| == 7 && forall k :: 0 <= k < 7 ==> days[k] == today.day + k
    ensures forall c ::
              multiset(Select(rows, (c: Contact) => c.userId == u && c.birthday.month == today.month && c.birthday.day in days))[c] ==
                if c.userId == u && BirthdayInWeek(c.birthday, today) then multiset(rows)[c] else 0
  {
    ShortcutWeekIsCalendarWeek(today);
    forall c: Contact
      ensures MonthDay(c.birthday) in CalendarWeek(today) <==> c.birthday.month == today.month && c.birthday.day in days
    {
      ShortcutWeekMembership(today, days, c.birthday);
    }
  }

  /**
   * One step of the per-day loop: appending the rows of day `k` of the week to
   * the rows of days 0..k-1 gives the rows of days 0..k.
   */
  lemma ExtendByDay(r: seq<Contact>, rows: seq<Contact>, u: int, week: seq<(int, int)>, k: nat, sameDay: seq<Contact>)
    requires k < |week| && week[k] !in week[..k]
    requires forall c ::
               multiset(r)[c] == if c.userId == u && MonthDay(c.birthday) in week[..k] then multiset(rows)[c] else 0
    requires forall c ::
               multiset(sameDay)[c] == if c.userId == u && MonthDay(c.birthday) == week[k] then multiset(rows)[c] else 0
    ensures forall c ::
              multiset(r + sameDay)[c] == if c.userId == u && MonthDay(c.birthday) in week[..k + 1] then multiset(rows)[c] else 0
  {
  }

  /**
   * `get_birthdays_week`: exactly the owner's contacts whose birthday's
   * (month, day) is that of one of the seven days from `today` on, each as
   * often as it is stored; so with unique ids the result has no duplicates.
   * Up to day 21 the source builds the day list day..day+6 of the current
   * month in one query; later in the month it queries each of the seven
   * calendar days and concatenates the results.
   */
  method GetBirthdaysWeek(rows: seq<Contact>, u: int, today: Date) returns (r: seq<Contact>)
    requires ValidDate(today)
    ensures forall c ::
              multiset(r)[c] == if c.userId == u && BirthdayInWeek(c.birthday, today) then multiset(rows)[c] else 0
    ensures UniqueIds(rows) ==> UniqueIds(r)
  {
    if today.day <= 21 {
      var days := seq(7, x requires 0 <= x < 7 => today.day + x);
      r := Select(rows, (c: Contact) => c.userId == u && c.birthday.month == today.month && c.birthday.day in days);
      ShortcutQueryIsWeek(rows, u, today, days);
    } else {
      var week := seq(7, x requires 0 <= x < 7 => MonthDay(AddDays(today, x)));
      assert week == CalendarWeek(today);
      CalendarWeekDistinct(today);
      r := [];
      for k := 0 to 7
        invariant forall c ::
                    multiset(r)[c] == if c.userId == u && MonthDay(c.birthday) in week[..k] then multiset(rows)[c] else 0
      {
        var sameDay := Select(rows, (c: Contact) => c.userId == u && MonthDay(c.birthday) == week[k]);
        assert week[k] !in week[..k];
        ExtendByDay(r, rows, u, week, k, sameDay);
        r := r + sameDay;
      }
      assert week[..7] == week;
    }
    if UniqueIds(rows) {
      SubMultisetKeepsUniqueIds(r, rows);
    }
  }

  /** With unique ids, no row is stored twice. */
  lemma {:induction false} UniqueIdsCountAtMostOne(rows: seq<Contact>, c: Contact)
    requires UniqueIds(rows)
    ensures multiset(rows)[c] <= 1
  {
    if rows != [] {
      assert rows == [rows[0]] + rows[1..];
      assert UniqueIds(rows[1..]) by {
        forall i, j | 0 <= i < j < |rows[1..]|
          ensures rows[1..][i].id != rows[1..][j].id
        {
          assert rows[1..][i] == rows[i + 1] && rows[1..][j] == rows[j + 1];
        }
      }
      UniqueIdsCountAtMostOne(rows[1..], c);
      if c == rows[0] {
        assert c !in rows[1..];
      }
    }
  }

  /** A value at two positions of a sequence is counted at least twice. */
  lemma CountedTwice(s: seq<Contact>, i: nat, j: nat)
    requires i < j < |s| && s[i] == s[j]
    ensures multiset(s)[s[i]] >= 2
  {
    assert s == s[..j] + s[j..];
    assert s[i] in s[..j];
    assert s[j] in s[j..];
  }

  /** Taking each row at most as often as the store holds it keeps ids unique. */
  lemma SubMultisetKeepsUniqueIds(r: seq<Contact>, rows: seq<Contact>)
    requires UniqueIds(rows)
    requires forall c :: multiset(r)[c] <= multiset(rows)[c]
    ensures UniqueIds(r)
  {
    forall i, j | 0 <= i < j < |r|
      ensures r[i].id != r[j].id
    {
      assert r[i] in multiset(r) && r[j] in multiset(r);
      assert r[i] in rows && r[j] in rows;
      if r[i] == r[j] {
        CountedTwice(r, i, j);
        UniqueIdsCountAtMostOne(rows, r[i]);
      } else {
        var a :| 0 <= a < |rows| && rows[a] == r[i];
        var b :| 0 <= b < |rows| && rows[b] == r[j];
        assert a != b;
      }
    }
  }

  /** Late February of a common year: the window reaches March 3 but not March 4. */
  lemma WindowCrossesFebruary()
    ensures BirthdayInWeek(Date(1990, 3, 3), Date(2023, 2, 25))
    ensures !BirthdayInWeek(Date(1990, 3, 4), Date(2023, 2, 25))
  {
    var today := Date(2023, 2, 25);
    forall k | 0 <= k < 7
      ensures AddDays(today, k) == if k <= 3 then Date(2023, 2, 25 + k) else Date(2023, 3, k - 3)
    {
      AddDaysWithinWeek(today, k);
    }
    assert CalendarWeek(today)[6] == (3, 3);
  }

  /** Late December: the window runs into January of the next year. */
  lemma WindowCrossesNewYear()
    ensures BirthdayInWeek(Date(1985, 1, 2), Date(2023, 12, 28))
  {
    var today := Date(2023, 12, 28);
    AddDaysWithinWeek(today, 5);
    assert CalendarWeek(today)[5] == (1, 2);
  }

  // ---------------------------------------------------------------------
  // Writes

  /** The row after an update: the body's fields, the row's own id and owner. */
  function Updated(c: Contact, body: ContactInput): Contact {
    c.(name := body.name, surname := body.surname, birthday := body.birthday,
       email := body.email, phone := body.phone)
  }

  /** The store without its `i`-th row: one copy of that row fewer, nothing else changed. */
  function RemoveAt(rows: seq<Contact>, i: nat): (r: seq<Contact>)
    requires i < |rows|
    ensures |r| == |rows| - 1
    ensures multiset(r) == multiset(rows) - multiset{rows[i]}
  {
    assert rows == rows[..i] + [rows[i]] + rows[i + 1..];
    rows[..i] + rows[i + 1..]
  }

  /** Appending a row leaves earlier matches first; the new row is found only when nothing before it matches. */
  lemma {:induction false} OwnedIndexAppend(rows: seq<Contact>, c: Contact, id: int, u: int)
    ensures OwnedIndex(rows + [c], id, u) ==
              if OwnedIndex(rows, id, u).Some? then OwnedIndex(rows, id, u)
              else if IsOwnedWithId(c, id, u) then Some(|rows|)
              else None
  {
    if rows != [] {
      assert (rows + [c])[1..] == rows[1..] + [c];
      OwnedIndexAppend(rows[1..], c, id, u);
    }
  }

  /** After an insert with a fresh id, the new row is found, and every other lookup is as before. */
  lemma InsertedIsFound(rows: seq<Contact>, c: Contact)
    requires forall x :: x in rows ==> x.id != c.id
    ensures GetContact(rows + [c], c.id, c.userId) == Some(c)
    ensures forall id, u :: id != c.id ==> GetContact(rows + [c], id, u) == GetContact(rows, id, u)
  {
    OwnedIndexAppend(rows, c, c.id, c.userId);
    forall id, u | id != c.id
      ensures GetContact(rows + [c], id, u) == GetContact(rows, id, u)
    {
      OwnedIndexAppend(rows, c, id, u);
      OwnedIndexSpec(rows, id, u);
    }
  }

  /**
   * After updating the `i`-th row, ids stay unique, a lookup of that row finds
   * the updated row, and every other lookup is as before.
   */
  lemma UpdatedIsFound(rows: seq<Contact>, i: nat, body: ContactInput)
    requires UniqueIds(rows) && i < |rows|
    ensures var after := rows[i := Updated(rows[i], body)];
      && UniqueIds(after)
      && GetContact(after, rows[i].id, rows[i].userId) == Some(Updated(rows[i], body))
      && forall id, u :: id != rows[i].id ==> GetContact(after, id, u) == GetContact(rows, id, u)
  {
    var after := rows[i := Updated(rows[i], body)];
    GetContactByRowId(after, i, rows[i].userId);
    forall id, u | id != rows[i].id
      ensures GetContact(after, id, u) == GetContact(rows, id, u)
    {
      assert forall j :: 0 <= j < |rows| ==> (IsOwnedWithId(after[j], id, u) <==> IsOwnedWithId(rows[j], id, u));
      OwnedIndexSpec(after, id, u);
      OwnedIndexSpec(rows, id, u);
      var a, b := OwnedIndex(after, id, u), OwnedIndex(rows, id, u);
      if a.Some? && b.Some? {
        assert a.value == b.value;
        assert a.value != i;
      }
    }
  }

  /** Positions of the store without its `i`-th row: those before `i` are unchanged, the later ones move down by one. */
  lemma RemoveAtPositions(rows: seq<Contact>, i: nat)
    requires i < |rows|
    ensures forall j :: 0 <= j < |RemoveAt(rows, i)| ==>
              RemoveAt(rows, i)[j] == if j < i then rows[j] else rows[j + 1]
  {
    assert RemoveAt(rows, i) == rows[..i] + rows[i + 1..];
  }

  /** Removing a row from a store with unique ids keeps the ids unique and finds the removed id for nobody. */
  lemma RemovedIdIsGone(rows: seq<Contact>, i: nat, u: int)
    requires UniqueIds(rows) && i < |rows|
    ensures UniqueIds(RemoveAt(rows, i))
    ensures GetContact(RemoveAt(rows, i), rows[i].id, u) == None
  {
    RemoveAtPositions(rows, i);
  }

  /** A lookup over two concatenated parts: a match in the first part, else a match in the second, shifted. */
  lemma {:induction false} OwnedIndexConcat(xs: seq<Contact>, ys: seq<Contact>, id: int, u: int)
    ensures OwnedIndex(xs + ys, id, u) ==
              if OwnedIndex(xs, id, u).Some? then OwnedIndex(xs, id, u)
              else match OwnedIndex(ys, id, u)
                case None => None
                case Some(k) => Some(|xs| + k)
  {
    if xs != [] {
      assert (xs + ys)[1..] == xs[1..] + ys;
      OwnedIndexConcat(xs[1..], ys, id, u);
    } else {
      assert xs + ys == ys;
    }
  }

  /** A row that does not match can be dropped from the front of a lookup, which then shifts by one. */
  lemma OwnedIndexSkip(c: Contact, back: seq<Contact>, id: int, u: int)
    requires !IsOwnedWithId(c, id, u)
    ensures OwnedIndex([c] + back, id, u) ==
              match OwnedIndex(back, id, u)
              case None => None
              case Some(k) => Some(k + 1)
  {
    assert ([c] + back)[1..] == back;
  }

  /** Removing a row whose id differs leaves every match of `id` in place, shifting the later ones down by one. */
  lemma RemovedKeepsOtherIndex(rows: seq<Contact>, i: nat, id: int, u: int)
    requires i < |rows| && id != rows[i].id
    ensures OwnedIndex(RemoveAt(rows, i), id, u) ==
              match OwnedIndex(rows, id, u)
              case None => None
              case Some(k) => Some(if k < i then k else k - 1)
  {
    var front, back := rows[..i], rows[i + 1..];
    assert RemoveAt(rows, i) == front + back;
    assert rows == front + ([rows[i]] + back);
    OwnedIndexConcat(front, back, id, u);
    OwnedIndexConcat(front, [rows[i]] + back, id, u);
    OwnedIndexSkip(rows[i], back, id, u);
    OwnedIndexSpec(front, id, u);
  }

  /** Removing a row changes no lookup of another id. */
  lemma RemovedKeepsOtherLookups(rows: seq<Contact>, i: nat, id: int, u: int)
    requires i < |rows| && id != rows[i].id
    ensures GetContact(RemoveAt(rows, i), id, u) == GetContact(rows, id, u)
  {
    RemovedKeepsOtherIndex(rows, i, id, u);
    RemoveAtPositions(rows, i);
    OwnedIndexSpec(rows, id, u);
  }

  /** After removing the `i`-th row, ids stay unique, its id is no longer found, and every other lookup is as before. */
  lemma RemovedIsGone(rows: seq<Contact>, i: nat)
    requires UniqueIds(rows) && i < |rows|
    ensures var after := RemoveAt(rows, i);
      && UniqueIds(after)
      && (forall u :: GetContact(after, rows[i].id, u) == None)
      && forall id, u :: id != rows[i].id ==> GetContact(after, id, u) == GetContact(rows, id, u)
  {
    forall u ensures GetContact(RemoveAt(rows, i), rows[i].id, u) == None {
      RemovedIdIsGone(rows, i, u);
    }
    forall id, u | id != rows[i].id
      ensures GetContact(RemoveAt(rows, i), id, u) == GetContact(rows, id, u)
    {
      RemovedKeepsOtherLookups(rows, i, id, u);
    }
  }

  /** The `contacts` table, updated in place by the repository's writes. */
  class ContactStore {
    var rows: seq<Contact>
    /** The id the table's sequence hands to the next inserted row. */
    var nextId: int

    ghost predicate Valid()
      reads this
    {
      UniqueIds(rows) && forall c :: c in rows ==> c.id < nextId
    }

    constructor ()
      ensures Valid() && rows == []
    {
      rows := [];
      nextId := 1;
    }

    /**
     * `post_contact`: inserts one row owned by `user` with the body's fields
     * and a fresh id, and returns it; the rows already stored are unchanged.
     */
    method PostContact(body: ContactInput, user: int) returns (c: Contact)
      requires Valid()
      modifies this
      ensures Valid()
      ensures c.userId == user && c.name == body.name && c.surname == body.surname
      ensures c.birthday == body.birthday && c.email == body.email && c.phone == body.phone
      ensures forall x :: x in old(rows) ==> x.id != c.id
      ensures rows == old(rows) + [c]
      ensures GetContact(rows, c.id, user) == Some(c)
    {
      c := Contact(nextId, user, body.name, body.surname, body.birthday, body.email, body.phone);
      InsertedIsFound(rows, c);
      rows := rows + [c];
      nextId := nextId + 1;
    }

    /**
     * `put_contact`: when the owner has a contact with that id, replaces its
     * name, surname, birthday, email and phone with the body's, keeps its id
     * and owner, and returns it; otherwise returns `None` and changes nothing.
     * No other row changes.
     */
    method PutContact(id: int, body: ContactInput, user: int) returns (r: Option<Contact>)
      requires Valid()
      modifies this
      ensures Valid() && nextId == old(nextId)
      ensures r.None? <==> old(GetContact(rows, id, user)).None?
      ensures r.None? ==> rows == old(rows)
      ensures r.Some? ==> r.value.id == id && r.value.userId == user
      ensures r.Some? ==> r.value.name == body.name && r.value.surname == body.surname
      ensures r.Some? ==> r.value.birthday == body.birthday && r.value.email == body.email && r.value.phone == body.phone
      ensures r.Some? ==> exists i :: (0 <= i < |old(rows)| && IsOwnedWithId(old(rows)[i], id, user)
                                       && rows == old(rows)[i := r.value])
      ensures r.Some? ==> GetContact(rows, id, user) == r
    {
      OwnedIndexSpec(rows, id, user);
      match OwnedIndex(rows, id, user)
      case None =>
        r := None;
      case Some(i) =>
        var c := Updated(rows[i], body);
        UpdatedIsFound(rows, i, body);
        rows := rows[i := c];
        r := Some(c);
    }

    /**
     * `delete_contact`: when the owner has a contact with that id, removes
     * that row and returns it; otherwise returns `None` and changes nothing.
     * No other row changes.
     */
    method DeleteContact(id: int, user: int) returns (r: Option<Contact>)
      requires Valid()
      modifies this
      ensures Valid() && nextId == old(nextId)
      ensures r == old(GetContact(rows, id, user))
      ensures r.None? ==> rows == old(rows)
      ensures r.Some? ==> exists i :: (0 <= i < |old(rows)| && old(rows)[i] == r.value
                                       && rows == RemoveAt(old(rows), i))
      ensures r.Some? ==> GetContact(rows, id, user) == None
    {
      OwnedIndexSpec(rows, id, user);
      match OwnedIndex(rows, id, user)
      case None =>
        r := None;
      case Some(i) =>
        r := Some(rows[i]);
        RemovedIsGone(rows, i);
        rows := RemoveAt(rows, i);
    }
  }
}
