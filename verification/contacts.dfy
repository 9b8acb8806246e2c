/** `CP_Contact_Manager`: the shared contact table, keyed by an auto-increment id
    and unique on email, and its deduplicating `find_or_create`, its allow-listed
    `update` and its paginated `get_all`. */
module Contacts {
  import opened Wrappers
  import opened Php
  import opened Host
  import Paging

  /** The writable columns of the contacts table. */
  datatype Column =
    | FirstName | LastName | Email | Phone | AddressLine1 | AddressLine2
    | City | State | ZipCode | Country | Source | Tags | Notes

  function ColumnName(c: Column): string {
    match c
    case FirstName => "first_name"
    case LastName => "last_name"
    case Email => "email"
    case Phone => "phone"
    case AddressLine1 => "address_line1"
    case AddressLine2 => "address_line2"
    case City => "city"
    case State => "state"
    case ZipCode => "zip_code"
    case Country => "country"
    case Source => "source"
    case Tags => "tags"
    case Notes => "notes"
  }

  /** One row of the contacts table (a NULL column reads as ""). */
  datatype Contact = Contact(
    firstName: string, lastName: string, email: string, phone: string,
    addressLine1: string, addressLine2: string, city: string, state: string,
    zipCode: string, country: string, source: string, tags: string, notes: string)

  function Get(c: Contact, col: Column): string {
    match col
    case FirstName => c.firstName
    case LastName => c.lastName
    case Email => c.email
    case Phone => c.phone
    case AddressLine1 => c.addressLine1
    case AddressLine2 => c.addressLine2
    case City => c.city
    case State => c.state
    case ZipCode => c.zipCode
    case Country => c.country
    case Source => c.source
    case Tags => c.tags
    case Notes => c.notes
  }

  /** The columns `find_or_create` fills from a submission. */
  predicate Submitted(col: Column) {
    col != Tags && col != Notes
  }

  /** The contacts table: rows by id, and the next AUTO_INCREMENT value. */
  datatype Store = Store(rows: map<nat, Contact>, nextId: nat)

  ghost predicate EmailsUnique(rows: map<nat, Contact>) {
    forall i, j :: i in rows && j in rows && rows[i].email == rows[j].email ==> i == j
  }

  /** Ids are positive and below the counter, and no two rows share an email (`UNIQUE KEY email`). */
  ghost predicate Valid(s: Store) {
    && s.nextId >= 1
    && (forall id :: id in s.rows ==> 1 <= id < s.nextId)
    && EmailsUnique(s.rows)
  }

  predicate HasEmail(s: Store, email: string) {
    exists id :: id in s.rows && s.rows[id].email == email
  }

  /** `SELECT id FROM contacts WHERE email = %s`, as a scan of the ids from `i` up to `n`. */
  function FindFrom(rows: map<nat, Contact>, email: string, i: nat, n: nat): (r: Option<nat>)
    ensures r.Some? ==> r.value in rows && rows[r.value].email == email && i <= r.value < n
    ensures r.None? ==> forall id :: id in rows && i <= id < n ==> rows[id].email != email
    decreases n - i
  {
    if i >= n then None
    else if i in rows && rows[i].email == email then Some(i)
    else FindFrom(rows, email, i + 1, n)
  }

  function FindByEmail(s: Store, email: string): (r: Option<nat>)
    requires Valid(s)
    ensures r.Some? <==> HasEmail(s, email)
    ensures r.Some? ==> r.value in s.rows && s.rows[r.value].email == email
  {
    FindFrom(s.rows, email, 0, s.nextId)
  }

  /** The sanitized `$contact_data` array built from a submission; an omitted country becomes "US". */
  function SanitizedSubmission(h: Host, data: map<string, string>, email: string): Contact {
    Contact(
      h.sanitizeText(Coalesce(data, "first_name", "")),
      h.sanitizeText(Coalesce(data, "last_name", "")),
      email,
      h.sanitizeText(Coalesce(data, "phone", "")),
      h.sanitizeText(Coalesce(data, "address_line1", "")),
      h.sanitizeText(Coalesce(data, "address_line2", "")),
      h.sanitizeText(Coalesce(data, "city", "")),
      h.sanitizeText(Coalesce(data, "state", "")),
      h.sanitizeText(Coalesce(data, "zip_code", "")),
      h.sanitizeText(Coalesce(data, "country", "US")),
      h.sanitizeText(Coalesce(data, "source", "")),
      "", "")
  }

  /** The value a dedup update leaves in a column: the submitted one unless PHP's `empty()` drops it. */
  function Keep(stored: string, submitted: string): string {
    if Empty(submitted) then stored else submitted
  }

  /** What the dedup update leaves in one column: the submitted email is always written,
      the columns a submission does not carry keep their stored value, and every other
      column keeps its stored value when `array_filter` drops the submitted one. */
  function MergeColumn(col: Column, stored: string, submitted: string): string {
    if col == Email then submitted else if !Submitted(col) then stored else Keep(stored, submitted)
  }

  /** The row after `array_filter` drops empty submitted values and the email is written back. */
  function Merge(stored: Contact, sub: Contact): Contact {
    Contact(
      Keep(stored.firstName, sub.firstName), Keep(stored.lastName, sub.lastName), sub.email,
      Keep(stored.phone, sub.phone), Keep(stored.addressLine1, sub.addressLine1),
      Keep(stored.addressLine2, sub.addressLine2), Keep(stored.city, sub.city),
      Keep(stored.state, sub.state), Keep(stored.zipCode, sub.zipCode),
      Keep(stored.country, sub.country), Keep(stored.source, sub.source),
      stored.tags, stored.notes)
  }

  /** Column by column: the submitted email is always written, tags and notes (which a
      submission does not carry) keep their stored value, and every other column takes the
      submitted value unless `empty()` drops it. */
  lemma MergeColumns(stored: Contact, sub: Contact, col: Column)
    ensures col == Email ==> Get(Merge(stored, sub), col) == Get(sub, col)
    ensures !Submitted(col) ==> Get(Merge(stored, sub), col) == Get(stored, col)
    ensures Submitted(col) && col != Email ==> Get(Merge(stored, sub), col) == Keep(Get(stored, col), Get(sub, col))
  {
  }

  datatype ContactError = MissingEmail | InvalidEmail | DbError

  datatype Outcome = Outcome(store: Store, result: Result<nat, ContactError>)

  /** The email `find_or_create` looks up: `sanitize_email($data['email'])`. */
  function SubmittedEmail(h: Host, data: map<string, string>): string {
    h.sanitizeEmail(Coalesce(data, "email", ""))
  }

  /** Adding a row under the next id, with an email no row holds, keeps the table valid. */
  lemma InsertRowValid(s: Store, row: Contact)
    requires Valid(s) && !HasEmail(s, row.email)
    ensures Valid(Store(s.rows[s.nextId := row], s.nextId + 1))
  {
  }

  /** `find_or_create($data)`; `insertOk` is whether the database accepts the INSERT and
      `updateOk` whether it accepts the dedup UPDATE (a value too long for its column is
      refused). A refused UPDATE is not checked: the id still comes back. */
  function FindOrCreate(h: Host, s: Store, data: map<string, string>, insertOk: bool, updateOk: bool): (o: Outcome)
    requires Valid(s)
    ensures Valid(o.store)
    // a missing or empty email is refused before anything else, and nothing changes
    ensures Empty(Coalesce(data, "email", "")) ==> o == Outcome(s, Failure(MissingEmail))
    // an email `is_email` rejects is refused, and nothing changes
    ensures !Empty(Coalesce(data, "email", "")) && !h.isEmail(SubmittedEmail(h, data)) ==>
      o == Outcome(s, Failure(InvalidEmail))
    // a failed write changes nothing
    ensures o.result.Failure? ==> o.store == s
    // on success the returned id holds the submitted email
    ensures o.result.Success? ==>
      o.result.value in o.store.rows && o.store.rows[o.result.value].email == SubmittedEmail(h, data)
    // a valid email already stored: its id comes back whether or not the UPDATE is accepted
    ensures !Empty(Coalesce(data, "email", "")) && h.isEmail(SubmittedEmail(h, data)) && HasEmail(s, SubmittedEmail(h, data)) ==>
      o.result.Success? && o.result.value in s.rows && s.rows[o.result.value].email == SubmittedEmail(h, data)
    // ... no row is added, and only that row changes, to the merge when the UPDATE is accepted
    ensures o.result.Success? && HasEmail(s, SubmittedEmail(h, data)) ==>
      var id := o.result.value;
      && id in s.rows && s.rows[id].email == SubmittedEmail(h, data)
      && o.store.nextId == s.nextId && o.store.rows.Keys == s.rows.Keys
      && (forall other :: other in s.rows && other != id ==> o.store.rows[other] == s.rows[other])
      && o.store.rows[id] == (if updateOk then Merge(s.rows[id], SanitizedSubmission(h, data, SubmittedEmail(h, data))) else s.rows[id])
    // a new email: exactly one row is inserted under the next id
    ensures !Empty(Coalesce(data, "email", "")) && h.isEmail(SubmittedEmail(h, data))
            && !HasEmail(s, SubmittedEmail(h, data)) ==>
      if insertOk then
        && o.result == Success(s.nextId)
        && o.store == Store(s.rows[s.nextId := SanitizedSubmission(h, data, SubmittedEmail(h, data))], s.nextId + 1)
      else o == Outcome(s, Failure(DbError))
  {
    if Empty(Coalesce(data, "email", "")) then Outcome(s, Failure(MissingEmail))
    else
      var email := SubmittedEmail(h, data);
      if !h.isEmail(email) then Outcome(s, Failure(InvalidEmail))
      else
        var sub := SanitizedSubmission(h, data, email);
        match FindByEmail(s, email)
        case Some(id) =>
          if updateOk then
            var merged := Merge(s.rows[id], sub);
            ReplaceRowValid(s, id, merged);
            Outcome(s.(rows := s.rows[id := merged]), Success(id))
          else Outcome(s, Success(id))
        case None =>
          if insertOk then
            InsertRowValid(s, sub);
            Outcome(Store(s.rows[s.nextId := sub], s.nextId + 1), Success(s.nextId))
          else Outcome(s, Failure(DbError))
  }

  /** Merging the same submission twice is merging it once. */
  lemma MergeIdempotent(stored: Contact, sub: Contact)
    ensures Merge(Merge(stored, sub), sub) == Merge(stored, sub)
  {
  }

  /** A repeated identical submission returns the same id and leaves the table as the first call left it. */
  lemma FindOrCreateIdempotent(h: Host, s: Store, data: map<string, string>, insertOk: bool, insertOk': bool)
    requires Valid(s)
    requires FindOrCreate(h, s, data, insertOk, true).result.Success?
    ensures var o := FindOrCreate(h, s, data, insertOk, true);
      FindOrCreate(h, o.store, data, insertOk', true) == o
  {
    var o := FindOrCreate(h, s, data, insertOk, true);
    var email := SubmittedEmail(h, data);
    var sub := SanitizedSubmission(h, data, email);
    var id := o.result.value;
    assert HasEmail(o.store, email);
    assert FindByEmail(o.store, email) == Some(id);
    if HasEmail(s, email) {
      MergeIdempotent(s.rows[id], sub);
    } else {
      assert o.store.rows[id] == sub;
      assert Merge(sub, sub) == sub;
    }
    assert Merge(o.store.rows[id], sub) == o.store.rows[id];
    UpdateSame(o.store.rows, id);
  }

  lemma UpdateSame(m: map<nat, Contact>, k: nat)
    requires k in m
    ensures m[k := m[k]] == m
  {
  }

  /** An omitted country is submitted as "US", which `empty()` keeps, so a dedup update
      overwrites whatever country the stored contact had. */
  lemma OmittedCountryOverwrites(h: Host, s: Store, data: map<string, string>, insertOk: bool)
    requires Valid(s)
    requires "country" !in data && h.sanitizeText("US") == "US"
    requires FindOrCreate(h, s, data, insertOk, true).result.Success?
    ensures var o := FindOrCreate(h, s, data, insertOk, true);
      o.store.rows[o.result.value].country == "US"
  {
    var o := FindOrCreate(h, s, data, insertOk, true);
    assert Get(SanitizedSubmission(h, data, SubmittedEmail(h, data)), Country) == "US";
    if HasEmail(s, SubmittedEmail(h, data)) {
      assert Get(o.store.rows[o.result.value], Country) == "US";
    }
  }

  /** `update` sanitizes each allow-listed column by its kind. */
  function SanitizeColumn(h: Host, col: Column, v: string): string {
    if col == Email then h.sanitizeEmail(v)
    else if col == Tags || col == Notes then h.sanitizeTextarea(v)
    else h.sanitizeText(v)
  }

  /** Whether `update` finds any allow-listed field in `data` (the `empty($update_data)` test). */
  predicate AnyUpdatable(data: map<string, string>) {
    exists col :: ColumnName(col) in data
  }

  /** The value `update` writes to `col`: the sanitized submitted value when the key is set. */
  function Supplied(h: Host, data: map<string, string>, col: Column, stored: string): string {
    if ColumnName(col) in data then SanitizeColumn(h, col, data[ColumnName(col)]) else stored
  }

  /** The row `update` asks the database to write: every allow-listed field supplied, sanitized. */
  function UpdatedRow(h: Host, row: Contact, data: map<string, string>): (r: Contact)
    ensures forall col :: Get(r, col) == Supplied(h, data, col, Get(row, col))
  {
    Contact(
      Supplied(h, data, FirstName, row.firstName), Supplied(h, data, LastName, row.lastName),
      Supplied(h, data, Email, row.email), Supplied(h, data, Phone, row.phone),
      Supplied(h, data, AddressLine1, row.addressLine1), Supplied(h, data, AddressLine2, row.addressLine2),
      Supplied(h, data, City, row.city), Supplied(h, data, State, row.state),
      Supplied(h, data, ZipCode, row.zipCode), Supplied(h, data, Country, row.country),
      Supplied(h, data, Source, row.source), Supplied(h, data, Tags, row.tags),
      Supplied(h, data, Notes, row.notes))
  }

  /** Replacing one row by a row whose email no other row holds keeps the table valid. */
  lemma ReplaceRowValid(s: Store, id: nat, row: Contact)
    requires Valid(s) && id in s.rows
    requires forall other :: other in s.rows && other != id ==> s.rows[other].email != row.email
    ensures Valid(s.(rows := s.rows[id := row]))
  {
  }

  /** `update($id, $data)`. The database refuses a write that would duplicate another row's
      email, and a write it does not accept for other reasons (`writeOk` false, a value too
      long for its column); it reports false when no column value actually changes. */
  function Update(h: Host, s: Store, id: nat, data: map<string, string>, writeOk: bool): (r: (Store, bool))
    requires Valid(s)
    ensures Valid(r.0)
    // nothing allow-listed supplied: false, nothing touched
    ensures !AnyUpdatable(data) ==> r == (s, false)
    // only row `id` can change, and no row is added or removed
    ensures r.0.nextId == s.nextId && r.0.rows.Keys == s.rows.Keys
    ensures forall other :: other in s.rows && other != id ==> r.0.rows[other] == s.rows[other]
    // false means nothing changed; true means row `id` now holds exactly the supplied, sanitized fields
    ensures !r.1 ==> r.0 == s
    ensures r.1 ==> id in s.rows && r.0.rows[id] != s.rows[id] && r.0.rows[id] == UpdatedRow(h, s.rows[id], data)
    // a write that would give the row another row's email is refused
    ensures forall other :: (other in s.rows && other != id && id in s.rows &&
                             s.rows[other].email == UpdatedRow(h, s.rows[id], data).email) ==> !r.1
    // a refused write reports false
    ensures !writeOk ==> !r.1
    // and it succeeds exactly when the row exists, something allow-listed is supplied, the
    // written row differs from the stored one, no other row holds its email and the write is accepted
    ensures r.1 <==>
      && id in s.rows && AnyUpdatable(data) && writeOk
      && UpdatedRow(h, s.rows[id], data) != s.rows[id]
      && (forall other :: other in s.rows && other != id ==> s.rows[other].email != UpdatedRow(h, s.rows[id], data).email)
  {
    if !AnyUpdatable(data) || id !in s.rows || !writeOk then (s, false)
    else
      var row := UpdatedRow(h, s.rows[id], data);
      if row == s.rows[id] then (s, false)
      else
        var clash := FindByEmail(s, row.email);
        if clash.Some? && clash.value != id then (s, false)
        else
          ReplaceRowValid(s, id, row);
          (s.(rows := s.rows[id := row]), true)
  }

  lemma UpdatedRowIgnoresOtherKeys(h: Host, row: Contact, data: map<string, string>, data': map<string, string>)
    requires forall col :: (ColumnName(col) in data <==> ColumnName(col) in data')
    requires forall col :: ColumnName(col) in data ==> data[ColumnName(col)] == data'[ColumnName(col)]
    ensures UpdatedRow(h, row, data) == UpdatedRow(h, row, data')
  {
    forall col, stored: string
      ensures Supplied(h, data, col, stored) == Supplied(h, data', col, stored)
    {
    }
  }

  /** `update` reads `data` only at the allow-listed keys: two submissions agreeing there
      have the same effect. */
  lemma UpdateIgnoresOtherKeys(h: Host, s: Store, id: nat, data: map<string, string>, data': map<string, string>)
    requires Valid(s)
    requires forall col :: (ColumnName(col) in data <==> ColumnName(col) in data')
    requires forall col :: ColumnName(col) in data ==> data[ColumnName(col)] == data'[ColumnName(col)]
    ensures forall ok :: Update(h, s, id, data, ok) == Update(h, s, id, data', ok)
  {
    assert AnyUpdatable(data) <==> AnyUpdatable(data') by {
      if AnyUpdatable(data) {
        var col :| ColumnName(col) in data;
        assert ColumnName(col) in data';
      }
      if AnyUpdatable(data') {
        var col :| ColumnName(col) in data';
        assert ColumnName(col) in data;
      }
    }
    if id in s.rows {
      UpdatedRowIgnoresOtherKeys(h, s.rows[id], data, data');
    }
  }

  /** Updating a row with exactly what it already holds reports false and changes nothing;
      after a successful update, the same update again is such a no-op. */
  lemma UpdateTwiceIsNoOp(h: Host, s: Store, id: nat, data: map<string, string>, writeOk: bool)
    requires Valid(s)
    requires Update(h, s, id, data, writeOk).1
    ensures var s1 := Update(h, s, id, data, writeOk).0;
      Update(h, s1, id, data, writeOk) == (s1, false)
  {
  }

  /** The result of `get_all($page, $per_page)`: one page of contacts, the total and the page count. */
  datatype ContactPage = ContactPage(contacts: seq<Contact>, total: nat, pages: int)

  /** `get_all($page, $per_page)` over the table in its `ORDER BY created_at DESC` order.
      A zero page size makes PHP's division throw (None). */
  function GetAll(listing: seq<Contact>, page: int, perPage: int): (r: Option<ContactPage>)
    ensures r.None? <==> perPage == 0
    ensures r.Some? ==> r.value.total == |listing|
    ensures r.Some? && perPage > 0 ==>
      && r.value.pages == Paging.CeilDiv(|listing|, perPage)
      && r.value.contacts == Paging.Window(listing, Paging.Offset(page, perPage), perPage)
    ensures r.Some? && perPage > 0 && page >= 1 ==>
      forall k :: 0 <= k < |r.value.contacts| ==> r.value.contacts[k] == listing[(page - 1) * perPage + k]
  {
    if perPage == 0 then None
    else
      var pages: int := if perPage > 0 then Paging.CeilDiv(|listing|, perPage) else -(|listing| / -perPage);
      Some(ContactPage(Paging.Window(listing, Paging.Offset(page, perPage), perPage), |listing|, pages))
  }
}
