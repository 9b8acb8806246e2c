/** The RSVP side of `CP_Event_Manager`: the RSVP table, the headcount
    `get_event_rsvp_count` reads from it, the capacity rules `render_rsvp_form` and
    `handle_event_rsvp` apply to that headcount, and the submission pipeline of
    `handle_event_rsvp`. */
module Rsvp {
  import opened Wrappers
  import opened Php
  import opened Posts
  import Host
  import Contacts
  import Events

  /** One row of the RSVP table; `contactId` is NULL when the contact manager is not loaded. */
  datatype RsvpRow = RsvpRow(eventId: nat, contactId: Option<nat>, guests: nat, dietary: string, status: string)

  /** The RSVP table: its rows in insertion order, and the next AUTO_INCREMENT id. */
  datatype RsvpTable = RsvpTable(rows: seq<RsvpRow>, nextId: nat)

  /** The rows `get_event_rsvp_count` sums: the event's, with status "attending". */
  predicate Attending(row: RsvpRow, eventId: nat) {
    row.eventId == eventId && row.status == "attending"
  }

  /** `get_event_rsvp_count`: `SUM(guests)` over the event's attending rows; the NULL of a
      sum over no rows is cast to 0. */
  function Headcount(rows: seq<RsvpRow>, eventId: nat): nat {
    if rows == [] then 0
    else (if Attending(rows[0], eventId) then rows[0].guests else 0) + Headcount(rows[1..], eventId)
  }

  /** The sum splits over any split of the table. */
  lemma {:induction false} HeadcountConcat(a: seq<RsvpRow>, b: seq<RsvpRow>, eventId: nat)
    ensures Headcount(a + b, eventId) == Headcount(a, eventId) + Headcount(b, eventId)
  {
    if a == [] {
      assert a + b == b;
    } else {
      assert (a + b)[1..] == a[1..] + b;
      HeadcountConcat(a[1..], b, eventId);
    }
  }

  /** A new row adds its guests to its own event's headcount if it is attending, and
      changes no other event's headcount. */
  lemma HeadcountAppend(rows: seq<RsvpRow>, row: RsvpRow, eventId: nat)
    ensures Headcount(rows + [row], eventId) == Headcount(rows, eventId) + (if Attending(row, eventId) then row.guests else 0)
  {
    HeadcountConcat(rows, [row], eventId);
    assert [row][1..] == [];
  }

  /** An event none of whose rows is attending has headcount 0. */
  lemma {:induction false} HeadcountWithoutAttendees(rows: seq<RsvpRow>, eventId: nat)
    requires forall i :: 0 <= i < |rows| ==> !Attending(rows[i], eventId)
    ensures Headcount(rows, eventId) == 0
  {
    if rows != [] {
      assert forall i :: 0 <= i < |rows| - 1 ==> rows[1..][i] == rows[i + 1];
      HeadcountWithoutAttendees(rows[1..], eventId);
    }
  }

  predicate AllDigits(s: string) {
    forall i :: 0 <= i < |s| ==> IsDigit(s[i])
  }

  /** How both capacity checks read the `_cp_max_capacity` meta value. "" and "0" are
      false in PHP, so there is no limit; a string of decimal digits compares as its number;
      every other string is taken as non-numeric, which PHP 8 compares with an integer as two
      strings. PHP 8 also reads some other strings as numbers (" 5", "5.5", "1e3"); `Text`
      does not tell those apart, so only capacities written by `absint` are modelled exactly. */
  datatype Capacity = Unlimited | Limit(n: nat) | Text(s: string)

  function CapacityOf(v: string): (c: Capacity)
    ensures c == Unlimited <==> Empty(v)
    ensures c.Limit? <==> !Empty(v) && AllDigits(v)
    ensures c.Limit? ==> c.n == DigitsValue(v)
  {
    if Empty(v) then Unlimited
    else if AllDigits(v) then Limit(DigitsValue(v))
    else Text(v)
  }

  /** The value `save_event_meta` stores, `absint` printed as a numeral, reads back as that
      number, and as no limit when it is 0. */
  lemma CapacityOfDecimal(n: nat)
    ensures CapacityOf(Decimal(n)) == if n == 0 then Unlimited else Limit(n)
  {
    DecimalRoundTrip(n);
    if n == 0 {
      assert Decimal(0) == "0";
    } else {
      DecimalOfPositiveNotEmpty(n);
    }
  }

  /** `$max_capacity && ($current_rsvps + $guests) > $max_capacity` */
  predicate Rejects(c: Capacity, current: nat, guests: nat) {
    match c
    case Unlimited => false
    case Limit(n) => current + guests > n
    case Text(s) => LexLess(s, Decimal(current + guests))
  }

  /** `$max_capacity && $current_rsvps >= $max_capacity` */
  predicate AtCapacity(c: Capacity, current: nat) {
    match c
    case Unlimited => false
    case Limit(n) => current >= n
    case Text(s) => LexLeq(s, Decimal(current))
  }

  /** After an event is saved with a capacity box value, an RSVP is refused exactly when that
      value is positive and the headcount plus the party would exceed it: 0, an empty or
      an absent value means unlimited. */
  lemma SavedCapacityRule(h: Host.Host, meta: Meta, form: map<string, string>, current: nat, guests: nat)
    ensures var saved := Events.SaveCapacity(h, meta, form, true);
      var n := Host.AbsintOr(h, form, "cp_max_capacity", 0);
      Rejects(CapacityOf(GetMeta(saved, Events.CapacityKey)), current, guests) <==> n > 0 && current + guests > n
  {
    CapacityOfDecimal(Host.AbsintOr(h, form, "cp_max_capacity", 0));
  }

  /** The capacity line of the form: none without a limit, "Spots remaining: left of total"
      with one, and a subtraction PHP 8 refuses when the stored value is not numeric. */
  datatype SpotsLine = NoSpotsLine | Remaining(left: nat, total: nat) | NonNumericTotal

  /** What `render_rsvp_form` shows. */
  datatype RsvpForm = NotEnabled | Full | Open(spots: SpotsLine, dietary: bool)

  /** `get_post_meta` reads a post that does not exist as having no meta. */
  function EventMeta(s: Site, id: nat): Meta {
    if id in s.posts then s.posts[id].meta else map[]
  }

  /** `max(0, $max_capacity - $current_rsvps)` of `$max_capacity`, shown when it is truthy. */
  function SpotsLineOf(c: Capacity, current: nat): (r: SpotsLine)
    ensures r.NoSpotsLine? <==> c.Unlimited?
    ensures r.NonNumericTotal? <==> c.Text?
    ensures r.Remaining? ==> c.Limit? && r.total == c.n && r.left <= r.total
    ensures r.Remaining? ==> (r.left == 0 <==> current >= r.total) && (current <= r.total ==> r.left + current == r.total)
  {
    match c
    case Unlimited => NoSpotsLine
    case Limit(n) => Remaining(if n >= current then n - current else 0, n)
    case Text(_) => NonNumericTotal
  }

  /** `render_rsvp_form($atts)`: the event is `absint($atts['event_id'])`, defaulting to the
      current post's id. */
  function RenderRsvpForm(h: Host.Host, s: Site, rows: seq<RsvpRow>, atts: map<string, string>, currentId: nat): (f: RsvpForm)
    ensures var meta := EventMeta(s, Host.AbsintOr(h, atts, "event_id", currentId));
      && (f.NotEnabled? <==> GetMeta(meta, Events.RsvpEnabledKey) != "1")
      && (f.Open? ==> (f.dietary <==> GetMeta(meta, Events.DietaryKey) == "1"))
  {
    var id := Host.AbsintOr(h, atts, "event_id", currentId);
    var meta := EventMeta(s, id);
    if GetMeta(meta, Events.RsvpEnabledKey) != "1" then NotEnabled
    else
      var c := CapacityOf(GetMeta(meta, Events.CapacityKey));
      var current := Headcount(rows, id);
      if AtCapacity(c, current) then Full
      else Open(SpotsLineOf(c, current), GetMeta(meta, Events.DietaryKey) == "1")
  }

  /** With a numeric limit, the form shows "full" exactly when the headcount has reached
      it, and otherwise a positive number of spots that adds up with the headcount to the
      limit; without a limit the form is never full and shows no capacity line. */
  lemma FormCapacity(h: Host.Host, s: Site, rows: seq<RsvpRow>, atts: map<string, string>, currentId: nat)
    requires var id := Host.AbsintOr(h, atts, "event_id", currentId);
      GetMeta(EventMeta(s, id), Events.RsvpEnabledKey) == "1"
    ensures var id := Host.AbsintOr(h, atts, "event_id", currentId);
      var c := CapacityOf(GetMeta(EventMeta(s, id), Events.CapacityKey));
      var f := RenderRsvpForm(h, s, rows, atts, currentId);
      && (c.Limit? ==> (f.Full? <==> Headcount(rows, id) >= c.n))
      && (c.Limit? && !f.Full? ==>
            (f.spots.Remaining? && f.spots.total == c.n && f.spots.left > 0 && f.spots.left + Headcount(rows, id) == c.n))
      && (c.Unlimited? ==> f == Open(NoSpotsLine, GetMeta(EventMeta(s, id), Events.DietaryKey) == "1"))
  {
  }

  /** The spots the form offers are exactly the parties the handler admits; once the form
      shows "full", every party of one or more is refused. */
  lemma SpotsAgreeWithAdmission(n: nat, current: nat, guests: nat)
    ensures !AtCapacity(Limit(n), current) ==>
      var spots := SpotsLineOf(Limit(n), current);
      spots.Remaining? && (Rejects(Limit(n), current, guests) <==> guests > spots.left)
    ensures AtCapacity(Limit(n), current) && guests >= 1 ==> Rejects(Limit(n), current, guests)
  {
  }

  /** An RSVP for zero guests (an `absint` of "0" or of a non-number) passes the capacity
      check even when the event is full; it adds nothing to the headcount. */
  lemma ZeroGuestsPassFullEvent(n: nat)
    ensures AtCapacity(Limit(n), n) && !Rejects(Limit(n), n, 0)
  {
  }

  datatype RsvpError =
    | SecurityFailed | TooManyRequests | InvalidEvent | EventFull | MissingFields
    | ContactFailed(reason: Contacts.ContactError) | SaveFailed

  /** The state `handle_event_rsvp` reads and writes. */
  datatype World = World(site: Site, contacts: Contacts.Store, rsvps: RsvpTable)

  /** What the host decides outside the model: the nonce, the rate limiter, whether the
      contact manager is loaded, and whether each INSERT succeeds. */
  datatype Gates = Gates(nonceOk: bool, rateLimited: bool, managerLoaded: bool, contactInsertOk: bool, contactUpdateOk: bool, rsvpInsertOk: bool)

  datatype Reply = Reply(world: World, result: Result<nat, RsvpError>)

  function EventIdOf(h: Host.Host, post: map<string, string>): nat {
    Host.AbsintOr(h, post, "event_id", 0)
  }

  /** `absint($_POST['guests'] ?? 1)` */
  function GuestsOf(h: Host.Host, post: map<string, string>): nat {
    Host.AbsintOr(h, post, "guests", 1)
  }

  predicate IsEvent(s: Site, id: nat) {
    id in s.posts && s.posts[id].postType == "cp_event"
  }

  function FirstName(h: Host.Host, post: map<string, string>): string {
    h.sanitizeText(Coalesce(post, "first_name", ""))
  }

  function LastName(h: Host.Host, post: map<string, string>): string {
    h.sanitizeText(Coalesce(post, "last_name", ""))
  }

  function EmailOf(h: Host.Host, post: map<string, string>): string {
    h.sanitizeEmail(Coalesce(post, "email", ""))
  }

  /** The array handed to `find_or_create`. */
  function ContactData(h: Host.Host, post: map<string, string>): map<string, string> {
    map["first_name" := FirstName(h, post), "last_name" := LastName(h, post),
        "email" := EmailOf(h, post), "phone" := h.sanitizeText(Coalesce(post, "phone", ""))]
  }

  function CapacityFor(w: World, eventId: nat): Capacity {
    CapacityOf(GetMeta(EventMeta(w.site, eventId), Events.CapacityKey))
  }

  /** The checks `handle_event_rsvp` makes before it writes anything, in its order; the
      first that fails ends the request. */
  function Precheck(h: Host.Host, w: World, post: map<string, string>, g: Gates): (e: Option<RsvpError>)
    // each error is reported exactly when its check fails and every earlier check passed
    ensures e == Some(SecurityFailed) <==> !g.nonceOk
    ensures e == Some(TooManyRequests) <==> g.nonceOk && g.rateLimited
    ensures e == Some(InvalidEvent) <==>
      g.nonceOk && !g.rateLimited && (EventIdOf(h, post) == 0 || !IsEvent(w.site, EventIdOf(h, post)))
    ensures e == Some(EventFull) <==>
      && g.nonceOk && !g.rateLimited && EventIdOf(h, post) != 0 && IsEvent(w.site, EventIdOf(h, post))
      && Rejects(CapacityFor(w, EventIdOf(h, post)), Headcount(w.rsvps.rows, EventIdOf(h, post)), GuestsOf(h, post))
    ensures e == Some(MissingFields) <==>
      && g.nonceOk && !g.rateLimited && EventIdOf(h, post) != 0 && IsEvent(w.site, EventIdOf(h, post))
      && !Rejects(CapacityFor(w, EventIdOf(h, post)), Headcount(w.rsvps.rows, EventIdOf(h, post)), GuestsOf(h, post))
      && (Empty(FirstName(h, post)) || Empty(LastName(h, post)) || Empty(EmailOf(h, post)))
    ensures e.None? <==>
      && g.nonceOk && !g.rateLimited && EventIdOf(h, post) != 0 && IsEvent(w.site, EventIdOf(h, post))
      && !Rejects(CapacityFor(w, EventIdOf(h, post)), Headcount(w.rsvps.rows, EventIdOf(h, post)), GuestsOf(h, post))
      && !Empty(FirstName(h, post)) && !Empty(LastName(h, post)) && !Empty(EmailOf(h, post))
  {
    var id := EventIdOf(h, post);
    if !g.nonceOk then Some(SecurityFailed)
    else if g.rateLimited then Some(TooManyRequests)
    else if id == 0 || !IsEvent(w.site, id) then Some(InvalidEvent)
    else if Rejects(CapacityFor(w, id), Headcount(w.rsvps.rows, id), GuestsOf(h, post)) then Some(EventFull)
    else if Empty(FirstName(h, post)) || Empty(LastName(h, post)) || Empty(EmailOf(h, post)) then Some(MissingFields)
    else None
  }

  /** The contact step: `find_or_create` when the contact manager is loaded, else no contact. */
  function ContactStep(h: Host.Host, store: Contacts.Store, post: map<string, string>, g: Gates): (r: (Contacts.Store, Result<Option<nat>, Contacts.ContactError>))
    requires Contacts.Valid(store)
    ensures Contacts.Valid(r.0)
    ensures r.1.Failure? ==> r.0 == store
    ensures !g.managerLoaded ==> r == (store, Success(None))
    ensures r.1.Success? && g.managerLoaded ==>
      r.1.value.Some? && r.1.value.value in r.0.rows
      && r.0.rows[r.1.value.value].email == Contacts.SubmittedEmail(h, ContactData(h, post))
  {
    if !g.managerLoaded then (store, Success(None))
    else
      var o := Contacts.FindOrCreate(h, store, ContactData(h, post), g.contactInsertOk, g.contactUpdateOk);
      match o.result
      case Success(id) => (o.store, Success(Some(id)))
      case Failure(e) => (o.store, Failure(e))
  }

  /** The row `handle_event_rsvp` inserts. */
  function NewRow(h: Host.Host, post: map<string, string>, contactId: Option<nat>): RsvpRow {
    RsvpRow(EventIdOf(h, post), contactId, GuestsOf(h, post),
      h.sanitizeTextarea(Coalesce(post, "dietary_restrictions", "")), "attending")
  }

  /** `handle_event_rsvp` with the request `post`. */
  function HandleRsvp(h: Host.Host, w: World, post: map<string, string>, g: Gates): (r: Reply)
    requires Contacts.Valid(w.contacts)
    ensures Contacts.Valid(r.world.contacts)
    // a failed check answers with its error and changes nothing
    ensures Precheck(h, w, post, g).Some? ==> r == Reply(w, Failure(Precheck(h, w, post, g).value))
    // only a failed RSVP insert can leave anything changed behind: the contact step's write
    ensures r.result.Failure? && r.result.error != SaveFailed ==> r.world == w
    ensures r.result.Failure? ==> r.world.site == w.site && r.world.rsvps == w.rsvps
    // success: exactly one attending row for the event and party, under the next id
    ensures r.result.Success? <==>
      Precheck(h, w, post, g).None? && ContactStep(h, w.contacts, post, g).1.Success? && g.rsvpInsertOk
    ensures r.result.Success? ==>
      var contactId := ContactStep(h, w.contacts, post, g).1.value;
      && r.result.value == w.rsvps.nextId
      && r.world == World(w.site, ContactStep(h, w.contacts, post, g).0,
                          RsvpTable(w.rsvps.rows + [NewRow(h, post, contactId)], w.rsvps.nextId + 1))
  {
    match Precheck(h, w, post, g)
    case Some(e) => Reply(w, Failure(e))
    case None =>
      var (store, contact) := ContactStep(h, w.contacts, post, g);
      match contact
      case Failure(e) => Reply(w, Failure(ContactFailed(e)))
      case Success(contactId) =>
        if g.rsvpInsertOk then
          Reply(World(w.site, store, RsvpTable(w.rsvps.rows + [NewRow(h, post, contactId)], w.rsvps.nextId + 1)),
                Success(w.rsvps.nextId))
        else Reply(World(w.site, store, w.rsvps), Failure(SaveFailed))
  }

  /** An accepted RSVP adds its party to its event's headcount and to no other event's. */
  lemma AcceptedRsvpCounts(h: Host.Host, w: World, post: map<string, string>, g: Gates, eventId: nat)
    requires Contacts.Valid(w.contacts)
    requires HandleRsvp(h, w, post, g).result.Success?
    ensures var after := HandleRsvp(h, w, post, g).world.rsvps.rows;
      Headcount(after, eventId) ==
        Headcount(w.rsvps.rows, eventId) + (if eventId == EventIdOf(h, post) then GuestsOf(h, post) else 0)
  {
    var contactId := ContactStep(h, w.contacts, post, g).1.value;
    HeadcountAppend(w.rsvps.rows, NewRow(h, post, contactId), eventId);
  }

  /** No request pushes an event with a numeric limit past it: a headcount within the limit
      before a request is within it after. */
  lemma HandleRsvpKeepsCapacity(h: Host.Host, w: World, post: map<string, string>, g: Gates, eventId: nat, n: nat)
    requires Contacts.Valid(w.contacts)
    requires CapacityFor(w, eventId) == Limit(n) && Headcount(w.rsvps.rows, eventId) <= n
    ensures Headcount(HandleRsvp(h, w, post, g).world.rsvps.rows, eventId) <= n
  {
    if HandleRsvp(h, w, post, g).result.Success? {
      AcceptedRsvpCounts(h, w, post, g, eventId);
    }
  }
}
