/** `CP_Volunteer_Manager`: the public signup handler with its per-IP submission counter,
    the client-IP selection it keys the counter on, the volunteer table's record
    construction, and the admin screen's bulk actions and pagination. */
module Volunteers {
  import opened Wrappers
  import opened Php
  import Host
  import Contacts
  import Paging

  // ---------------------------------------------------------------- client IP

  /** The `$_SERVER` entries `get_client_ip` looks at, most trusted first. */
  const IpHeaders: seq<string> := ["HTTP_X_FORWARDED_FOR", "HTTP_X_REAL_IP", "HTTP_CLIENT_IP", "REMOTE_ADDR"]

  /** The part of `v` before its first comma (all of `v` when it has none). */
  function UpToComma(v: string): (r: string)
    ensures |r| <= |v| && r == v[..|r|]
    ensures ',' !in r
    ensures |r| < |v| ==> v[|r|] == ','
  {
    if v == [] || v[0] == ',' then [] else [v[0]] + UpToComma(v[1..])
  }

  /** The address a header value names: `trim(explode(',', $ip)[0])` when it lists several. */
  function Candidate(v: string): string {
    if ',' in v then Trim(UpToComma(v)) else v
  }

  /** The first of `keys` whose value is non-empty and whose candidate passes the public-IP
      filter, read as its candidate. */
  function FirstPublic(h: Host.Host, server: map<string, string>, keys: seq<string>): Option<string> {
    if keys == [] then None
    else if keys[0] in server && !Empty(server[keys[0]]) && h.isPublicIp(Candidate(server[keys[0]])) then
      Some(Candidate(server[keys[0]]))
    else FirstPublic(h, server, keys[1..])
  }

  /** A header is chosen when it qualifies and no header before it does. */
  predicate Qualifies(h: Host.Host, server: map<string, string>, key: string) {
    key in server && !Empty(server[key]) && h.isPublicIp(Candidate(server[key]))
  }

  lemma {:induction false} FirstPublicIsFirstQualifying(h: Host.Host, server: map<string, string>, keys: seq<string>)
    ensures FirstPublic(h, server, keys).None? <==> forall i :: 0 <= i < |keys| ==> !Qualifies(h, server, keys[i])
    ensures FirstPublic(h, server, keys).Some? ==>
      exists i :: 0 <= i < |keys| && Qualifies(h, server, keys[i])
        && FirstPublic(h, server, keys).value == Candidate(server[keys[i]])
        && forall j :: 0 <= j < i ==> !Qualifies(h, server, keys[j])
  {
    if keys != [] {
      FirstPublicIsFirstQualifying(h, server, keys[1..]);
      assert forall i :: 1 <= i < |keys| ==> keys[i] == keys[1..][i - 1];
      if !Qualifies(h, server, keys[0]) && FirstPublic(h, server, keys).Some? {
        var i :| 0 <= i < |keys[1..]| && Qualifies(h, server, keys[1..][i])
          && FirstPublic(h, server, keys[1..]).value == Candidate(server[keys[1..][i]])
          && forall j :: 0 <= j < i ==> !Qualifies(h, server, keys[1..][j]);
        assert keys[1..][i] == keys[i + 1];
      }
    }
  }

  /** `get_client_ip()`: the first header that yields a public address, else the raw
      `REMOTE_ADDR`, else "127.0.0.1". */
  method ClientIp(h: Host.Host, server: map<string, string>) returns (ip: string)
    ensures FirstPublic(h, server, IpHeaders).Some? ==> ip == FirstPublic(h, server, IpHeaders).value
    ensures FirstPublic(h, server, IpHeaders).None? ==> ip == Coalesce(server, "REMOTE_ADDR", "127.0.0.1")
  {
    var i := 0;
    while i < |IpHeaders|
      invariant 0 <= i <= |IpHeaders|
      invariant FirstPublic(h, server, IpHeaders) == FirstPublic(h, server, IpHeaders[i..])
    {
      var key := IpHeaders[i];
      assert IpHeaders[i..][1..] == IpHeaders[i + 1..];
      if key in server && !Empty(server[key]) {
        var candidate := Candidate(server[key]);
        if h.isPublicIp(candidate) {
          return candidate;
        }
      }
      i := i + 1;
    }
    ip := Coalesce(server, "REMOTE_ADDR", "127.0.0.1");
  }

  lemma {:induction false} UpToCommaOfList(first: string, rest: string)
    requires ',' !in first
    ensures UpToComma(first + "," + rest) == first
  {
    if first != [] {
      assert (first + "," + rest)[1..] == first[1..] + "," + rest;
      UpToCommaOfList(first[1..], rest);
    }
  }

  /** A forwarded list's first entry wins over every later header. */
  lemma ForwardedListWins(h: Host.Host, server: map<string, string>, first: string, rest: string)
    requires "HTTP_X_FORWARDED_FOR" in server && server["HTTP_X_FORWARDED_FOR"] == first + "," + rest
    requires ',' !in first && h.isPublicIp(Trim(first))
    ensures FirstPublic(h, server, IpHeaders) == Some(Trim(first))
  {
    var v := first + "," + rest;
    assert v[|first|] == ',';
    UpToCommaOfList(first, rest);
    assert Candidate(v) == Trim(first);
  }

  // ------------------------------------------------------------------ signup

  /** One row of the volunteer table. The two lists are stored as their `wp_json_encode`
      text, or as "" when the request did not carry the field as an array (`None`). */
  datatype Volunteer = Volunteer(
    contactId: Option<nat>, skills: string, interests: Option<seq<string>>,
    availability: Option<seq<string>>, opportunityId: Option<nat>, source: string, status: string)

  /** The volunteer table: rows by id, and the next AUTO_INCREMENT id. */
  datatype Table = Table(rows: map<nat, Volunteer>, nextId: nat)

  /** A signup request: its scalar fields, and the fields posted as arrays. */
  datatype Request = Request(fields: map<string, string>, lists: map<string, seq<string>>)

  /** The per-IP submission counters (`cp_volunteer_rate_limit_<md5(ip)>` transients). */
  type Counters = map<string, nat>

  /** `get_transient`: a missing counter reads as `false`, which compares like 0. */
  function Count(c: Counters, ip: string): nat {
    if ip in c then c[ip] else 0
  }

  const MaxSubmissions := 3
  const MaxNameLength := 100
  const MaxSkillsLength := 1000
  const MaxEntryLength := 100

  /** An array entry kept in the stored list: non-empty for `empty()` and at most 100 long. */
  predicate KeepEntry(clean: string) {
    !Empty(clean) && |clean| <= MaxEntryLength
  }

  /** The cleaned entries of a posted list that are kept, in their posted order. */
  function CleanEntries(h: Host.Host, xs: seq<string>): (r: seq<string>)
    ensures |r| <= |xs|
  {
    if xs == [] then []
    else (if KeepEntry(h.sanitizeText(xs[0])) then [h.sanitizeText(xs[0])] else []) + CleanEntries(h, xs[1..])
  }

  /** Cleaning two lists one after the other is cleaning their concatenation. */
  lemma {:induction false} CleanEntriesConcat(h: Host.Host, a: seq<string>, b: seq<string>)
    ensures CleanEntries(h, a + b) == CleanEntries(h, a) + CleanEntries(h, b)
  {
    if a == [] {
      assert a + b == b;
    } else {
      assert (a + b)[1..] == a[1..] + b;
      CleanEntriesConcat(h, a[1..], b);
    }
  }

  /** Cleaning one more entry appends that entry's outcome. */
  lemma CleanEntriesSnoc(h: Host.Host, xs: seq<string>, i: nat)
    requires i < |xs|
    ensures CleanEntries(h, xs[..i + 1]) ==
      CleanEntries(h, xs[..i]) + (if KeepEntry(h.sanitizeText(xs[i])) then [h.sanitizeText(xs[i])] else [])
  {
    assert xs[..i + 1] == xs[..i] + [xs[i]];
    CleanEntriesConcat(h, xs[..i], [xs[i]]);
    assert [xs[i]][1..] == [];
  }

  /** The `foreach` that builds `$clean_interests` and `$clean_availability`. */
  method CleanList(h: Host.Host, xs: seq<string>) returns (r: seq<string>)
    ensures r == CleanEntries(h, xs)
  {
    r := [];
    var i := 0;
    while i < |xs|
      invariant 0 <= i <= |xs|
      invariant r == CleanEntries(h, xs[..i])
    {
      var clean := h.sanitizeText(xs[i]);
      CleanEntriesSnoc(h, xs, i);
      if KeepEntry(clean) {
        r := r + [clean];
      }
      i := i + 1;
    }
    assert xs[..i] == xs;
  }

  lemma {:induction false} CleanEntriesMembers(h: Host.Host, xs: seq<string>, s: string)
    ensures s in CleanEntries(h, xs) <==> KeepEntry(s) && exists i :: 0 <= i < |xs| && h.sanitizeText(xs[i]) == s
  {
    if xs != [] {
      CleanEntriesMembers(h, xs[1..], s);
      assert forall i :: 1 <= i < |xs| ==> xs[i] == xs[1..][i - 1];
      if exists i :: 0 <= i < |xs| && h.sanitizeText(xs[i]) == s {
        var i :| 0 <= i < |xs| && h.sanitizeText(xs[i]) == s;
        if i > 0 {
          assert h.sanitizeText(xs[1..][i - 1]) == s;
        }
      }
    }
  }

  /** The kept entries keep their relative order: the result is the posted list with the
      failing entries dropped. */
  lemma {:induction false} CleanEntriesAllKept(h: Host.Host, xs: seq<string>)
    requires forall i :: 0 <= i < |xs| ==> KeepEntry(h.sanitizeText(xs[i]))
    ensures |CleanEntries(h, xs)| == |xs|
    ensures forall i :: 0 <= i < |xs| ==> CleanEntries(h, xs)[i] == h.sanitizeText(xs[i])
  {
    if xs != [] {
      assert forall i :: 0 <= i < |xs| - 1 ==> xs[1..][i] == xs[i + 1];
      CleanEntriesAllKept(h, xs[1..]);
    }
  }

  /** A list field: cleaned when posted as an array, absent (stored as "") otherwise. */
  function ListField(h: Host.Host, req: Request, key: string): Option<seq<string>> {
    if key in req.lists then Some(CleanEntries(h, req.lists[key])) else None
  }

  /** `opportunity_id`: stored only when `absint` of it is positive, else NULL. */
  function OpportunityOf(h: Host.Host, req: Request): (r: Option<nat>)
    ensures r.Some? <==> "opportunity_id" in req.fields && Host.Absint(h, req.fields["opportunity_id"]) > 0
    ensures r.Some? ==> r.value > 0
  {
    if "opportunity_id" in req.fields then
      var opp := Host.Absint(h, req.fields["opportunity_id"]);
      if opp > 0 then Some(opp) else None
    else None
  }

  /** `isset($_POST[$key]) ? sanitize_text_field($_POST[$key]) : ''` */
  function TextOr(h: Host.Host, req: Request, key: string): string {
    if key in req.fields then h.sanitizeText(req.fields[key]) else ""
  }

  function FirstName(h: Host.Host, req: Request): string {
    h.sanitizeText(Coalesce(req.fields, "first_name", ""))
  }

  function LastName(h: Host.Host, req: Request): string {
    h.sanitizeText(Coalesce(req.fields, "last_name", ""))
  }

  function EmailOf(h: Host.Host, req: Request): string {
    h.sanitizeEmail(Coalesce(req.fields, "email", ""))
  }

  /** The array handed to `find_or_create`; the state is upper-cased. */
  function ContactData(h: Host.Host, req: Request): map<string, string> {
    map["first_name" := FirstName(h, req), "last_name" := LastName(h, req), "email" := EmailOf(h, req),
        "phone" := TextOr(h, req, "phone"), "address_line1" := TextOr(h, req, "address"),
        "city" := TextOr(h, req, "city"), "state" := if "state" in req.fields then ToUpper(TextOr(h, req, "state")) else "",
        "zip_code" := TextOr(h, req, "zip")]
  }

  /** The record `handle_volunteer_signup` inserts. */
  function Record(h: Host.Host, req: Request, contactId: Option<nat>): (v: Volunteer)
    ensures v.status == "new" && v.source == "website_form"
    ensures v.contactId == contactId && v.opportunityId == OpportunityOf(h, req)
  {
    Volunteer(contactId, if "skills" in req.fields then h.sanitizeTextarea(req.fields["skills"]) else "",
      ListField(h, req, "interests"), ListField(h, req, "availability"), OpportunityOf(h, req),
      "website_form", "new")
  }

  datatype SignupError =
    | TooManySubmissions | SecurityFailed | MissingFields | InvalidEmail | NameTooLong
    | ContactFailed(reason: Contacts.ContactError) | SkillsTooLong | SaveFailed

  datatype World = World(counters: Counters, contacts: Contacts.Store, volunteers: Table)

  /** What the host decides outside the model: the nonce, whether the contact manager is
      loaded, and whether each INSERT succeeds. */
  datatype Gates = Gates(nonceOk: bool, managerLoaded: bool, contactInsertOk: bool, contactUpdateOk: bool, insertOk: bool)

  datatype Reply = Reply(world: World, result: Result<nat, SignupError>)

  /** The checks made before the counter moves, in their order. */
  function Validate(h: Host.Host, c: Counters, ip: string, req: Request, g: Gates): (e: Option<SignupError>)
    // each error is reported exactly when its check fails and every earlier check passed
    ensures e == Some(TooManySubmissions) <==> Count(c, ip) >= MaxSubmissions
    ensures e == Some(SecurityFailed) <==> Count(c, ip) < MaxSubmissions && !g.nonceOk
    ensures e == Some(MissingFields) <==>
      && Count(c, ip) < MaxSubmissions && g.nonceOk
      && (Empty(FirstName(h, req)) || Empty(LastName(h, req)) || Empty(EmailOf(h, req)))
    ensures e == Some(InvalidEmail) <==>
      && Count(c, ip) < MaxSubmissions && g.nonceOk
      && !Empty(FirstName(h, req)) && !Empty(LastName(h, req)) && !Empty(EmailOf(h, req))
      && !h.isEmail(EmailOf(h, req))
    ensures e == Some(NameTooLong) <==>
      && Count(c, ip) < MaxSubmissions && g.nonceOk
      && !Empty(FirstName(h, req)) && !Empty(LastName(h, req)) && !Empty(EmailOf(h, req))
      && h.isEmail(EmailOf(h, req))
      && (|FirstName(h, req)| > MaxNameLength || |LastName(h, req)| > MaxNameLength)
    ensures e.None? <==>
      && Count(c, ip) < MaxSubmissions && g.nonceOk
      && !Empty(FirstName(h, req)) && !Empty(LastName(h, req)) && !Empty(EmailOf(h, req))
      && h.isEmail(EmailOf(h, req))
      && |FirstName(h, req)| <= MaxNameLength && |LastName(h, req)| <= MaxNameLength
  {
    if ip in c && c[ip] != 0 && c[ip] >= MaxSubmissions then Some(TooManySubmissions)
    else if !g.nonceOk then Some(SecurityFailed)
    else if Empty(FirstName(h, req)) || Empty(LastName(h, req)) || Empty(EmailOf(h, req)) then Some(MissingFields)
    else if !h.isEmail(EmailOf(h, req)) then Some(InvalidEmail)
    else if |FirstName(h, req)| > MaxNameLength || |LastName(h, req)| > MaxNameLength then Some(NameTooLong)
    else None
  }

  /** `set_transient(..., $submissions ? $submissions + 1 : 1)`. */
  function Bump(c: Counters, ip: string): (r: Counters)
    ensures r == c[ip := Count(c, ip) + 1]
  {
    if ip in c && c[ip] != 0 then c[ip := c[ip] + 1] else c[ip := 1]
  }

  /** The contact step: `find_or_create` when the contact manager is loaded, else no contact. */
  function ContactStep(h: Host.Host, store: Contacts.Store, req: Request, g: Gates): (r: (Contacts.Store, Result<Option<nat>, Contacts.ContactError>))
    requires Contacts.Valid(store)
    ensures Contacts.Valid(r.0)
    ensures r.1.Failure? ==> r.0 == store
    ensures !g.managerLoaded ==> r == (store, Success(None))
    ensures r.1.Success? && g.managerLoaded ==> r.1.value.Some? && r.1.value.value in r.0.rows
  {
    if !g.managerLoaded then (store, Success(None))
    else
      var o := Contacts.FindOrCreate(h, store, ContactData(h, req), g.contactInsertOk, g.contactUpdateOk);
      match o.result
      case Success(id) => (o.store, Success(Some(id)))
      case Failure(e) => (o.store, Failure(e))
  }

  predicate SkillsTooLongIn(h: Host.Host, req: Request) {
    "skills" in req.fields && |h.sanitizeTextarea(req.fields["skills"])| > MaxSkillsLength
  }

  /** What happens once a request has passed validation: the counter moves, the contact
      is written, and only then is the skills length checked and the row inserted. */
  function Register(h: Host.Host, w: World, ip: string, req: Request, g: Gates): (r: Reply)
    requires Contacts.Valid(w.contacts)
    ensures Contacts.Valid(r.world.contacts)
    ensures r.world.counters == w.counters[ip := Count(w.counters, ip) + 1]
    ensures r.result.Failure? ==> r.world.volunteers == w.volunteers
    ensures r.result.Success? ==>
      && ContactStep(h, w.contacts, req, g).1.Success? && !SkillsTooLongIn(h, req) && g.insertOk
      && r.result.value == w.volunteers.nextId
      && r.world.volunteers == Table(w.volunteers.rows[w.volunteers.nextId := Record(h, req, ContactStep(h, w.contacts, req, g).1.value)], w.volunteers.nextId + 1)
    ensures ContactStep(h, w.contacts, req, g).1.Success? && SkillsTooLongIn(h, req) ==>
      r == Reply(World(Bump(w.counters, ip), ContactStep(h, w.contacts, req, g).0, w.volunteers), Failure(SkillsTooLong))
  {
    var counters := Bump(w.counters, ip);
    var (store, contact) := ContactStep(h, w.contacts, req, g);
    match contact
    case Failure(e) => Reply(World(counters, store, w.volunteers), Failure(ContactFailed(e)))
    case Success(contactId) =>
      if SkillsTooLongIn(h, req) then Reply(World(counters, store, w.volunteers), Failure(SkillsTooLong))
      else if !g.insertOk then Reply(World(counters, store, w.volunteers), Failure(SaveFailed))
      else
        var row := Record(h, req, contactId);
        Reply(World(counters, store, Table(w.volunteers.rows[w.volunteers.nextId := row], w.volunteers.nextId + 1)),
              Success(w.volunteers.nextId))
  }

  /** `handle_volunteer_signup` for a request from `ip`. */
  function Signup(h: Host.Host, w: World, ip: string, req: Request, g: Gates): (r: Reply)
    requires Contacts.Valid(w.contacts)
    ensures Contacts.Valid(r.world.contacts)
    // a counter at 3 or more refuses the request before anything else
    ensures Count(w.counters, ip) >= MaxSubmissions ==> r == Reply(w, Failure(TooManySubmissions))
    // a request failing validation changes nothing, the counter included
    ensures Validate(h, w.counters, ip, req, g).Some? ==> r == Reply(w, Failure(Validate(h, w.counters, ip, req, g).value))
    // every request passing validation moves the counter by one, whatever happens after
    ensures Validate(h, w.counters, ip, req, g).None? ==> r.world.counters == w.counters[ip := Count(w.counters, ip) + 1]
    // the volunteer table changes only on success, by exactly one new row under the next id
    ensures r.result.Failure? ==> r.world.volunteers == w.volunteers
    ensures r.result.Success? ==>
      && Validate(h, w.counters, ip, req, g).None? && ContactStep(h, w.contacts, req, g).1.Success?
      && !SkillsTooLongIn(h, req) && g.insertOk
      && r.result.value == w.volunteers.nextId
      && r.world.volunteers == Table(w.volunteers.rows[w.volunteers.nextId := Record(h, req, ContactStep(h, w.contacts, req, g).1.value)], w.volunteers.nextId + 1)
    // a too-long skills text is refused only after the counter and the contact are written
    ensures Validate(h, w.counters, ip, req, g).None? && ContactStep(h, w.contacts, req, g).1.Success? && SkillsTooLongIn(h, req) ==>
      r == Reply(World(Bump(w.counters, ip), ContactStep(h, w.contacts, req, g).0, w.volunteers), Failure(SkillsTooLong))
  {
    match Validate(h, w.counters, ip, req, g)
    case Some(e) => Reply(w, Failure(e))
    case None => Register(h, w, ip, req, g)
  }

  /** A sequence of signups from one IP, each on the state the previous one left. */
  function RunAll(h: Host.Host, w: World, ip: string, reqs: seq<Request>, gs: seq<Gates>): (r: World)
    requires Contacts.Valid(w.contacts) && |reqs| == |gs|
    ensures Contacts.Valid(r.contacts)
    decreases |reqs|
  {
    if reqs == [] then w else RunAll(h, Signup(h, w, ip, reqs[0], gs[0]).world, ip, reqs[1..], gs[1..])
  }

  /** From any counter state, an IP gets at most three requests past validation: after
      three counted requests every further one is refused and changes nothing. */
  lemma {:induction false} ThreeCountedThenRefused(h: Host.Host, w: World, ip: string, reqs: seq<Request>, gs: seq<Gates>)
    requires Contacts.Valid(w.contacts) && |reqs| == |gs|
    ensures Count(RunAll(h, w, ip, reqs, gs).counters, ip) <= (if Count(w.counters, ip) >= MaxSubmissions then Count(w.counters, ip) else MaxSubmissions)
    decreases |reqs|
  {
    if reqs != [] {
      var r := Signup(h, w, ip, reqs[0], gs[0]);
      ThreeCountedThenRefused(h, r.world, ip, reqs[1..], gs[1..]);
    }
  }

  // ------------------------------------------------------------- admin list

  /** The ids `array_map('absint', $_POST['volunteer_ids'])` names. */
  function Ids(h: Host.Host, rawIds: seq<string>): (ids: set<nat>)
    ensures forall i :: 0 <= i < |rawIds| ==> Host.Absint(h, rawIds[i]) in ids
    ensures forall id :: id in ids ==> exists i :: 0 <= i < |rawIds| && Host.Absint(h, rawIds[i]) == id
  {
    if rawIds == [] then {}
    else
      var ids := Ids(h, rawIds[..|rawIds| - 1]) + {Host.Absint(h, rawIds[|rawIds| - 1])};
      assert forall i :: 0 <= i < |rawIds| - 1 ==> rawIds[..|rawIds| - 1][i] == rawIds[i];
      ids
  }

  lemma IdsExtend(h: Host.Host, rawIds: seq<string>, i: nat)
    requires i < |rawIds|
    ensures Ids(h, rawIds[..i + 1]) == Ids(h, rawIds[..i]) + {Host.Absint(h, rawIds[i])}
  {
    assert rawIds[..i + 1][..i] == rawIds[..i];
  }

  /** The `$wpdb->delete` loop: each listed id's row is removed. */
  method DeleteAll(h: Host.Host, t: Table, rawIds: seq<string>) returns (r: Table)
    ensures r.nextId == t.nextId
    ensures r.rows.Keys == t.rows.Keys - Ids(h, rawIds)
    ensures forall id :: id in r.rows ==> r.rows[id] == t.rows[id]
  {
    r := t;
    var i := 0;
    while i < |rawIds|
      invariant 0 <= i <= |rawIds| && r.nextId == t.nextId
      invariant r.rows.Keys == t.rows.Keys - Ids(h, rawIds[..i])
      invariant forall id :: id in r.rows ==> r.rows[id] == t.rows[id]
    {
      IdsExtend(h, rawIds, i);
      r := r.(rows := r.rows - {Host.Absint(h, rawIds[i])});
      i := i + 1;
    }
    assert rawIds[..i] == rawIds;
  }

  /** The `$wpdb->update` loop: each listed id's row gets `status`; an id with no row is
      an UPDATE that matches nothing. */
  method SetStatusAll(h: Host.Host, t: Table, rawIds: seq<string>, status: string) returns (r: Table)
    ensures r.nextId == t.nextId && r.rows.Keys == t.rows.Keys
    ensures forall id :: id in t.rows ==>
      r.rows[id] == if id in Ids(h, rawIds) then t.rows[id].(status := status) else t.rows[id]
  {
    r := t;
    var i := 0;
    while i < |rawIds|
      invariant 0 <= i <= |rawIds| && r.nextId == t.nextId && r.rows.Keys == t.rows.Keys
      invariant forall id :: id in t.rows ==>
        r.rows[id] == if id in Ids(h, rawIds[..i]) then t.rows[id].(status := status) else t.rows[id]
    {
      IdsExtend(h, rawIds, i);
      var id := Host.Absint(h, rawIds[i]);
      if id in r.rows {
        r := r.(rows := r.rows[id := t.rows[id].(status := status)]);
      }
      i := i + 1;
    }
    assert rawIds[..i] == rawIds;
  }

  /** `handle_bulk_actions` on the posted action and ids: "delete" removes exactly the
      listed ids, "contacted" and "active" set that status on the listed ids only, and any
      other action, or an empty action or id list, changes nothing. */
  method BulkAction(h: Host.Host, t: Table, rawAction: string, rawIds: seq<string>) returns (r: Table)
    ensures r.nextId == t.nextId
    ensures rawIds == [] || Empty(rawAction) ==> r == t
    ensures rawIds != [] && !Empty(rawAction) && h.sanitizeText(rawAction) == "delete" ==>
      r.rows.Keys == t.rows.Keys - Ids(h, rawIds) && forall id :: id in r.rows ==> r.rows[id] == t.rows[id]
    ensures rawIds != [] && !Empty(rawAction) && (h.sanitizeText(rawAction) == "contacted" || h.sanitizeText(rawAction) == "active") ==>
      && r.rows.Keys == t.rows.Keys
      && forall id :: id in t.rows ==>
           r.rows[id] == if id in Ids(h, rawIds) then t.rows[id].(status := h.sanitizeText(rawAction)) else t.rows[id]
    ensures h.sanitizeText(rawAction) !in {"delete", "contacted", "active"} ==> r == t
  {
    if rawIds == [] || Empty(rawAction) {
      return t;
    }
    var action := h.sanitizeText(rawAction);
    if action == "delete" {
      r := DeleteAll(h, t, rawIds);
    } else if action == "contacted" || action == "active" {
      r := SetStatusAll(h, t, rawIds, action);
    } else {
      r := t;
    }
  }

  /** `delete_volunteer($id)`. */
  function DeleteVolunteer(t: Table, id: nat): (r: Table)
    ensures r.rows.Keys == t.rows.Keys - {id} && r.nextId == t.nextId
    ensures forall k :: k in r.rows ==> r.rows[k] == t.rows[k]
  {
    t.(rows := t.rows - {id})
  }

  const PerPage := 20

  datatype AdminPage<T> = AdminPage(page: nat, offset: nat, totalPages: nat, shown: seq<T>)

  /** The pagination of `render_admin_page` over the filtered listing; a search longer than
      100 characters stops the page (None). */
  function AdminList<T>(h: Host.Host, get: map<string, string>, listing: seq<T>): (r: Option<AdminPage<T>>)
    ensures r.None? <==> "s" in get && !Empty(h.sanitizeText(get["s"])) && |h.sanitizeText(get["s"])| > 100
    ensures r.Some? ==>
      && r.value.page >= 1
      && ("paged" !in get ==> r.value.page == 1)
      && ("paged" in get && Host.Absint(h, get["paged"]) >= 1 ==> r.value.page == Host.Absint(h, get["paged"]))
      && r.value.offset == (r.value.page - 1) * PerPage
      && r.value.totalPages * PerPage >= |listing| && (r.value.totalPages == 0 || (r.value.totalPages - 1) * PerPage < |listing|)
      && r.value.shown == Paging.Window(listing, r.value.offset, PerPage)
  {
    var search := if "s" in get then h.sanitizeText(get["s"]) else "";
    if !Empty(search) && |search| > 100 then None
    else
      var page: nat := if "paged" in get then (if Host.Absint(h, get["paged"]) > 1 then Host.Absint(h, get["paged"]) else 1) else 1;
      Some(AdminPage(page, (page - 1) * PerPage, Paging.CeilDiv(|listing|, PerPage), Paging.Window(listing, Paging.Offset(page, PerPage), PerPage)))
  }

  /** Every row of the listing is on the page its index puts it on, and that page is one the
      screen links to. */
  lemma AdminListShowsEveryRow<T>(h: Host.Host, get: map<string, string>, listing: seq<T>, i: nat)
    requires i < |listing| && "s" !in get
    requires "paged" in get && Host.Absint(h, get["paged"]) == i / PerPage + 1
    ensures var r := AdminList(h, get, listing);
      && r.Some? && r.value.page <= r.value.totalPages
      && listing[i] in r.value.shown
  {
    Paging.PageOfRow(listing, PerPage, i);
    var r := AdminList(h, get, listing);
    assert r.value.shown[i - r.value.offset] == listing[i];
  }

  // ------------------------------------------------------------- admin page

  /** One request to the volunteers admin page: the user's capabilities, the posted bulk
      action and id list when both are set and the ids are an array, whether each
      `check_admin_referer` verifies, and the query string. */
  datatype AdminRequest = AdminRequest(canEdit: bool, canDelete: bool,
                                       bulk: Option<(string, seq<string>)>, bulkNonce: bool,
                                       get: map<string, string>, deleteNonce: bool)

  /** Why the page stops early: `wp_die` for a missing capability, a failed referer check
      or an over-long search, or a call on the undefined `$wpdb`. */
  datatype AdminStop = NoPermission | RefererFailed | SearchTooLong | NoDatabase

  datatype AdminOutcome<T> = Stopped(why: AdminStop) | Listed(page: AdminPage<T>)

  predicate DeleteRequested(req: AdminRequest) {
    "action" in req.get && req.get["action"] == "delete" && "volunteer_id" in req.get
  }

  /** The capability and referer checks that guard the two actions all pass. */
  predicate ActionsPass(req: AdminRequest) {
    && req.canEdit
    && (req.bulk.Some? ==> req.bulkNonce && req.canDelete)
    && (DeleteRequested(req) ==> req.deleteNonce && req.canDelete)
  }

  /** The part of `render_admin_page` before its query: the capability check, the bulk
      action, then the single delete, each behind its referer and capability check. */
  method AdminActions(h: Host.Host, t: Table, req: AdminRequest) returns (r: Table, stop: Option<AdminStop>)
    ensures r.nextId == t.nextId
    ensures stop.None? <==> ActionsPass(req)
    ensures stop.Some? ==> stop.value == NoPermission || stop.value == RefererFailed
    ensures !req.canEdit ==> stop == Some(NoPermission) && r == t
    ensures req.canEdit && req.bulk.Some? && !(req.bulkNonce && req.canDelete) ==> stop == Some(RefererFailed) && r == t
    ensures req.bulk.None? && !DeleteRequested(req) ==> r == t
    ensures req.canEdit && req.canDelete && req.bulk.None? && DeleteRequested(req) && req.deleteNonce ==>
      r == DeleteVolunteer(t, Host.Absint(h, req.get["volunteer_id"]))
    ensures r != t ==> req.canEdit && req.canDelete && ((req.bulk.Some? && req.bulkNonce) || (DeleteRequested(req) && req.deleteNonce))
  {
    if !req.canEdit {
      return t, Some(NoPermission);
    }
    r := t;
    if req.bulk.Some? {
      if !req.bulkNonce || !req.canDelete {
        return t, Some(RefererFailed);
      }
      r := BulkAction(h, r, req.bulk.value.0, req.bulk.value.1);
    }
    if DeleteRequested(req) {
      if !req.deleteNonce || !req.canDelete {
        return r, Some(RefererFailed);
      }
      r := DeleteVolunteer(r, Host.Absint(h, req.get["volunteer_id"]));
    }
    stop := None;
  }

  /** `render_admin_page` as written: it never declares `global $wpdb`, so once the
      actions and the search check pass, the first call on `$wpdb` (the filters' `prepare`
      or the count query) stops the page, exactly where the page would list volunteers. */
  method AdminPageAsWritten<T>(h: Host.Host, t: Table, req: AdminRequest, listing: seq<T>) returns (r: Table, out: AdminOutcome<T>)
    ensures !out.Listed?
    ensures out == Stopped(NoDatabase) <==> ActionsPass(req) && AdminList(h, req.get, listing).Some?
    ensures out == Stopped(SearchTooLong) <==> ActionsPass(req) && AdminList(h, req.get, listing).None?
    ensures r != t ==> req.canEdit && req.canDelete && ((req.bulk.Some? && req.bulkNonce) || (DeleteRequested(req) && req.deleteNonce))
  {
    var stop;
    r, stop := AdminActions(h, t, req);
    if stop.Some? {
      return r, Stopped(stop.value);
    }
    match AdminList(h, req.get, listing)
    case None => out := Stopped(SearchTooLong);
    case Some(_) => out := Stopped(NoDatabase);
  }

  /** `render_admin_page` with `global $wpdb` declared: the same actions, then the page
      of the filtered listing. */
  method AdminScreen<T>(h: Host.Host, t: Table, req: AdminRequest, listing: seq<T>) returns (r: Table, out: AdminOutcome<T>)
    ensures out.Listed? <==> ActionsPass(req) && AdminList(h, req.get, listing).Some?
    ensures out.Listed? ==> out.page == AdminList(h, req.get, listing).value
    ensures out == Stopped(SearchTooLong) <==> ActionsPass(req) && AdminList(h, req.get, listing).None?
    ensures out != Stopped(NoDatabase)
    ensures r != t ==> req.canEdit && req.canDelete && ((req.bulk.Some? && req.bulkNonce) || (DeleteRequested(req) && req.deleteNonce))
  {
    var stop;
    r, stop := AdminActions(h, t, req);
    if stop.Some? {
      return r, Stopped(stop.value);
    }
    match AdminList(h, req.get, listing)
    case None => out := Stopped(SearchTooLong);
    case Some(p) => out := Listed(p);
  }
}
