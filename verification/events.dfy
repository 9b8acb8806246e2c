/** `CP_Event_Manager`'s meta save and recurring-event expansion over the post store:
    the nonce-gated meta groups of `save_event_meta`, and `generate_recurring_events`,
    which deletes a parent's previous children and inserts one child per occurrence. */
module Events {
  import opened Wrappers
  import opened Php
  import opened Civil
  import opened Posts
  import opened Recurrence
  import Host

  const MarkerKey := "_cp_parent_recurring_event"
  const RecurringFlagKey := "_cp_is_recurring"
  const PatternKey := "_cp_recurrence_pattern"
  const EndDateKey := "_cp_recurrence_end_date"
  const DateKey := "_cp_event_date"
  const RsvpEnabledKey := "_cp_rsvp_enabled"
  const RsvpDeadlineKey := "_cp_rsvp_deadline"
  const DietaryKey := "_cp_collect_dietary"
  const CapacityKey := "_cp_max_capacity"

  /** The three keys a child event does not inherit. */
  predicate RecurrenceKey(k: string) {
    k == RecurringFlagKey || k == PatternKey || k == EndDateKey
  }

  // ---------------------------------------------------------------- save_event_meta

  /** Which of the three meta boxes posted a valid nonce. */
  datatype Nonces = Nonces(rsvp: bool, recurring: bool, capacity: bool)

  /** A posted checkbox: "1" when the field is present, "0" otherwise. */
  function Checkbox(form: map<string, string>, field: string): (v: string)
    ensures v == "1" <==> field in form
    ensures v == "0" <==> field !in form
  {
    if field in form then "1" else "0"
  }

  predicate RsvpKey(k: string) {
    k == RsvpEnabledKey || k == RsvpDeadlineKey || k == DietaryKey
  }

  /** Three `update_post_meta` calls on distinct keys: each key reads back its own value
      and every other key is untouched. */
  lemma ThreeWrites(meta: Meta, k1: string, v1: string, k2: string, v2: string, k3: string, v3: string)
    requires k1 != k2 && k1 != k3 && k2 != k3
    ensures var r := UpdatePostMeta(UpdatePostMeta(UpdatePostMeta(meta, k1, v1), k2, v2), k3, v3);
      && GetMeta(r, k1) == v1 && GetMeta(r, k2) == v2 && GetMeta(r, k3) == v3
      && forall k :: k != k1 && k != k2 && k != k3 ==> Agree(r, meta, k)
  {
    var a := UpdatePostMeta(meta, k1, v1);
    var b := UpdatePostMeta(a, k2, v2);
    var r := UpdatePostMeta(b, k3, v3);
    assert Agree(r, b, k1) && Agree(b, a, k1);
    assert Agree(r, b, k2);
  }

  /** The RSVP settings box, saved when `on`. */
  function SaveRsvp(h: Host.Host, meta: Meta, form: map<string, string>, on: bool): (r: Meta)
    ensures on ==> GetMeta(r, RsvpEnabledKey) == Checkbox(form, "cp_rsvp_enabled")
    ensures on ==> GetMeta(r, RsvpDeadlineKey) == h.sanitizeText(Coalesce(form, "cp_rsvp_deadline", ""))
    ensures on ==> GetMeta(r, DietaryKey) == Checkbox(form, "cp_collect_dietary")
    ensures forall k :: !(on && RsvpKey(k)) ==> Agree(r, meta, k)
  {
    if !on then meta
    else
      ThreeWrites(meta, RsvpEnabledKey, Checkbox(form, "cp_rsvp_enabled"),
        RsvpDeadlineKey, h.sanitizeText(Coalesce(form, "cp_rsvp_deadline", "")),
        DietaryKey, Checkbox(form, "cp_collect_dietary"));
      var a := UpdatePostMeta(meta, RsvpEnabledKey, Checkbox(form, "cp_rsvp_enabled"));
      var b := UpdatePostMeta(a, RsvpDeadlineKey, h.sanitizeText(Coalesce(form, "cp_rsvp_deadline", "")));
      UpdatePostMeta(b, DietaryKey, Checkbox(form, "cp_collect_dietary"))
  }

  /** The recurrence box, saved when `on`; an omitted pattern is saved as "weekly". */
  function SaveRecurrence(h: Host.Host, meta: Meta, form: map<string, string>, on: bool): (r: Meta)
    ensures on ==> GetMeta(r, RecurringFlagKey) == Checkbox(form, "cp_is_recurring")
    ensures on ==> GetMeta(r, PatternKey) == h.sanitizeText(Coalesce(form, "cp_recurrence_pattern", "weekly"))
    ensures on ==> GetMeta(r, EndDateKey) == h.sanitizeText(Coalesce(form, "cp_recurrence_end_date", ""))
    ensures forall k :: !(on && RecurrenceKey(k)) ==> Agree(r, meta, k)
  {
    if !on then meta
    else
      ThreeWrites(meta, RecurringFlagKey, Checkbox(form, "cp_is_recurring"),
        PatternKey, h.sanitizeText(Coalesce(form, "cp_recurrence_pattern", "weekly")),
        EndDateKey, h.sanitizeText(Coalesce(form, "cp_recurrence_end_date", "")));
      var a := UpdatePostMeta(meta, RecurringFlagKey, Checkbox(form, "cp_is_recurring"));
      var b := UpdatePostMeta(a, PatternKey, h.sanitizeText(Coalesce(form, "cp_recurrence_pattern", "weekly")));
      UpdatePostMeta(b, EndDateKey, h.sanitizeText(Coalesce(form, "cp_recurrence_end_date", "")))
  }

  /** The capacity box, saved when `on`: a non-negative integer, 0 when the field is omitted. */
  function SaveCapacity(h: Host.Host, meta: Meta, form: map<string, string>, on: bool): (r: Meta)
    ensures on ==> GetMeta(r, CapacityKey) == Decimal(Host.AbsintOr(h, form, "cp_max_capacity", 0))
    ensures forall k :: !(on && k == CapacityKey) ==> Agree(r, meta, k)
  {
    if !on then meta
    else UpdatePostMeta(meta, CapacityKey, Decimal(Host.AbsintOr(h, form, "cp_max_capacity", 0)))
  }

  /** The three boxes write disjoint keys. */
  lemma KeyGroupsDisjoint()
    ensures forall k :: RsvpKey(k) ==> !RecurrenceKey(k) && k != CapacityKey
    ensures forall k :: RecurrenceKey(k) ==> k != CapacityKey
  {
  }

  /** Keys that agree have the same first value. */
  lemma AgreeGetMeta(a: Meta, b: Meta, k: string)
    requires Agree(a, b, k)
    ensures GetMeta(a, k) == GetMeta(b, k)
  {
  }

  /** `save_event_meta`: each box is saved only when its own nonce verifies; every key
      outside the saved boxes keeps its rows. */
  function SaveEventMeta(h: Host.Host, meta: Meta, form: map<string, string>, n: Nonces): (r: Meta)
    ensures n.rsvp ==> GetMeta(r, RsvpEnabledKey) == Checkbox(form, "cp_rsvp_enabled")
    ensures n.rsvp ==> GetMeta(r, RsvpDeadlineKey) == h.sanitizeText(Coalesce(form, "cp_rsvp_deadline", ""))
    ensures n.rsvp ==> GetMeta(r, DietaryKey) == Checkbox(form, "cp_collect_dietary")
    ensures n.recurring ==> GetMeta(r, RecurringFlagKey) == Checkbox(form, "cp_is_recurring")
    ensures n.recurring ==> GetMeta(r, PatternKey) == h.sanitizeText(Coalesce(form, "cp_recurrence_pattern", "weekly"))
    ensures n.recurring ==> GetMeta(r, EndDateKey) == h.sanitizeText(Coalesce(form, "cp_recurrence_end_date", ""))
    ensures n.capacity ==> GetMeta(r, CapacityKey) == Decimal(Host.AbsintOr(h, form, "cp_max_capacity", 0))
  {
    KeyGroupsDisjoint();
    var m1 := SaveRsvp(h, meta, form, n.rsvp);
    var m2 := SaveRecurrence(h, m1, form, n.recurring);
    var r := SaveCapacity(h, m2, form, n.capacity);
    AgreeGetMeta(r, m2, RsvpEnabledKey);
    AgreeGetMeta(r, m2, RsvpDeadlineKey);
    AgreeGetMeta(r, m2, DietaryKey);
    AgreeGetMeta(m2, m1, RsvpEnabledKey);
    AgreeGetMeta(m2, m1, RsvpDeadlineKey);
    AgreeGetMeta(m2, m1, DietaryKey);
    AgreeGetMeta(r, m2, RecurringFlagKey);
    AgreeGetMeta(r, m2, PatternKey);
    AgreeGetMeta(r, m2, EndDateKey);
    r
  }

  /** Every key outside the boxes whose nonce verified keeps its rows. */
  lemma SaveEventMetaFrame(h: Host.Host, meta: Meta, form: map<string, string>, n: Nonces, k: string)
    requires !(n.rsvp && RsvpKey(k)) && !(n.recurring && RecurrenceKey(k)) && !(n.capacity && k == CapacityKey)
    ensures Agree(SaveEventMeta(h, meta, form, n), meta, k)
  {
    var m1 := SaveRsvp(h, meta, form, n.rsvp);
    var m2 := SaveRecurrence(h, m1, form, n.recurring);
    var r := SaveCapacity(h, m2, form, n.capacity);
    assert Agree(m1, meta, k);
    assert Agree(m2, m1, k);
    assert Agree(r, m2, k);
    AgreeTrans(r, m2, m1, k);
    AgreeTrans(r, m1, meta, k);
  }

  lemma AgreeTrans(a: Meta, b: Meta, c: Meta, k: string)
    requires Agree(a, b, k) && Agree(b, c, k)
    ensures Agree(a, c, k)
  {
  }

  /** Saving the recurrence box arms the expansion exactly when the checkbox was ticked,
      and an omitted pattern (with a sanitizer that keeps "weekly") expands weekly. */
  lemma SavedFlagArmsExpansion(h: Host.Host, meta: Meta, form: map<string, string>, n: Nonces)
    requires n.recurring
    ensures GetMeta(SaveEventMeta(h, meta, form, n), RecurringFlagKey) == "1" <==> "cp_is_recurring" in form
    ensures "cp_recurrence_pattern" !in form && h.sanitizeText("weekly") == "weekly" ==>
              PatternOf(GetMeta(SaveEventMeta(h, meta, form, n), PatternKey)) == Weekly
  {
  }

  // ----------------------------------------------- campaignpress_save_event_meta

  const RsvpLinkKey := "_cp_event_rsvp_link"

  /** The event-details box: each posted field and the meta key it is saved under. */
  const DetailFields: seq<(string, string)> := [
    ("cp_event_date", DateKey), ("cp_event_time", "_cp_event_time"),
    ("cp_event_location", "_cp_event_location"), ("cp_event_address", "_cp_event_address"),
    ("cp_event_city", "_cp_event_city"), ("cp_event_state", "_cp_event_state"),
    ("cp_event_zip", "_cp_event_zip"), ("cp_event_rsvp_link", RsvpLinkKey)]

  /** No two fields share a meta key. */
  predicate DistinctKeys(fields: seq<(string, string)>) {
    forall i, j :: 0 <= i < j < |fields| ==> fields[i].1 != fields[j].1
  }

  /** `k` is the meta key of none of `fields`. */
  predicate NotWritten(fields: seq<(string, string)>, k: string) {
    forall i :: 0 <= i < |fields| ==> fields[i].1 != k
  }

  /** The whitelisted sanitizer of a details key: `esc_url_raw` for the RSVP link,
      `sanitize_text_field` for every other field. */
  function SanitizeDetail(h: Host.Host, key: string, v: string): string {
    if key == RsvpLinkKey then h.escUrlRaw(v) else h.sanitizeText(v)
  }

  /** The `foreach` over the details fields: a posted field is saved, sanitized, under its
      key; an omitted one leaves its key alone, and keys outside the box are untouched. */
  function SaveDetailFields(h: Host.Host, meta: Meta, form: map<string, string>, fields: seq<(string, string)>): (r: Meta)
    requires DistinctKeys(fields)
    ensures forall i :: 0 <= i < |fields| && fields[i].0 in form ==>
              GetMeta(r, fields[i].1) == SanitizeDetail(h, fields[i].1, form[fields[i].0])
    ensures forall i :: 0 <= i < |fields| && fields[i].0 !in form ==> Agree(r, meta, fields[i].1)
    ensures forall k :: NotWritten(fields, k) ==> Agree(r, meta, k)
    decreases |fields|
  {
    if fields == [] then meta
    else
      var (field, key) := fields[0];
      var m := if field in form then UpdatePostMeta(meta, key, SanitizeDetail(h, key, form[field])) else meta;
      var rest := fields[1..];
      assert NotWritten(rest, key);
      assert forall i :: 1 <= i < |fields| ==> fields[i] == rest[i - 1];
      var r := SaveDetailFields(h, m, form, rest);
      assert Agree(r, m, key);
      r
  }

  /** `campaignpress_save_event_meta`, saving only when `on`: its nonce verifies, the save
      is no autosave and the user may edit the post. */
  function SaveEventDetails(h: Host.Host, meta: Meta, form: map<string, string>, on: bool): (r: Meta)
    ensures on && "cp_event_date" in form ==> GetMeta(r, DateKey) == h.sanitizeText(form["cp_event_date"])
    ensures on && "cp_event_rsvp_link" in form ==> GetMeta(r, RsvpLinkKey) == h.escUrlRaw(form["cp_event_rsvp_link"])
    ensures !(on && "cp_event_date" in form) ==> Agree(r, meta, DateKey)
    ensures forall k :: NotWritten(DetailFields, k) ==> Agree(r, meta, k)
  {
    if !on then meta
    else
      assert DistinctKeys(DetailFields);
      var r := SaveDetailFields(h, meta, form, DetailFields);
      assert DetailFields[0] == ("cp_event_date", DateKey);
      assert DetailFields[7] == ("cp_event_rsvp_link", RsvpLinkKey);
      r
  }

  /** What one admin request posts: the form, which of `save_event_meta`'s nonces verify,
      and whether `campaignpress_save_event_meta` saves. The same request is seen by every
      `save_post_cp_event` the request fires. */
  datatype Request = Request(form: map<string, string>, n: Nonces, details: bool)

  /** The two `save_post_cp_event` callbacks at priority 10, in the order they are added
      (the details box's file is loaded first): the details box, then `save_event_meta`. */
  function SaveHooks(h: Host.Host, meta: Meta, req: Request): (r: Meta)
    ensures req.details && "cp_event_date" in req.form ==> GetMeta(r, DateKey) == h.sanitizeText(req.form["cp_event_date"])
    ensures req.n.recurring ==> GetMeta(r, RecurringFlagKey) == Checkbox(req.form, "cp_is_recurring")
    ensures req.n.recurring ==> GetMeta(r, PatternKey) == h.sanitizeText(Coalesce(req.form, "cp_recurrence_pattern", "weekly"))
    ensures req.n.recurring ==> GetMeta(r, EndDateKey) == h.sanitizeText(Coalesce(req.form, "cp_recurrence_end_date", ""))
  {
    var d := SaveEventDetails(h, meta, req.form, req.details);
    var r := SaveEventMeta(h, d, req.form, req.n);
    SaveEventMetaFrame(h, d, req.form, req.n, DateKey);
    AgreeGetMeta(r, d, DateKey);
    r
  }

  /** The details box writes neither the marker nor a recurrence key. */
  lemma DetailsSkipGeneratorKeys()
    ensures NotWritten(DetailFields, MarkerKey)
    ensures forall k :: RecurrenceKey(k) ==> NotWritten(DetailFields, k)
  {
  }

  /** The priority-10 callbacks never touch the marker, leave the date alone unless the
      details box saves one, and the recurrence keys unless the recurrence box is saved. */
  lemma SaveHooksFrame(h: Host.Host, meta: Meta, req: Request, k: string)
    requires || k == MarkerKey
             || (k == DateKey && !(req.details && "cp_event_date" in req.form))
             || (RecurrenceKey(k) && !req.n.recurring)
    ensures Agree(SaveHooks(h, meta, req), meta, k)
  {
    DetailsSkipGeneratorKeys();
    var d := SaveEventDetails(h, meta, req.form, req.details);
    SaveEventMetaFrame(h, d, req.form, req.n, k);
    AgreeTrans(SaveHooks(h, meta, req), d, meta, k);
  }

  /** The meta a new child has when `generate_recurring_events` runs on it from inside
      `wp_insert_post`: the new post has no meta, and the priority-10 callbacks save the
      request's form onto it. */
  function Refired(h: Host.Host, req: Request): Meta {
    SaveHooks(h, map[], req)
  }

  /** The re-fired callbacks arm a new child for its own expansion exactly when the request
      saved both the details box with a non-empty date and the recurrence box with the
      checkbox ticked and a non-empty end date. */
  lemma RefiredArmed(h: Host.Host, req: Request)
    ensures Proceeds(Refired(h, req)) <==>
      && req.details && "cp_event_date" in req.form && !Empty(h.sanitizeText(req.form["cp_event_date"]))
      && req.n.recurring && "cp_is_recurring" in req.form
      && !Empty(h.sanitizeText(Coalesce(req.form, "cp_recurrence_end_date", "")))
  {
    var r := Refired(h, req);
    SaveHooksFrame(h, map[], req, MarkerKey);
    AgreeGetMeta(r, map[], MarkerKey);
    if !(req.details && "cp_event_date" in req.form) {
      SaveHooksFrame(h, map[], req, DateKey);
      AgreeGetMeta(r, map[], DateKey);
    }
    if !req.n.recurring {
      SaveHooksFrame(h, map[], req, RecurringFlagKey);
      AgreeGetMeta(r, map[], RecurringFlagKey);
    }
  }

  /** A request that saves none of the four boxes leaves a new child without meta. */
  lemma UnsavedRequestRefiresNothing(h: Host.Host, req: Request)
    requires !req.details && !req.n.rsvp && !req.n.recurring && !req.n.capacity
    ensures Refired(h, req) == map[]
  {
  }

  // ------------------------------------------------------- generate_recurring_events

  /** The three early returns of `generate_recurring_events`: the post is not itself a
      generated child, its recurring flag is exactly "1", and it has a start and an end date. */
  predicate Proceeds(meta: Meta) {
    && !Truthy(GetMeta(meta, MarkerKey))
    && GetMeta(meta, RecurringFlagKey) == "1"
    && !Empty(GetMeta(meta, DateKey))
    && !Empty(GetMeta(meta, EndDateKey))
  }

  /** The dates one run emits: none when either date fails to parse (PHP's `DateTime`
      throws, after the old children are already deleted). */
  function PlannedDates(h: Host.Host, meta: Meta, ok: nat -> bool): (r: seq<ValidDate>)
    ensures |r| <= MaxOccurrences
  {
    match (h.parseDate(GetMeta(meta, DateKey)), h.parseDate(GetMeta(meta, EndDateKey)))
    case (Some(start), Some(end)) => Occurrences(start, end, PatternOf(GetMeta(meta, PatternKey)), ok)
    case _ => []
  }

  /** The meta copy as written: each of an inherited key's values is written in turn with
      `update_post_meta`, which overwrites the key's row each time. */
  function CopyRowsAsWritten(meta: Meta, key: string, values: seq<string>): (r: Meta)
    ensures values != [] ==> key in r
    decreases |values|
  {
    if values == [] then meta
    else CopyRowsAsWritten(UpdatePostMeta(meta, key, values[0]), key, values[1..])
  }

  /** On a key the child does not have yet, the value-by-value copy leaves one row
      holding only the last value. */
  lemma {:induction false} CopyRowsKeepsLast(meta: Meta, key: string, values: seq<string>)
    requires values != []
    requires key !in meta || |meta[key]| <= 1
    ensures CopyRowsAsWritten(meta, key, values) == meta[key := [values[|values| - 1]]]
    decreases |values|
  {
    var m := UpdatePostMeta(meta, key, values[0]);
    assert m[key] == [values[0]];
    assert m == meta[key := [values[0]]];
    if |values| > 1 {
      CopyRowsKeepsLast(m, key, values[1..]);
      assert m[key := [values[|values| - 1]]] == meta[key := [values[|values| - 1]]];
    }
  }

  /** The keys a child inherits: every parent key with a row, except the recurrence keys
      and the marker, which the child gets afresh. */
  predicate Inherited(parent: Meta, k: string) {
    k in parent && |parent[k]| > 0 && !RecurrenceKey(k) && k != MarkerKey
  }

  /** The child's meta as the source writes it onto `base`, the meta the child already has
      when the copy starts: `CopyRowsAsWritten` per inherited key, which keeps only the
      last value, the child's own date, then the parent marker; `base`'s other keys stay. */
  function ChildMetaAsWritten(base: Meta, parent: Meta, date: string, pid: nat): (r: Meta)
    ensures forall k :: k in r <==> k in base || Inherited(parent, k) || k == MarkerKey
    ensures r[MarkerKey] == [Decimal(pid)]
    ensures forall k :: Inherited(parent, k) ==> r[k] == (if k == DateKey then [date] else [parent[k][|parent[k]| - 1]])
    ensures forall k :: k in base && !Inherited(parent, k) && k != MarkerKey ==> r[k] == base[k]
  {
    var copied := map k | k in base.Keys + parent.Keys && (k in base || Inherited(parent, k)) ::
      if !Inherited(parent, k) then base[k] else if k == DateKey then [date] else [parent[k][|parent[k]| - 1]];
    copied[MarkerKey := [Decimal(pid)]]
  }

  /** `ChildMetaAsWritten` is what the per-value loop leaves on each inherited key of a
      child whose keys hold at most one row, as the save callbacks leave them. */
  lemma ChildMetaAsWrittenIsCopyLoop(base: Meta, parent: Meta, date: string, pid: nat, k: string)
    requires Inherited(parent, k) && k != DateKey
    requires k in base ==> |base[k]| <= 1
    ensures CopyRowsAsWritten(base, k, parent[k])[k] == ChildMetaAsWritten(base, parent, date, pid)[k]
  {
    CopyRowsKeepsLast(base, k, parent[k]);
  }

  /** A parent key with two values reaches the child with only the second. */
  lemma ChildMetaAsWrittenDropsValues()
    ensures var parent: Meta := map[DateKey := ["2024-01-01"], "_cp_event_location" := ["Hall A", "Hall B"]];
      ChildMetaAsWritten(map[], parent, "2024-01-08", 5)["_cp_event_location"] == ["Hall B"]
  {
    var parent: Meta := map[DateKey := ["2024-01-01"], "_cp_event_location" := ["Hall A", "Hall B"]];
    assert Inherited(parent, "_cp_event_location");
  }

  /** The child's meta with every value of every inherited key copied, as "copy all meta
      data" intends: the parent's rows, the child's own date, and the parent marker. */
  function ChildMeta(parent: Meta, date: string, pid: nat): Meta
  {
    var copied := map k | k in parent && Inherited(parent, k) :: if k == DateKey then [date] else parent[k];
    copied[MarkerKey := [Decimal(pid)]]
  }

  /** The child keeps every value of every inherited key, carries its own date and the
      parent marker, and has none of the recurrence keys. */
  lemma ChildMetaCopiesAll(parent: Meta, date: string, pid: nat)
    ensures var r := ChildMeta(parent, date, pid);
      && (forall k :: k in r <==> Inherited(parent, k) || k == MarkerKey)
      && r[MarkerKey] == [Decimal(pid)]
      && (Inherited(parent, DateKey) ==> r[DateKey] == [date])
      && (forall k :: Inherited(parent, k) && k != DateKey ==> r[k] == parent[k])
      && (forall k :: k in r ==> !RecurrenceKey(k))
  {
  }

  /** The corrected copy agrees with the written one, onto a child without meta, on every
      key with at most one value. */
  lemma ChildMetaAgreesOnSingleRows(parent: Meta, date: string, pid: nat)
    requires forall k :: k in parent ==> |parent[k]| <= 1
    ensures ChildMeta(parent, date, pid) == ChildMetaAsWritten(map[], parent, date, pid)
  {
    var a := ChildMeta(parent, date, pid);
    var b := ChildMetaAsWritten(map[], parent, date, pid);
    forall k | k in a
      ensures k in b && a[k] == b[k]
    {
      ChildMetaKeyAgrees(parent, date, pid, k);
    }
    assert a.Keys == b.Keys;
  }

  /** One key of the two copies, when the parent holds at most one value for it. */
  lemma ChildMetaKeyAgrees(parent: Meta, date: string, pid: nat, k: string)
    requires k in parent ==> |parent[k]| <= 1
    requires k in ChildMeta(parent, date, pid)
    ensures k in ChildMetaAsWritten(map[], parent, date, pid)
    ensures ChildMeta(parent, date, pid)[k] == ChildMetaAsWritten(map[], parent, date, pid)[k]
  {
    if k != MarkerKey && k != DateKey {
      assert parent[k] == [parent[k][0]];
    }
  }

  /** The post `wp_insert_post` creates for one occurrence, once the copy loop and the
      marker are written onto the meta `base` the save callbacks left on it. The call passes
      no `post_date`, so the status is `InsertedStatus` of the parent's. */
  function ChildPost(parent: Post, pid: nat, d: ValidDate, base: Meta): Post {
    Post("cp_event", parent.title, parent.content, InsertedStatus(parent.status), parent.author,
      ChildMetaAsWritten(base, parent.meta, FormatDate(d), pid))
  }

  /** The children of one run, in date order. */
  function Children(parent: Post, pid: nat, dates: seq<ValidDate>, base: Meta): (r: seq<Post>)
    ensures |r| == |dates|
    ensures forall k :: 0 <= k < |dates| ==> r[k] == ChildPost(parent, pid, dates[k], base)
  {
    seq(|dates|, k requires 0 <= k < |dates| => ChildPost(parent, pid, dates[k], base))
  }

  /** What `get_posts` returns for the parent's previous children: `cp_event` posts with a
      marker row equal to the parent id, in any status but trash and auto-draft. */
  predicate Found(p: Post, pid: nat) {
    p.postType == "cp_event" && !HiddenFromAny(p.status) && MarkerKey in p.meta && Decimal(pid) in p.meta[MarkerKey]
  }

  function FoundIds(s: Site, pid: nat): set<nat> {
    set id | id in s.posts && Found(s.posts[id], pid)
  }

  /** A child is found as the parent's child exactly when the parent's status is visible to `get_posts`. */
  lemma ChildFound(parent: Post, pid: nat, d: ValidDate, base: Meta)
    ensures Found(ChildPost(parent, pid, d, base), pid) <==> !HiddenFromAny(parent.status)
  {
  }

  /** `generate_recurring_events` for the post `pid`, where the database accepts the
      `n`-th child insert exactly when `ok(n)`, and the callbacks `wp_insert_post` re-fires
      leave `base` on each new child without expanding it. */
  function GenerateRecurring(h: Host.Host, s: Site, pid: nat, base: Meta, ok: nat -> bool): (r: Site)
    requires ValidSite(s) && pid in s.posts
    ensures ValidSite(r)
    ensures !Proceeds(s.posts[pid].meta) ==> r == s
  {
    var parent := s.posts[pid];
    if !Proceeds(parent.meta) then s
    else Replace(s, FoundIds(s, pid), Children(parent, pid, PlannedDates(h, parent.meta, ok), base))
  }

  /** When the guards pass, every child `get_posts` finds is deleted and every other post
      is kept. */
  lemma GenerateRecurringKeeps(h: Host.Host, s: Site, pid: nat, base: Meta, ok: nat -> bool)
    requires ValidSite(s) && pid in s.posts && Proceeds(s.posts[pid].meta)
    ensures var r := GenerateRecurring(h, s, pid, base, ok);
      && r.nextId == s.nextId + |PlannedDates(h, s.posts[pid].meta, ok)|
      && (forall id :: id in r.posts <==> (id in s.posts && id !in FoundIds(s, pid)) || s.nextId <= id < r.nextId)
      && (forall id :: id in s.posts && id !in FoundIds(s, pid) ==> r.posts[id] == s.posts[id])
  {
  }

  /** When the guards pass, one child per planned date is inserted at consecutive ids. */
  lemma GenerateRecurringInserts(h: Host.Host, s: Site, pid: nat, base: Meta, ok: nat -> bool)
    requires ValidSite(s) && pid in s.posts && Proceeds(s.posts[pid].meta)
    ensures var r := GenerateRecurring(h, s, pid, base, ok);
      var cs := Children(s.posts[pid], pid, PlannedDates(h, s.posts[pid].meta, ok), base);
      && (forall id :: s.nextId <= id < s.nextId + |cs| ==> id in r.posts)
      && Block(r, s.nextId, |cs|) == cs
  {
  }

  /** A generated child is never expanded itself: its marker holds the parent id, which is
      a non-empty, non-"0" string. */
  lemma ChildIsNotExpanded(h: Host.Host, s: Site, cid: nat, parent: Post, pid: nat, d: ValidDate, base: Meta, ok: nat -> bool)
    requires ValidSite(s) && cid in s.posts && s.posts[cid] == ChildPost(parent, pid, d, base) && pid >= 1
    ensures forall b: Meta :: GenerateRecurring(h, s, cid, b, ok) == s
  {
    DecimalOfPositiveNotEmpty(pid);
  }

  /** Every child of a visible parent is found as that parent's child. */
  lemma ChildrenFound(parent: Post, pid: nat, dates: seq<ValidDate>, base: Meta)
    requires !HiddenFromAny(parent.status)
    ensures forall k :: 0 <= k < |dates| ==> Found(Children(parent, pid, dates, base)[k], pid)
  {
    forall k | 0 <= k < |dates|
      ensures Found(Children(parent, pid, dates, base)[k], pid)
    {
      ChildFound(parent, pid, dates[k], base);
    }
  }

  /** Replacing a parent's children with posts that are all found as its children, the
      parent stays as it was and the new posts are its only children. */
  lemma ReplaceOwnsExactlyNew(s: Site, pid: nat, ps: seq<Post>)
    requires ValidSite(s) && pid in s.posts && !Found(s.posts[pid], pid)
    requires forall k :: 0 <= k < |ps| ==> Found(ps[k], pid)
    ensures var r := Replace(s, FoundIds(s, pid), ps);
      && pid in r.posts && r.posts[pid] == s.posts[pid]
      && (forall id :: id in FoundIds(r, pid) <==> s.nextId <= id < r.nextId)
  {
    var r := Replace(s, FoundIds(s, pid), ps);
    assert pid !in FoundIds(s, pid);
    forall id
      ensures id in FoundIds(r, pid) <==> s.nextId <= id < r.nextId
    {
      ReplaceFoundAt(s, pid, ps, id);
    }
  }

  /** One id after the replacement: found as the parent's child exactly when it is new. */
  lemma ReplaceFoundAt(s: Site, pid: nat, ps: seq<Post>, id: int)
    requires ValidSite(s)
    requires forall k :: 0 <= k < |ps| ==> Found(ps[k], pid)
    ensures var r := Replace(s, FoundIds(s, pid), ps);
      id in FoundIds(r, pid) <==> s.nextId <= id < r.nextId
  {
    var gone := FoundIds(s, pid);
    var r := Replace(s, gone, ps);
    if s.nextId <= id < r.nextId {
      assert r.posts[s.nextId + (id - s.nextId)] == ps[id - s.nextId];
    } else if id in r.posts {
      assert id in s.posts && id !in gone;
      assert r.posts[id] == s.posts[id];
    }
  }

  /** One run on a visible, unmarked parent leaves the parent as it was and makes the new
      posts its only children: whatever it owned before is gone. */
  lemma RunOwnsExactlyNew(h: Host.Host, s: Site, pid: nat, base: Meta, ok: nat -> bool)
    requires ValidSite(s) && pid in s.posts
    requires Proceeds(s.posts[pid].meta) && MarkerKey !in s.posts[pid].meta
    requires !HiddenFromAny(s.posts[pid].status)
    ensures var r := GenerateRecurring(h, s, pid, base, ok);
      && pid in r.posts && r.posts[pid] == s.posts[pid]
      && (forall id :: id in FoundIds(r, pid) <==> s.nextId <= id < r.nextId)
  {
    var parent := s.posts[pid];
    var cs := Children(parent, pid, PlannedDates(h, parent.meta, ok), base);
    ChildrenFound(parent, pid, PlannedDates(h, parent.meta, ok), base);
    ReplaceOwnsExactlyNew(s, pid, cs);
    assert GenerateRecurring(h, s, pid, base, ok) == Replace(s, FoundIds(s, pid), cs);
  }

  /** Re-saving a parent replaces its children instead of accumulating them: the second
      run owns exactly its own new posts, and they are the first run's posts again. */
  lemma RegenerationReplacesChildren(h: Host.Host, s: Site, pid: nat, base: Meta, ok: nat -> bool)
    requires ValidSite(s) && pid in s.posts
    requires Proceeds(s.posts[pid].meta) && MarkerKey !in s.posts[pid].meta
    requires !HiddenFromAny(s.posts[pid].status)
    ensures var r1 := GenerateRecurring(h, s, pid, base, ok);
      var r2 := GenerateRecurring(h, r1, pid, base, ok);
      var n := |PlannedDates(h, s.posts[pid].meta, ok)|;
      && r2.nextId == r1.nextId + n
      && (forall id :: id in FoundIds(r2, pid) <==> r1.nextId <= id < r2.nextId)
      && Block(r2, r1.nextId, n) == Block(r1, s.nextId, n)
  {
    RunOwnsExactlyNew(h, s, pid, base, ok);
    GenerateRecurringInserts(h, s, pid, base, ok);
    GenerateRecurringKeeps(h, s, pid, base, ok);
    var r1 := GenerateRecurring(h, s, pid, base, ok);
    RunOwnsExactlyNew(h, r1, pid, base, ok);
    GenerateRecurringInserts(h, r1, pid, base, ok);
    GenerateRecurringKeeps(h, r1, pid, base, ok);
  }

  // ------------------------------------------- the save_post wp_insert_post re-fires

  /** `generate_recurring_events` as the hooks run it. Every successful `wp_insert_post`
      fires `save_post_cp_event` on the new child before it returns: the priority-10
      callbacks save the request's form onto the child, which leaves it `base`
      (`Refired` of the request), then `generate_recurring_events` runs on the child, which
      has no marker yet. Only when that nested run returns does the parent copy its meta
      and write the marker. `plan` gives the dates a run inserts for a post's meta
      (`PlannedDates` for the request's host and database). `None` is a run that has not
      returned within `fuel` nested expansions. */
  function RunAsWritten(s: Site, pid: nat, base: Meta, plan: Meta -> seq<ValidDate>, fuel: nat): (r: Option<Site>)
    requires ValidSite(s) && pid in s.posts
    ensures r.Some? ==> ValidSite(r.value)
    ensures !Proceeds(s.posts[pid].meta) ==> r == Some(s)
    decreases fuel, 0
  {
    var parent := s.posts[pid];
    if !Proceeds(parent.meta) then Some(s)
    else if fuel == 0 then None
    else InsertChildren(DeletePosts(s, FoundIds(s, pid)), parent, pid, plan(parent.meta), base, plan, fuel - 1)
  }

  /** The insert loop of one run, after the deletion: `parent` is the `$post` object the
      run was given, and the meta it copies is the parent's meta as the child's own run
      left it. */
  function InsertChildren(s: Site, parent: Post, pid: nat, dates: seq<ValidDate>,
                          base: Meta, plan: Meta -> seq<ValidDate>, fuel: nat): (r: Option<Site>)
    requires ValidSite(s)
    ensures r.Some? ==> ValidSite(r.value)
    decreases fuel, |dates| + 1
  {
    if dates == [] then Some(s)
    else
      var (s1, cid) := InsertPost(s, Newborn(parent, base));
      match RunAsWritten(s1, cid, base, plan, fuel)
      case None => None
      case Some(s2) =>
        var s3 := if cid in s2.posts
          then SetMeta(s2, cid, ChildMetaAsWritten(s2.posts[cid].meta, MetaOf(s2, pid), FormatDate(dates[0]), pid))
          else s2;
        InsertChildren(s3, parent, pid, dates[1..], base, plan, fuel)
  }

  /** The child as `wp_insert_post` hands it to the re-fired `generate_recurring_events`. */
  function Newborn(parent: Post, base: Meta): Post {
    Post("cp_event", parent.title, parent.content, InsertedStatus(parent.status), parent.author, base)
  }

  /** One level of a run whose guards pass and that has fuel left: the deletion, then the
      insert loop over the planned dates. */
  lemma RunUnfolds(s: Site, pid: nat, base: Meta, plan: Meta -> seq<ValidDate>, fuel: nat)
    requires ValidSite(s) && pid in s.posts && Proceeds(s.posts[pid].meta) && fuel > 0
    ensures RunAsWritten(s, pid, base, plan, fuel) ==
      InsertChildren(DeletePosts(s, FoundIds(s, pid)), s.posts[pid], pid, plan(s.posts[pid].meta), base, plan, fuel - 1)
  {
  }

  /** A run whose guards pass and that has no fuel left has not returned. */
  lemma RunStopsWithoutFuel(s: Site, pid: nat, base: Meta, plan: Meta -> seq<ValidDate>)
    requires ValidSite(s) && pid in s.posts && Proceeds(s.posts[pid].meta)
    ensures RunAsWritten(s, pid, base, plan, 0) == None
  {
  }

  /** A run with dates to insert never returns while `base` arms the children it inserts:
      its first successful insert starts an armed run on the new child, and so on without
      end. */
  lemma {:induction false} ArmedRunNeverReturns(s: Site, pid: nat, base: Meta, plan: Meta -> seq<ValidDate>, fuel: nat)
    requires ValidSite(s) && pid in s.posts
    requires Proceeds(s.posts[pid].meta) && plan(s.posts[pid].meta) != []
    requires Proceeds(base) && plan(base) != []
    ensures RunAsWritten(s, pid, base, plan, fuel) == None
    decreases fuel, 1
  {
    if fuel == 0 {
      RunStopsWithoutFuel(s, pid, base, plan);
    } else {
      ArmedRunStep(s, pid, base, plan, fuel);
    }
  }

  /** One level of an armed run: the deletion, then an insert loop that never returns. */
  lemma {:induction false} ArmedRunStep(s: Site, pid: nat, base: Meta, plan: Meta -> seq<ValidDate>, fuel: nat)
    requires ValidSite(s) && pid in s.posts && fuel > 0
    requires Proceeds(s.posts[pid].meta) && plan(s.posts[pid].meta) != []
    requires Proceeds(base) && plan(base) != []
    ensures RunAsWritten(s, pid, base, plan, fuel) == None
    decreases fuel, 0
  {
    RunUnfolds(s, pid, base, plan, fuel);
    FirstInsertNeverReturns(DeletePosts(s, FoundIds(s, pid)), s.posts[pid], pid, plan(s.posts[pid].meta), base, plan, fuel - 1);
  }

  /** An insert loop with a date to insert never returns while `base` arms the children
      it inserts. */
  lemma {:induction false} FirstInsertNeverReturns(s: Site, parent: Post, pid: nat, dates: seq<ValidDate>,
                                                  base: Meta, plan: Meta -> seq<ValidDate>, fuel: nat)
    requires ValidSite(s) && dates != []
    requires Proceeds(base) && plan(base) != []
    ensures InsertChildren(s, parent, pid, dates, base, plan, fuel) == None
    decreases fuel, 2
  {
    var (s1, cid) := InsertPost(s, Newborn(parent, base));
    ArmedRunNeverReturns(s1, cid, base, plan, fuel);
  }

  /** An admin save of a recurring event whose run inserts a child never returns: the
      parent was saved by the same callbacks from the same form, so every child it inserts
      is armed with the parent's own dates and pattern. */
  lemma RecurringSaveNeverReturns(h: Host.Host, s: Site, pid: nat, m: Meta, req: Request, ok: nat -> bool, fuel: nat)
    requires ValidSite(s) && pid in s.posts && s.posts[pid].meta == SaveHooks(h, m, req)
    requires !Truthy(GetMeta(m, MarkerKey))
    requires Proceeds(Refired(h, req)) && PlannedDates(h, Refired(h, req), ok) != []
    ensures RunAsWritten(s, pid, Refired(h, req), m => PlannedDates(h, m, ok), fuel) == None
  {
    var parent := s.posts[pid];
    var base := Refired(h, req);
    RefiredArmed(h, req);
    SaveHooksFrame(h, m, req, MarkerKey);
    AgreeGetMeta(parent.meta, m, MarkerKey);
    SavedParentPlansLikeChild(h, parent.meta, base, ok);
    ArmedRunNeverReturns(s, pid, base, m => PlannedDates(h, m, ok), fuel);
  }

  /** Two metas with the same date, end date and pattern plan the same children. */
  lemma SavedParentPlansLikeChild(h: Host.Host, a: Meta, b: Meta, ok: nat -> bool)
    requires GetMeta(a, DateKey) == GetMeta(b, DateKey) && GetMeta(a, EndDateKey) == GetMeta(b, EndDateKey)
    requires GetMeta(a, PatternKey) == GetMeta(b, PatternKey)
    ensures PlannedDates(h, a, ok) == PlannedDates(h, b, ok)
  {
  }

  /** Saving a weekly event from 2024-01-01 to 2024-01-15 with the recurrence box ticked
      arms every child it inserts, with a sanitizer that keeps the posted strings and a
      first insert that succeeds. */
  lemma RecurringSaveExample(h: Host.Host, ok: nat -> bool)
    requires h.sanitizeText("2024-01-01") == "2024-01-01" && h.sanitizeText("2024-01-15") == "2024-01-15"
    requires h.sanitizeText("weekly") == "weekly"
    requires h.parseDate("2024-01-01") == Some(Date(2024, 1, 1)) && h.parseDate("2024-01-15") == Some(Date(2024, 1, 15))
    requires ok(0)
    ensures var req := Request(map["cp_event_date" := "2024-01-01", "cp_is_recurring" := "1",
                                   "cp_recurrence_end_date" := "2024-01-15"], Nonces(false, true, false), true);
      Proceeds(Refired(h, req)) && PlannedDates(h, Refired(h, req), ok) != []
  {
    var req := Request(map["cp_event_date" := "2024-01-01", "cp_is_recurring" := "1",
                           "cp_recurrence_end_date" := "2024-01-15"], Nonces(false, true, false), true);
    RefiredArmed(h, req);
    ExamplePlansAChild(h, Refired(h, req), ok);
  }

  /** A meta dated 2024-01-01 to 2024-01-15 with the weekly pattern plans a child. */
  lemma ExamplePlansAChild(h: Host.Host, m: Meta, ok: nat -> bool)
    requires GetMeta(m, DateKey) == "2024-01-01" && GetMeta(m, EndDateKey) == "2024-01-15"
    requires GetMeta(m, PatternKey) == "weekly"
    requires h.parseDate("2024-01-01") == Some(Date(2024, 1, 1)) && h.parseDate("2024-01-15") == Some(Date(2024, 1, 15))
    requires ok(0)
    ensures PlannedDates(h, m, ok) != []
  {
    var start: ValidDate := Date(2024, 1, 1);
    var end: ValidDate := Date(2024, 1, 15);
    assert DayNumber(end) == DayNumber(start) + 14;
    OccurrencesFirst(start, end, Weekly, ok);
    PlannedDatesParsed(h, m, ok, start, end);
  }

  /** The planned dates of a meta whose date and end date parse. */
  lemma PlannedDatesParsed(h: Host.Host, m: Meta, ok: nat -> bool, start: ValidDate, end: ValidDate)
    requires h.parseDate(GetMeta(m, DateKey)) == Some(start) && h.parseDate(GetMeta(m, EndDateKey)) == Some(end)
    ensures PlannedDates(h, m, ok) == Occurrences(start, end, PatternOf(GetMeta(m, PatternKey)), ok)
  {
  }

  /** When `base` leaves a new child unarmed, the as-written run returns after one level,
      whatever fuel of at least one it is given, and what it returns is `GenerateRecurring`
      with children that carry `base`. */
  lemma InertRefireAgrees(h: Host.Host, s: Site, pid: nat, base: Meta, ok: nat -> bool, f: nat)
    requires ValidSite(s) && pid in s.posts && !Found(s.posts[pid], pid)
    requires !Proceeds(base)
    ensures RunAsWritten(s, pid, base, m => PlannedDates(h, m, ok), f + 1) == Some(GenerateRecurring(h, s, pid, base, ok))
  {
    var parent := s.posts[pid];
    if Proceeds(parent.meta) {
      var plan := m => PlannedDates(h, m, ok);
      InertRunStep(s, pid, base, plan, f);
      assert plan(parent.meta) == PlannedDates(h, parent.meta, ok);
    }
  }

  /** One level of a run whose guards pass, over unarmed children: the deletion and the
      inserts of `Replace`. */
  lemma InertRunStep(s: Site, pid: nat, base: Meta, plan: Meta -> seq<ValidDate>, f: nat)
    requires ValidSite(s) && pid in s.posts && !Found(s.posts[pid], pid) && Proceeds(s.posts[pid].meta)
    requires !Proceeds(base)
    ensures RunAsWritten(s, pid, base, plan, f + 1) ==
      Some(Replace(s, FoundIds(s, pid), Children(s.posts[pid], pid, plan(s.posts[pid].meta), base)))
  {
    var parent := s.posts[pid];
    var gone := FoundIds(s, pid);
    ParentSurvivesDeletion(s, pid);
    RunUnfolds(s, pid, base, plan, f + 1);
    InertInsertsAgree(DeletePosts(s, gone), parent, pid, plan(parent.meta), base, plan, f);
    ReplaceDeletesThenInserts(s, gone, Children(parent, pid, plan(parent.meta), base));
  }

  /** The deletion of a run keeps a parent that is not its own child. */
  lemma ParentSurvivesDeletion(s: Site, pid: nat)
    requires ValidSite(s) && pid in s.posts && !Found(s.posts[pid], pid)
    ensures var d := DeletePosts(s, FoundIds(s, pid)); pid in d.posts && d.posts[pid] == s.posts[pid]
  {
  }

  /** The insert loop over unarmed children is `InsertPosts` of the finished children. */
  lemma {:induction false} InertInsertsAgree(s: Site, parent: Post, pid: nat, dates: seq<ValidDate>,
                                            base: Meta, plan: Meta -> seq<ValidDate>, fuel: nat)
    requires ValidSite(s) && pid in s.posts && s.posts[pid].meta == parent.meta
    requires !Proceeds(base)
    ensures InsertChildren(s, parent, pid, dates, base, plan, fuel) == Some(InsertPosts(s, Children(parent, pid, dates, base)))
    decreases |dates|
  {
    if dates != [] {
      var (s1, cid) := InsertPost(s, Newborn(parent, base));
      assert RunAsWritten(s1, cid, base, plan, fuel) == Some(s1);
      assert MetaOf(s1, pid) == parent.meta;
      var cs := Children(parent, pid, dates, base);
      var s3 := SetMeta(s1, cid, ChildMetaAsWritten(base, parent.meta, FormatDate(dates[0]), pid));
      assert s3 == InsertPost(s, cs[0]).0;
      assert cs[1..] == Children(parent, pid, dates[1..], base);
      InertInsertsAgree(s3, parent, pid, dates[1..], base, plan, fuel);
    }
  }
}
