/**
 * The tables of crates/aivory-mail-api/src/calendar_google.rs for one connected account: events, links and the sync
 * token, and what the sync code does to them.
 */
module CalendarStore {
  import opened Text

  datatype Fields = Fields(title: string, description: string, start: string, end: string, location: string)

  datatype Source = Local | Google

  datatype Event = Event(fields: Fields, source: Source)

  /** An entry of `events.list`; `start` and `end` are `dateTime`, or else `date`. */
  datatype Item = Item(id: string, cancelled: bool, summary: Option<string>, description: Option<string>,
                       location: Option<string>, start: Option<string>, end: Option<string>)

  /**
   * `links` maps `local_event_id`, which is unique, to `google_event_id`. `newId` stands for `Uuid::new_v4`: it is
   * above every id in use. A sync token is a position in Google's history.
   */
  datatype Db = Db(events: map<nat, Event>, links: map<nat, string>, token: Option<nat>, newId: nat)

  predicate OneToOne(links: map<nat, string>) {
    forall a, b | a in links && b in links && links[a] == links[b] :: a == b
  }

  /** What the table constraints say: links are one-to-one and belong to events, ids are new. */
  predicate Sound(db: Db) {
    && OneToOne(db.links)
    && (forall l | l in db.links :: l in db.events)
    && (forall l | l in db.events :: l < db.newId)
  }

  predicate LinkedTo(db: Db, l: nat, g: string) {
    l in db.links && db.links[l] == g
  }

  ghost predicate Linked(db: Db, g: string) {
    exists l :: LinkedTo(db, l, g)
  }

  /** `find_link_by_google_id` */
  ghost function FindLink(db: Db, g: string): (r: Option<nat>)
    ensures r.Some? ==> LinkedTo(db, r.value, g)
    ensures r.None? ==> !Linked(db, g)
  {
    if Linked(db, g) then
      var l :| LinkedTo(db, l, g);
      Some(l)
    else None
  }

  lemma FindLinkIs(db: Db, l: nat)
    requires OneToOne(db.links) && l in db.links
    ensures FindLink(db, db.links[l]) == Some(l)
  {
    assert LinkedTo(db, l, db.links[l]);
  }

  // ---- one item ------------------------------------------------------------

  function Or(o: Option<string>, otherwise: string): string {
    if o.Some? then o.value else otherwise
  }

  function FieldsOf(item: Item): Fields {
    var start := Or(item.start, "");
    Fields(Or(item.summary, "(no title)"), Or(item.description, ""), start, Or(item.end, start), Or(item.location, ""))
  }

  /** No id, or a live entry without a start: the item is passed over. */
  predicate PassedOver(item: Item) {
    item.id == "" || (!item.cancelled && FieldsOf(item).start == "")
  }

  /** `DELETE`, with the link's ON DELETE CASCADE. */
  function DeleteEvent(db: Db, l: nat): Db {
    db.(events := db.events - {l}, links := db.links - {l})
  }

  function InsertEvent(db: Db, e: Event): Db {
    db.(events := db.events[db.newId := e], newId := db.newId + 1)
  }

  function UpdateFields(db: Db, l: nat, f: Fields): Db {
    if l in db.events then db.(events := db.events[l := db.events[l].(fields := f)]) else db
  }

  /** `insert_link`, where it does not violate a constraint. */
  function SetLink(db: Db, l: nat, g: string): Db {
    db.(links := db.links[l := g])
  }

  /** `upsert_from_google` */
  ghost function Upsert(db: Db, item: Item): Db {
    if item.id == "" then db
    else
      var existing := FindLink(db, item.id);
      if item.cancelled then
        if existing.Some? then DeleteEvent(db, existing.value) else db
      else if FieldsOf(item).start == "" then db
      else if existing.Some? then UpdateFields(db, existing.value, FieldsOf(item))
      else SetLink(InsertEvent(db, Event(FieldsOf(item), Google)), db.newId, item.id)
  }

  /**
   * A live entry with a start becomes an event with its fields, one by one: the one linked to its id, which keeps its
   * source, or a new one that came from Google. No other event changes.
   */
  lemma EntryIsStored(db: Db, item: Item) returns (l: nat)
    requires Sound(db) && item.id != "" && !item.cancelled && item.start.Some? && item.start.value != ""
    ensures var after := Upsert(db, item);
            && LinkedTo(after, l, item.id) && l in after.events
            && after.events[l].fields.title == (if item.summary.Some? then item.summary.value else "(no title)")
            && after.events[l].fields.description == (if item.description.Some? then item.description.value else "")
            && after.events[l].fields.location == (if item.location.Some? then item.location.value else "")
            && after.events[l].fields.start == item.start.value
            && after.events[l].fields.end == (if item.end.Some? then item.end.value else item.start.value)
            && (if LinkedTo(db, l, item.id)
                then after.events[l].source == db.events[l].source && after.links == db.links
                else l !in db.events && !Linked(db, item.id) && after.events[l].source == Google)
            && (forall k | k != l :: (k in after.events <==> k in db.events) && (k in after.links <==> k in db.links))
            && (forall k | k != l && k in db.events :: after.events[k] == db.events[k])
            && (forall k | k != l && k in db.links :: after.links[k] == db.links[k])
  {
    l := if FindLink(db, item.id).Some? then FindLink(db, item.id).value else db.newId;
  }

  ghost function ApplyAll(db: Db, items: seq<Item>): Db {
    if items == [] then db else Upsert(ApplyAll(db, items[..|items| - 1]), items[|items| - 1])
  }

  lemma UpsertSound(db: Db, item: Item)
    requires Sound(db)
    ensures Sound(Upsert(db, item))
  {
    assert forall l | l in db.links && db.links[l] == item.id :: LinkedTo(db, l, item.id);
  }

  lemma {:induction false} ApplyAllSound(db: Db, items: seq<Item>)
    requires Sound(db)
    ensures Sound(ApplyAll(db, items))
  {
    if items != [] {
      ApplyAllSound(db, items[..|items| - 1]);
      hide Upsert, Sound;
      UpsertSound(ApplyAll(db, items[..|items| - 1]), items[|items| - 1]);
    }
  }

  // ---- applying a batch again ----------------------------------------------

  /** The tables say what this item says. */
  ghost predicate Reflects(db: Db, item: Item) {
    PassedOver(item)
    || (if item.cancelled then !Linked(db, item.id)
        else exists l :: LinkedTo(db, l, item.id) && l in db.events && db.events[l].fields == FieldsOf(item))
  }

  lemma UpsertReflects(db: Db, item: Item)
    requires Sound(db)
    ensures Reflects(Upsert(db, item), item)
  {
    var after := Upsert(db, item);
    if !PassedOver(item) {
      if item.cancelled {
        assert forall l | LinkedTo(after, l, item.id) :: LinkedTo(db, l, item.id);
      } else {
        var l := if FindLink(db, item.id).Some? then FindLink(db, item.id).value else db.newId;
        assert LinkedTo(after, l, item.id);
      }
    }
  }

  /** An item with another id is not disturbed. */
  lemma UpsertKeepsOthers(db: Db, item: Item, other: Item)
    requires Sound(db) && Reflects(db, other) && item.id != other.id
    ensures Reflects(Upsert(db, item), other)
  {
    var after := Upsert(db, item);
    assert forall l | LinkedTo(after, l, other.id) :: LinkedTo(db, l, other.id);
    if !PassedOver(other) && !other.cancelled {
      var l :| LinkedTo(db, l, other.id) && l in db.events && db.events[l].fields == FieldsOf(other);
      assert LinkedTo(after, l, other.id);
    }
  }

  lemma UpsertReflected(db: Db, item: Item)
    requires Sound(db) && Reflects(db, item)
    ensures Upsert(db, item) == db
  {
    if !PassedOver(item) && !item.cancelled {
      var l :| LinkedTo(db, l, item.id) && l in db.events && db.events[l].fields == FieldsOf(item);
      FindLinkIs(db, l);
      assert db.events[l := db.events[l].(fields := FieldsOf(item))] == db.events;
    }
  }

  predicate DistinctIds(items: seq<Item>) {
    forall i, j | 0 <= i < j < |items| :: items[i].id != items[j].id
  }

  lemma {:induction false} BatchReflected(db: Db, items: seq<Item>)
    requires Sound(db) && DistinctIds(items)
    ensures Sound(ApplyAll(db, items)) && forall i | 0 <= i < |items| :: Reflects(ApplyAll(db, items), items[i])
  {
    ApplyAllSound(db, items);
    if items != [] {
      var n := |items| - 1;
      BatchReflected(db, items[..n]);
      var before := ApplyAll(db, items[..n]);
      hide Upsert, Sound, Reflects;
      UpsertReflects(before, items[n]);
      forall i | 0 <= i < n ensures Reflects(Upsert(before, items[n]), items[i]) {
        assert items[..n][i] == items[i];
        UpsertKeepsOthers(before, items[n], items[i]);
      }
    }
  }

  lemma {:induction false} ApplyReflected(db: Db, items: seq<Item>)
    requires Sound(db) && forall i | 0 <= i < |items| :: Reflects(db, items[i])
    ensures ApplyAll(db, items) == db
  {
    if items != [] {
      hide Upsert, Sound, Reflects;
      ApplyReflected(db, items[..|items| - 1]);
      UpsertReflected(db, items[|items| - 1]);
    }
  }

  /** Applying a batch a second time changes nothing. */
  lemma BatchIdempotent(db: Db, items: seq<Item>)
    requires Sound(db) && DistinctIds(items)
    ensures ApplyAll(ApplyAll(db, items), items) == ApplyAll(db, items)
  {
    BatchReflected(db, items);
    hide *;
    ApplyReflected(ApplyAll(db, items), items);
  }

  // ---- a pull --------------------------------------------------------------

  /** Google's answer to one request for a page. */
  datatype Response = Gone | Failed | Body(items: seq<Item>, nextSyncToken: Option<nat>, more: bool)

  /** `pull_google_events`: an error, or `Ok` of the next sync token. */
  datatype Pulled = Broken | Listed(next: Option<nat>)

  /** `responses` is what successive requests would get; nothing left is a lost connection. */
  ghost function Pull(db: Db, responses: seq<Response>, next: Option<nat>): (Db, Pulled)
    decreases |responses|
  {
    if responses == [] then (db, Broken)
    else
      match responses[0]
      case Gone => (db.(token := None), Listed(None))
      case Failed => (db, Broken)
      case Body(items, token, more) =>
        var applied := ApplyAll(db, items);
        var latest := if token.Some? then token else next;
        if more then Pull(applied, responses[1..], latest) else (applied, Listed(latest))
  }

  // ---- a push --------------------------------------------------------------

  /**
   * Google's answer to one `POST`: created, refused or without an id, or no answer at all, when Google may have
   * created the event all the same.
   */
  datatype Posted = Created(id: string) | NotCreated | Lost(behind: Option<string>)

  predicate Unlinked(db: Db, l: nat) {
    l in db.events && db.events[l].source == Local && l !in db.links
  }

  /** `UnlinkedEvent`: a row as the push query read it. */
  datatype Row = Row(id: nat, fields: Fields)

  /** These are the rows that the push query selects. */
  predicate Selects(db: Db, rows: seq<Row>) {
    && (forall i | 0 <= i < |rows| :: Unlinked(db, rows[i].id) && rows[i].fields == db.events[rows[i].id].fields)
    && (forall l | l in db.events && Unlinked(db, l) :: exists i | 0 <= i < |rows| :: rows[i].id == l)
    && (forall i, j | 0 <= i < j < |rows| :: rows[i].id != rows[j].id)
  }

  /** `insert_link` fails when another event has this Google id, or the event is gone. */
  ghost predicate LinkFits(db: Db, l: nat, g: string) {
    l in db.events && forall a | LinkedTo(db, a, g) :: a == l
  }

  /** How a push ends: the tables, whether it got through, and the payloads it sent. */
  datatype Pushed = Pushed(db: Db, ok: bool, sent: seq<Fields>)

  /** `push_local_events` on the rows selected at its start; nothing left to answer is a lost connection. */
  ghost function Push(db: Db, rows: seq<Row>, answers: seq<Posted>): Pushed
    decreases |rows|
  {
    if rows == [] then Pushed(db, true, [])
    else if answers == [] || answers[0].Lost? then Pushed(db, false, [rows[0].fields])
    else if answers[0].Created? && !LinkFits(db, rows[0].id, answers[0].id) then Pushed(db, false, [rows[0].fields])
    else
      var linked := if answers[0].Created? then SetLink(db, rows[0].id, answers[0].id) else db;
      var rest := Push(linked, rows[1..], answers[1..]);
      rest.(sent := [rows[0].fields] + rest.sent)
  }

  /** What is sent are the rows as read, in order and each once, all of them if the push gets through. */
  lemma {:induction false} SentAreRows(db: Db, rows: seq<Row>, answers: seq<Posted>)
    ensures var p := Push(db, rows, answers);
            && |p.sent| <= |rows| && (p.ok ==> |p.sent| == |rows|)
            && forall i | 0 <= i < |p.sent| :: p.sent[i] == rows[i].fields
    decreases |rows|
  {
    hide LinkFits;
    if rows != [] && answers != [] {
      var linked := if answers[0].Created? then SetLink(db, rows[0].id, answers[0].id) else db;
      SentAreRows(linked, rows[1..], answers[1..]);
    }
  }

  predicate AllCreated(answers: seq<Posted>) {
    forall i | 0 <= i < |answers| :: answers[i].Created?
  }

  predicate NoneTwice<T(==)>(s: seq<T>) {
    forall i, j | 0 <= i < j < |s| :: s[i] != s[j]
  }

  /** Every post was created, each under an id that no event is linked to. */
  predicate AllNew(links: map<nat, string>, answers: seq<Posted>) {
    && AllCreated(answers) && NoneTwice(answers)
    && forall l, i | l in links && 0 <= i < |answers| :: links[l] != answers[i].id
  }

  /**
   * What a push posts: the payloads are the fields of the user's events without a link, each once and no others, all
   * of them if the push gets through. Events stay as they are, and only such events get links.
   */
  lemma PushPosts(db: Db, rows: seq<Row>, answers: seq<Posted>) returns (ids: seq<nat>)
    requires Selects(db, rows)
    ensures NoneTwice(ids) && |ids| == |rows|
    ensures forall l :: l in ids <==> l in db.events && db.events[l].source == Local && l !in db.links
    ensures var p := Push(db, rows, answers);
            && |p.sent| <= |ids| && (p.ok ==> |p.sent| == |ids|)
            && (forall i | 0 <= i < |p.sent| :: p.sent[i] == db.events[ids[i]].fields)
            && p.db.events == db.events && p.db.token == db.token && p.db.newId == db.newId
            && (forall l | l in db.links :: l in p.db.links && p.db.links[l] == db.links[l])
            && (forall l | l in p.db.links :: l in db.links || l in ids)
  {
    ids := seq(|rows|, i requires 0 <= i < |rows| => rows[i].id);
    forall l ensures l in ids <==> l in db.events && db.events[l].source == Local && l !in db.links {
      if l in db.events && db.events[l].source == Local && l !in db.links {
        var i :| 0 <= i < |rows| && rows[i].id == l;
        assert ids[i] == l;
      }
    }
    SentAreRows(db, rows, answers);
    assert forall i | 0 <= i < |rows| :: rows[i].id == ids[i] && rows[i].id in ids && rows[i].id !in db.links;
    hide Selects;
    PushOnlyLinks(db, rows, answers);
  }

  lemma {:induction false} PushOnlyLinks(db: Db, rows: seq<Row>, answers: seq<Posted>)
    requires forall i | 0 <= i < |rows| :: rows[i].id !in db.links
    requires forall i, j | 0 <= i < j < |rows| :: rows[i].id != rows[j].id
    ensures var p := Push(db, rows, answers);
            && p.db.events == db.events && p.db.token == db.token && p.db.newId == db.newId
            && (forall l | l in db.links :: l in p.db.links && p.db.links[l] == db.links[l])
            && (forall l | l in p.db.links :: l in db.links || exists i | 0 <= i < |rows| :: rows[i].id == l)
    decreases |rows|
  {
    hide LinkFits;
    if rows != [] && answers != [] {
      var linked := if answers[0].Created? then SetLink(db, rows[0].id, answers[0].id) else db;
      PushOnlyLinks(linked, rows[1..], answers[1..]);
      assert forall i | 0 <= i < |rows[1..]| :: rows[1..][i] == rows[i + 1];
    }
  }

  /** A push that gets through and whose posts were all created leaves none of the user's events without a link. */
  lemma PushLinksAll(db: Db, rows: seq<Row>, answers: seq<Posted>)
    requires Selects(db, rows) && Push(db, rows, answers).ok && AllCreated(answers)
    ensures forall l | l in db.events && db.events[l].source == Local :: l in Push(db, rows, answers).db.links
  {
    var p := Push(db, rows, answers);
    forall l | l in db.events && db.events[l].source == Local ensures l in p.db.links {
      LinksStay(db, rows, answers);
      if l !in db.links {
        var i :| 0 <= i < |rows| && rows[i].id == l;
        RowIsLinked(db, rows, answers, i);
      }
    }
  }

  lemma LinksStay(db: Db, rows: seq<Row>, answers: seq<Posted>)
    requires Selects(db, rows)
    ensures forall l | l in db.links :: l in Push(db, rows, answers).db.links
  {
    PushOnlyLinks(db, rows, answers);
  }

  lemma {:induction false} RowIsLinked(db: Db, rows: seq<Row>, answers: seq<Posted>, i: nat)
    requires i < |rows| && Push(db, rows, answers).ok && AllCreated(answers)
    requires forall k, j | 0 <= k < j < |rows| :: rows[k].id != rows[j].id
    requires forall k | 0 <= k < |rows| :: rows[k].id !in db.links
    ensures rows[i].id in Push(db, rows, answers).db.links
    decreases |rows|
  {
    hide LinkFits;
    var linked := SetLink(db, rows[0].id, answers[0].id);
    if i == 0 {
      PushOnlyLinks(linked, rows[1..], answers[1..]);
    } else {
      assert rows[1..][i - 1] == rows[i];
      RowIsLinked(linked, rows[1..], answers[1..], i - 1);
    }
  }

  /** However Google answers, links stay one-to-one and belong to events. */
  lemma {:induction false} PushSound(db: Db, rows: seq<Row>, answers: seq<Posted>)
    requires Sound(db)
    ensures Sound(Push(db, rows, answers).db)
    decreases |rows|
  {
    if rows != [] && answers != [] && !answers[0].Lost? {
      if answers[0].Created? && LinkFits(db, rows[0].id, answers[0].id) {
        LinkSound(db, rows[0].id, answers[0].id);
      }
      hide Sound, LinkFits, SetLink;
      if answers[0].Created? ==> LinkFits(db, rows[0].id, answers[0].id) {
        var linked := if answers[0].Created? then SetLink(db, rows[0].id, answers[0].id) else db;
        PushSound(linked, rows[1..], answers[1..]);
      }
    }
  }

  lemma LinkSound(db: Db, l: nat, g: string)
    requires Sound(db) && LinkFits(db, l, g)
    ensures Sound(SetLink(db, l, g))
  {
    assert forall a | a in db.links && db.links[a] == g :: LinkedTo(db, a, g);
  }

  /** It gets through when Google answers every post, each time with an id that is new. */
  lemma PushGetsThrough(db: Db, rows: seq<Row>, answers: seq<Posted>)
    requires Selects(db, rows) && |answers| >= |rows| && AllNew(db.links, answers)
    ensures Push(db, rows, answers).ok
  {
    assert forall i | 0 <= i < |rows| :: rows[i].id in db.events;
    hide Selects;
    NewIdsFit(db, rows, answers);
  }

  lemma {:induction false} NewIdsFit(db: Db, rows: seq<Row>, answers: seq<Posted>)
    requires |answers| >= |rows| && AllNew(db.links, answers)
    requires forall i | 0 <= i < |rows| :: rows[i].id in db.events
    ensures Push(db, rows, answers).ok
    decreases |rows|
  {
    if rows != [] {
      var linked := SetLink(db, rows[0].id, answers[0].id);
      assert LinkFits(db, rows[0].id, answers[0].id);
      forall l, i | l in linked.links && 0 <= i < |answers[1..]| ensures linked.links[l] != answers[1..][i].id {
        assert answers[1..][i] == answers[i + 1] && answers[0] != answers[i + 1];
        assert answers[0] == Created(answers[0].id) && answers[i + 1] == Created(answers[i + 1].id);
      }
      NewIdsFit(linked, rows[1..], answers[1..]);
    }
  }

  /** `mark_synced`, with its COALESCE. */
  function MarkSynced(db: Db, next: Option<nat>): Db {
    if next.Some? then db.(token := next) else db
  }

  /** `sync_account`: pull, then push, then commit the token; an error ends it where it is. */
  ghost predicate Synced(db: Db, responses: seq<Response>, answers: seq<Posted>, after: Db, ok: bool) {
    var (pulled, result) := Pull(db, responses, None);
    if result.Broken? then after == pulled && !ok
    else exists rows | Selects(pulled, rows) :: PushedTo(pulled, rows, answers, result.next, after, ok)
  }

  ghost predicate PushedTo(pulled: Db, rows: seq<Row>, answers: seq<Posted>, next: Option<nat>, after: Db, ok: bool) {
    var p := Push(pulled, rows, answers);
    ok == p.ok && after == if ok then MarkSynced(p.db, next) else p.db
  }

  lemma PushFacts(db: Db, rows: seq<Row>, answers: seq<Posted>)
    requires Selects(db, rows)
    ensures var p := Push(db, rows, answers);
            && p.db.events == db.events && p.db.token == db.token
            && |p.sent| <= |rows| && (p.ok ==> |p.sent| == |rows|)
            && (forall i | 0 <= i < |p.sent| :: rows[i].id in db.events && p.sent[i] == db.events[rows[i].id].fields)
            && (p.ok && AllCreated(answers) ==>
                  forall l | l in db.events && db.events[l].source == Local :: l in p.db.links)
            && (|answers| >= |rows| && AllNew(db.links, answers) ==> p.ok)
    ensures forall l :: (exists i | 0 <= i < |rows| :: rows[i].id == l)
                        <==> l in db.events && db.events[l].source == Local && l !in db.links
  {
    SentAreRows(db, rows, answers);
    PushOnlyLinks(db, rows, answers);
    hide Push;
    var p := Push(db, rows, answers);
    if p.ok && AllCreated(answers) { PushLinksAll(db, rows, answers); }
    if |answers| >= |rows| && AllNew(db.links, answers) { PushGetsThrough(db, rows, answers); }
  }

  class Store {
    var events: map<nat, Event>
    var links: map<nat, string>
    var syncToken: Option<nat>
    var newId: nat

    function Tables(): Db
      reads this
    {
      Db(events, links, syncToken, newId)
    }

    constructor ()
      ensures Tables() == Db(map[], map[], None, 0)
    {
      events, links, syncToken, newId := map[], map[], None, 0;
    }

    method FindLinkByGoogleId(g: string) returns (r: Option<nat>)
      requires Sound(Tables())
      ensures r == FindLink(Tables(), g)
    {
      if exists l | l in links :: links[l] == g {
        var l :| l in links && links[l] == g;
        r := Some(l);
        FindLinkIs(Tables(), l);
      } else {
        r := None;
      }
    }

    method UpsertFromGoogle(item: Item)
      requires Sound(Tables())
      modifies this
      ensures Tables() == Upsert(old(Tables()), item) && Sound(Tables())
    {
      UpsertSound(Tables(), item);
      hide Sound;
      if item.id == "" {
        return;
      }
      var existing := FindLinkByGoogleId(item.id);
      if item.cancelled {
        if existing.Some? {
          events := events - {existing.value};
          links := links - {existing.value};
        }
        return;
      }
      var fields := FieldsOf(item);
      if fields.start == "" {
        return;
      }
      if existing.Some? {
        if existing.value in events {
          events := events[existing.value := events[existing.value].(fields := fields)];
        }
      } else {
        var l := newId;
        events := events[l := Event(fields, Google)];
        newId := newId + 1;
        links := links[l := item.id];
      }
    }

    method PullGoogleEvents(responses: seq<Response>) returns (result: Pulled)
      requires Sound(Tables())
      modifies this
      ensures (Tables(), result) == Pull(old(Tables()), responses, None) && Sound(Tables())
    {
      var next: Option<nat> := None;
      var i := 0;
      while true
        invariant 0 <= i <= |responses| && Sound(Tables())
        invariant Pull(Tables(), responses[i..], next) == Pull(old(Tables()), responses, None)
        decreases |responses| - i
      {
        if i == |responses| {
          return Broken;
        }
        var r := responses[i];
        if r.Gone? {
          syncToken := None;
          return Listed(None);
        }
        if r.Failed? {
          return Broken;
        }
        ghost var before := Tables();
        ApplyItems(r.items);
        if r.nextSyncToken.Some? {
          next := r.nextSyncToken;
        }
        assert responses[i..][1..] == responses[i + 1..];
        if !r.more {
          return Listed(next);
        }
        i := i + 1;
      }
    }

    method ApplyItems(items: seq<Item>)
      requires Sound(Tables())
      modifies this
      ensures Tables() == ApplyAll(old(Tables()), items) && Sound(Tables())
    {
      hide Upsert, Sound;
      for k := 0 to |items|
        invariant Sound(Tables()) && Tables() == ApplyAll(old(Tables()), items[..k])
      {
        UpsertFromGoogle(items[k]);
        assert items[..k + 1][..k] == items[..k];
      }
      assert items[..|items|] == items;
    }

    method InsertLink(l: nat, g: string) returns (ok: bool)
      modifies this
      ensures ok == LinkFits(old(Tables()), l, g)
      ensures Tables() == if ok then SetLink(old(Tables()), l, g) else old(Tables())
    {
      ok := l in events && forall a | a in links :: links[a] == g ==> a == l;
      assert (forall a | LinkedTo(Tables(), a, g) :: a == l)
        <==> (forall a | a in links :: links[a] == g ==> a == l) by {
        assert forall a | a in links && links[a] == g :: LinkedTo(Tables(), a, g);
      }
      if ok {
        links := links[l := g];
      }
    }

    /** The push query; its rows come in no particular order. */
    method SelectUnlinked() returns (rows: seq<Row>)
      ensures Selects(Tables(), rows)
    {
      rows := [];
      var rest: set<nat> := set l: nat | l in events && Unlinked(Tables(), l);
      while rest != {}
        invariant forall i | 0 <= i < |rows| ::
                    Unlinked(Tables(), rows[i].id) && rows[i].id !in rest && rows[i].fields == events[rows[i].id].fields
        invariant forall l | l in events && Unlinked(Tables(), l) ::
                    l in rest || exists i | 0 <= i < |rows| :: rows[i].id == l
        invariant forall l | l in rest :: Unlinked(Tables(), l)
        invariant forall i, j | 0 <= i < j < |rows| :: rows[i].id != rows[j].id
        decreases |rest|
      {
        var l: nat :| l in rest;
        ghost var before := rows;
        rows, rest := rows + [Row(l, events[l].fields)], rest - {l};
        assert rows[|before|].id == l && forall i | 0 <= i < |before| :: rows[i] == before[i];
      }
    }

    /** The loop of the push, over the rows that its query read. */
    method PostRows(unlinked: seq<Row>, answers: seq<Posted>) returns (ok: bool, sent: seq<Fields>)
      modifies this
      ensures Pushed(Tables(), ok, sent) == Push(old(Tables()), unlinked, answers)
    {
      hide LinkFits, SetLink;
      var i := 0;
      ok, sent := true, [];
      while i < |unlinked|
        invariant 0 <= i <= |unlinked|
        invariant i <= |answers| && ok
        invariant var p := Push(Tables(), unlinked[i..], answers[i..]);
                  p.(sent := sent + p.sent) == Push(old(Tables()), unlinked, answers)
      {
        ghost var p, sentBefore := Push(Tables(), unlinked[i..], answers[i..]), sent;
        assert i < |answers| ==> answers[i..][0] == answers[i] && answers[i..][1..] == answers[i + 1..];
        assert unlinked[i..][0] == unlinked[i] && unlinked[i..][1..] == unlinked[i + 1..];
        sent := sent + [unlinked[i].fields];
        assert p.sent[0] == unlinked[i].fields && sent + p.sent[1..] == sentBefore + p.sent;
        if i == |answers| || answers[i].Lost? {
          ok := false;
          return;
        }
        if answers[i].Created? {
          ok := InsertLink(unlinked[i].id, answers[i].id);
          if !ok {
            return;
          }
        }
        i := i + 1;
      }
    }

    /**
     * `sent` are the payloads of all requests made, the last one perhaps without an answer: the fields of the user's
     * events without a link, and if all of them are created each event of the user has one.
     */
    method PushLocalEvents(answers: seq<Posted>) returns (ok: bool, sent: seq<Fields>, ghost rows: seq<Row>)
      modifies this
      ensures Selects(old(Tables()), rows)
      ensures Pushed(Tables(), ok, sent) == Push(old(Tables()), rows, answers)
      ensures forall l :: (exists i | 0 <= i < |rows| :: rows[i].id == l)
                          <==> l in old(events) && old(events)[l].source == Local && l !in old(links)
      ensures events == old(events) && syncToken == old(syncToken)
      ensures |sent| <= |rows| && (ok ==> |sent| == |rows|)
      ensures forall i | 0 <= i < |sent| :: rows[i].id in events && sent[i] == events[rows[i].id].fields
      ensures ok && AllCreated(answers) ==> forall l | l in events && events[l].source == Local :: l in links
      ensures |answers| >= |rows| && AllNew(old(links), answers) ==> ok
    {
      var unlinked := SelectUnlinked();
      rows := unlinked;
      ghost var before := Tables();
      PushFacts(before, rows, answers);
      ok, sent := PostRows(unlinked, answers);
      hide Push, Selects, AllNew, AllCreated;
    }

    method SyncAccount(responses: seq<Response>, answers: seq<Posted>) returns (ok: bool)
      requires Sound(Tables())
      modifies this
      ensures Synced(old(Tables()), responses, answers, Tables(), ok)
      ensures ok && AllCreated(answers) ==> forall l | l in events && events[l].source == Local :: l in links
      ensures Sound(Tables())
    {
      var result := PullGoogleEvents(responses);
      if result.Broken? {
        return false;
      }
      ghost var pulled := Tables();
      var sent;
      ghost var rows;
      ok, sent, rows := PushLocalEvents(answers);
      PushSound(pulled, rows, answers);
      if ok && result.next.Some? {
        syncToken := result.next;
      }
      assert PushedTo(pulled, rows, answers, result.next, Tables(), ok);
    }
  }
}
