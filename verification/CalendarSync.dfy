/**
 * Google, the user and the sync passes of crates/aivory-mail-api/src/calendar_google.rs together: every step that a
 * pass takes, cut anywhere, with changes on both sides in between.
 */
module CalendarSync {
  import opened Text
  import opened CalendarStore

  // ---- Google's side -------------------------------------------------------

  /** Every version of every event, in the order in which Google got them. A sync token counts a prefix of it. */
  type History = seq<Item>

  function Latest(h: History, g: string): Option<Item> {
    if h == [] then None else if h[|h| - 1].id == g then Some(h[|h| - 1]) else Latest(h[..|h| - 1], g)
  }

  predicate ChangedSince(h: History, k: nat, g: string) {
    exists i | k <= i < |h| :: h[i].id == g
  }

  /** The ids that a listing from token `k` reports. */
  function ChangedIds(h: History, k: nat): set<string> {
    set i | k <= i < |h| :: h[i].id
  }

  predicate Live(h: History, g: string) {
    Latest(h, g).Some? && !Latest(h, g).value.cancelled
  }

  /** Google's entries have an id, and a start unless they are cancelled. */
  predicate WellFormed(item: Item) {
    !PassedOver(item)
  }

  // ---- the whole system ----------------------------------------------------

  /**
   * A pass in progress: pulling the ids reported when it started, or pushing, with the token it will commit and the
   * rows that its query read. `missed` are the ids that a full listing did not report although they are linked or live.
   */
  datatype Pass =
    | Idle
    | Pulling(snapshot: nat, reported: set<string>, applied: set<string>)
    | Pushing(next: Option<nat>, missed: set<string>, rows: map<nat, Fields>)

  datatype Post = Post(l: nat, recorded: bool)

  /**
   * `excused` are ids for which nothing is promised until Google reports them again: their local event was edited
   * or deleted by the user, or a full listing missed them. `orphans` lost their link to a pass cut between the two
   * inserts; `pulled` are all events that came from Google; `posts` are all creations at Google.
   */
  datatype System = System(db: Db, history: History, pass: Pass, excused: set<string>, orphans: set<nat>,
                           pulled: set<nat>, posts: seq<Post>)

  const START := System(Db(map[], map[], None, 0), [], Idle, {}, {}, {}, [])

  datatype Action =
    | GoogleChanges(item: Item)
    | CreateLocal(fields: Fields)
    | EditLocal(l: nat, fields: Fields)
    | DeleteLocal(l: nat)
    | StartPass(listed: set<string>)   // what a full listing would report; a token reports what changed
    | Apply(g: string)                 // one reported entry, again if need be
    | ApplyHalf(g: string)             // cut between the event and its link
    | TokenGone                        // 410
    | AllApplied(returned: bool)       // the last page, with or without a new token
    | PushEvent(l: nat, g: string)
    | PushRefused(l: nat)              // Google makes no event of it; the pass goes on without it
    | PushUnrecorded(l: nat, g: string)  // created at Google, but the answer lost or the link refused
    | CommitToken
    | Cut

  function LinkedId(db: Db, l: nat): set<string> {
    if l in db.links then {db.links[l]} else {}
  }

  /** What a full listing of the first `n` changes leaves out, though it matters here. */
  ghost function Missed(db: Db, h: History, reported: set<string>): set<string> {
    set g | g in ChangedIds(h, 0) && g !in reported && (Linked(db, g) || Live(h, g))
  }

  /** What `push_local_events` posts. */
  function Posting(f: Fields, g: string): Item {
    Item(g, false, Some(f.title), Some(f.description), Some(f.location), Some(f.start), Some(f.end))
  }

  /** The push query: what is posted are these rows, whatever the user does to the events meanwhile. */
  function Rows(db: Db): map<nat, Fields> {
    map l | l in db.events && Unlinked(db, l) :: db.events[l].fields
  }

  predicate CanPush(s: System, l: nat, g: string) {
    && s.pass.Pushing? && l in s.pass.rows && s.pass.rows[l].start != ""
    && g != "" && g !in ChangedIds(s.history, 0)
  }

  predicate CanApply(s: System, g: string) {
    s.pass.Pulling? && g in s.pass.reported && s.pass.snapshot <= |s.history|
    && Latest(s.history[..s.pass.snapshot], g).Some?
  }

  ghost function Applied(s: System, g: string): System
    requires CanApply(s, g)
  {
    var item := Latest(s.history[..s.pass.snapshot], g).value;
    var db := Upsert(s.db, item);
    s.(db := db, pass := s.pass.(applied := s.pass.applied + {g}), excused := s.excused - {g},
       pulled := if db.newId > s.db.newId then s.pulled + {s.db.newId} else s.pulled)
  }

  /** One step; an action that is not possible now changes nothing. */
  ghost function Step(s: System, a: Action): System {
    match a
    case GoogleChanges(item) => if WellFormed(item) then s.(history := s.history + [item]) else s
    case CreateLocal(fields) => s.(db := InsertEvent(s.db, Event(fields, Local)))
    case EditLocal(l, fields) =>
      s.(db := UpdateFields(s.db, l, fields), excused := s.excused + LinkedId(s.db, l))
    case DeleteLocal(l) =>
      s.(db := DeleteEvent(s.db, l), excused := s.excused + LinkedId(s.db, l))
    case StartPass(listed) =>
      if !s.pass.Idle? then s
      else
        var reported := if s.db.token.Some? then ChangedIds(s.history, s.db.token.value)
                        else set g | g in listed && Live(s.history, g);
        s.(pass := Pulling(|s.history|, reported, {}))
    case Apply(g) => if CanApply(s, g) then Applied(s, g) else s
    case ApplyHalf(g) =>
      if !CanApply(s, g) || Linked(s.db, g) || Latest(s.history[..s.pass.snapshot], g).value.cancelled then s
      else
        var e := Event(FieldsOf(Latest(s.history[..s.pass.snapshot], g).value), Google);
        s.(db := InsertEvent(s.db, e), pass := Idle,
           orphans := s.orphans + {s.db.newId}, pulled := s.pulled + {s.db.newId})
    case TokenGone =>
      if s.pass.Pulling? then s.(db := s.db.(token := None), pass := Pushing(None, {}, Rows(s.db))) else s
    case AllApplied(returned) =>
      if !s.pass.Pulling? || !(s.pass.reported <= s.pass.applied) || s.pass.snapshot > |s.history| then s
      else
        s.(pass := Pushing(if returned then Some(s.pass.snapshot) else None,
                           if s.db.token.Some? then {}
                           else Missed(s.db, s.history[..s.pass.snapshot], s.pass.reported),
                           Rows(s.db)))
    case PushEvent(l, g) =>
      if !CanPush(s, l, g) || l !in s.db.events then s
      else s.(db := SetLink(s.db, l, g), history := s.history + [Posting(s.pass.rows[l], g)],
              pass := s.pass.(rows := s.pass.rows - {l}), posts := s.posts + [Post(l, true)])
    case PushRefused(l) => if s.pass.Pushing? then s.(pass := s.pass.(rows := s.pass.rows - {l})) else s
    case PushUnrecorded(l, g) =>
      if !CanPush(s, l, g) then s
      else s.(history := s.history + [Posting(s.pass.rows[l], g)], pass := Idle,
              posts := s.posts + [Post(l, false)])
    case CommitToken =>
      if !s.pass.Pushing? || s.pass.rows != map[] then s
      else s.(db := MarkSynced(s.db, s.pass.next), pass := Idle,
              excused := if s.pass.next.Some? then s.excused + s.pass.missed else s.excused)
    case Cut => s.(pass := Idle)
  }

  ghost function Run(s: System, actions: seq<Action>): System
    decreases |actions|
  {
    if actions == [] then s else Run(Step(s, actions[0]), actions[1..])
  }

  // ---- the tables and the log ----------------------------------------------

  /** The link table is one-to-one, belongs to events, and names only Google's ids. */
  predicate TablesSound(s: System) {
    && Sound(s.db)
    && (forall l | l in s.db.links :: s.db.links[l] in ChangedIds(s.history, 0))
    && (forall i | 0 <= i < |s.history| :: WellFormed(s.history[i]))
  }

  /** Events from Google carry that source, and lack a link exactly if a pass was cut while it inserted them. */
  predicate SourcesTrue(s: System) {
    && (forall l | l in s.db.events :: s.db.events[l].source == Google <==> l in s.pulled)
    && (forall l | l in s.pulled :: l < s.db.newId)
    && (forall l | l in s.orphans :: l in s.pulled)
    && (forall l | l in s.db.events && l in s.pulled :: l !in s.db.links <==> l in s.orphans)
  }

  /** Nothing that came from Google is posted, and nothing is posted again once its post was recorded. */
  predicate NoEcho(s: System) {
    && (forall i | 0 <= i < |s.posts| :: s.posts[i].l !in s.pulled && s.posts[i].l < s.db.newId)
    && (forall i | 0 <= i < |s.posts| && s.posts[i].recorded ::
          s.posts[i].l in s.db.links || s.posts[i].l !in s.db.events)
    && (forall i, j | 0 <= i < j < |s.posts| && s.posts[i].recorded :: s.posts[i].l != s.posts[j].l)
    && (s.pass.Pushing? ==> RowsAreOpen(s, s.pass.rows))
  }

  /** These rows came from the user, and their posts have not been recorded. */
  predicate RowsAreOpen(s: System, rows: map<nat, Fields>) {
    && (forall l | l in rows :: l !in s.pulled && l < s.db.newId && l !in s.db.links)
    && (forall i | 0 <= i < |s.posts| && s.posts[i].recorded :: s.posts[i].l !in rows)
  }

  predicate Orderly(s: System) {
    TablesSound(s) && SourcesTrue(s) && NoEcho(s)
  }

  lemma {:induction false} LatestIs(h: History, g: string)
    ensures Latest(h, g).Some? ==> Latest(h, g).value.id == g && Latest(h, g).value in h
    ensures Latest(h, g).Some? <==> g in ChangedIds(h, 0)
  {
    if h != [] {
      LatestIs(h[..|h| - 1], g);
      assert forall i | 0 <= i < |h| - 1 :: h[..|h| - 1][i] == h[i];
      if g in ChangedIds(h, 0) {
        var i :| 0 <= i < |h| && h[i].id == g;
        if i < |h| - 1 { assert h[..|h| - 1][i].id == g; }
      }
    }
  }

  /** What one item can do to the tables: nothing, delete a linked pair, update a linked event, insert a linked pair. */
  lemma UpsertShape(db: Db, item: Item)
    requires Sound(db) && WellFormed(item)
    ensures var after := Upsert(db, item);
            || after == db
            || (exists l :: LinkedTo(db, l, item.id) && after == DeleteEvent(db, l))
            || (exists l :: LinkedTo(db, l, item.id) && after == UpdateFields(db, l, FieldsOf(item)))
            || (!Linked(db, item.id)
                && after == SetLink(InsertEvent(db, Event(FieldsOf(item), Google)), db.newId, item.id))
  {
  }

  /** The log is the same, whatever happens to the tables. */
  predicate SameLog(s: System, t: System) {
    && t.history == s.history && t.orphans == s.orphans && t.posts == s.posts
    && (t.pass.Pushing? ==> t.pass == s.pass)
  }

  lemma DeleteKeeps(s: System, t: System, l: nat)
    requires Orderly(s) && SameLog(s, t) && t.pulled == s.pulled && t.db == DeleteEvent(s.db, l)
    ensures Orderly(t)
  {
    hide ChangedIds;
    assert TablesSound(t) by { hide SourcesTrue, NoEcho; }
    assert SourcesTrue(t) by { hide NoEcho; }
    assert NoEcho(t) by { hide SourcesTrue; }
  }

  lemma UpdateKeeps(s: System, t: System, l: nat, f: Fields)
    requires Orderly(s) && SameLog(s, t) && t.pulled == s.pulled && t.db == UpdateFields(s.db, l, f)
    ensures Orderly(t)
  {
    hide ChangedIds;
    assert TablesSound(t) by { hide SourcesTrue, NoEcho; }
    assert SourcesTrue(t) by { hide NoEcho; }
    assert NoEcho(t) by { hide SourcesTrue; }
  }

  lemma InsertKeeps(s: System, t: System, f: Fields, g: string)
    requires Orderly(s) && SameLog(s, t) && t.pulled == s.pulled + {s.db.newId}
    requires Sound(t.db) && g in ChangedIds(s.history, 0)
    requires t.db == SetLink(InsertEvent(s.db, Event(f, Google)), s.db.newId, g)
    ensures Orderly(t)
  {
    hide ChangedIds, OneToOne;
    assert TablesSound(t) by { hide SourcesTrue, NoEcho; }
    assert SourcesTrue(t) by { hide NoEcho; }
    assert NoEcho(t) by { hide SourcesTrue; }
  }

  /** The entry applied is one of the reported versions. */
  lemma AppliedItem(s: System, g: string)
    requires Orderly(s) && CanApply(s, g)
    ensures var item := Latest(s.history[..s.pass.snapshot], g).value;
            item.id == g && WellFormed(item) && g in ChangedIds(s.history, 0)
  {
    var h := s.history[..s.pass.snapshot];
    LatestIs(h, g);
    var item := Latest(h, g).value;
    hide Latest;
    var i :| 0 <= i < |h| && h[i] == item;
    assert s.history[i] == item;
  }

  lemma ApplyOrderly(s: System, g: string)
    requires Orderly(s) && CanApply(s, g)
    ensures Orderly(Applied(s, g))
  {
    AppliedItem(s, g);
    var item := Latest(s.history[..s.pass.snapshot], g).value;
    UpsertShape(s.db, item);
    UpsertSound(s.db, item);
    var t := Applied(s, g);
    assert t.db == Upsert(s.db, item) && SameLog(s, t);
    assert t.pulled == if t.db.newId > s.db.newId then s.pulled + {s.db.newId} else s.pulled;
    hide Upsert, Applied, Orderly, CanApply, Latest, ChangedIds, WellFormed;
    if t.db == s.db {
      assert t.db.(token := s.db.token) == s.db;
      SameTables(s, t);
    } else if l :| LinkedTo(s.db, l, g) && t.db == DeleteEvent(s.db, l) {
      DeleteKeeps(s, t, l);
    } else if l :| LinkedTo(s.db, l, g) && t.db == UpdateFields(s.db, l, FieldsOf(item)) {
      UpdateKeeps(s, t, l, FieldsOf(item));
    } else {
      InsertKeeps(s, t, FieldsOf(item), g);
    }
  }

  lemma HistoryGrows(h: History, item: Item)
    ensures forall g :: g in ChangedIds(h + [item], 0) <==> g in ChangedIds(h, 0) || g == item.id
  {
    forall g ensures g in ChangedIds(h + [item], 0) <==> g in ChangedIds(h, 0) || g == item.id {
      if g in ChangedIds(h, 0) {
        var i :| 0 <= i < |h| && h[i].id == g;
        assert (h + [item])[i].id == g;
      }
      assert (h + [item])[|h|].id == item.id;
    }
  }

  lemma PushOrderly(s: System, l: nat, g: string, recorded: bool)
    requires Orderly(s) && CanPush(s, l, g) && (recorded ==> l in s.db.events)
    ensures Orderly(Step(s, if recorded then PushEvent(l, g) else PushUnrecorded(l, g)))
  {
    var item := Posting(s.pass.rows[l], g);
    HistoryGrows(s.history, item);
    assert WellFormed(item);
    var t := Step(s, if recorded then PushEvent(l, g) else PushUnrecorded(l, g));
    assert t.history == s.history + [item];
    assert t.db == if recorded then SetLink(s.db, l, g) else s.db;
    assert t.posts == s.posts + [Post(l, recorded)] && t.pulled == s.pulled && t.orphans == s.orphans;
    assert t.pass == if recorded then s.pass.(rows := s.pass.rows - {l}) else Idle;
    assert g !in ChangedIds(s.history, 0) && RowsAreOpen(s, s.pass.rows) && l in s.pass.rows;
    hide ChangedIds, Step, CanPush, WellFormed;
    assert TablesSound(t) by { hide SourcesTrue, NoEcho; }
    assert SourcesTrue(t) by { hide NoEcho; }
    PostKeepsNoEcho(s, t, l, recorded);
  }

  lemma PostKeepsNoEcho(s: System, t: System, l: nat, recorded: bool)
    requires NoEcho(s) && s.pass.Pushing? && l in s.pass.rows
    requires t.posts == s.posts + [Post(l, recorded)] && t.pulled == s.pulled
    requires t.db.events == s.db.events && t.db.newId == s.db.newId
    requires t.db.links.Keys == if recorded then s.db.links.Keys + {l} else s.db.links.Keys
    requires t.pass == if recorded then s.pass.(rows := s.pass.rows - {l}) else Idle
    ensures NoEcho(t)
  {
  }

  /** The user's own changes to the tables. */
  lemma UserOrderly(s: System, a: Action)
    requires Orderly(s) && (a.CreateLocal? || a.EditLocal? || a.DeleteLocal?)
    ensures Orderly(Step(s, a))
  {
    var t := Step(s, a);
    match a
    case EditLocal(l, fields) => UpdateKeeps(s, t, l, fields);
    case DeleteLocal(l) => DeleteKeeps(s, t, l);
    case CreateLocal(fields) =>
      assert t.db == InsertEvent(s.db, Event(fields, Local)) && SameLog(s, t) && t.pulled == s.pulled;
      hide Step;
      CreateKeeps(s, t, fields);
  }

  lemma CreateKeeps(s: System, t: System, f: Fields)
    requires Orderly(s) && SameLog(s, t) && t.pulled == s.pulled && t.db == InsertEvent(s.db, Event(f, Local))
    ensures Orderly(t)
  {
    hide ChangedIds;
    assert TablesSound(t) by { hide SourcesTrue, NoEcho; }
    assert SourcesTrue(t) by { hide NoEcho; }
    assert NoEcho(t) by { hide SourcesTrue; }
  }

  lemma HalfOrderly(s: System, g: string)
    requires Orderly(s)
    ensures Orderly(Step(s, ApplyHalf(g)))
  {
    hide ChangedIds, Latest, FieldsOf;
    var t := Step(s, ApplyHalf(g));
    assert TablesSound(t) by { hide SourcesTrue, NoEcho; }
    assert SourcesTrue(t) by { hide NoEcho; }
    assert NoEcho(t) by { hide SourcesTrue; }
  }

  lemma RefusedOrderly(s: System, l: nat)
    requires Orderly(s)
    ensures Orderly(Step(s, PushRefused(l)))
  {
    var t := Step(s, PushRefused(l));
    assert t.db == s.db && t.posts == s.posts && t.pulled == s.pulled;
    assert s.pass.Pushing? && RowsAreOpen(s, s.pass.rows) ==> RowsAreOpen(t, t.pass.rows);
    hide ChangedIds;
  }

  lemma HistoryOrderly(s: System, item: Item)
    requires Orderly(s)
    ensures Orderly(Step(s, GoogleChanges(item)))
  {
    HistoryGrows(s.history, item);
    hide ChangedIds;
  }

  /** Passes come and go without touching events and links. */
  predicate OfPass(a: Action) {
    a.StartPass? || a.TokenGone? || a.AllApplied? || a.CommitToken? || a.Cut?
  }

  lemma PassOnly(s: System, a: Action)
    requires OfPass(a)
    ensures var t := Step(s, a);
            && t.db.(token := s.db.token) == s.db && t.history == s.history
            && t.orphans == s.orphans && t.pulled == s.pulled && t.posts == s.posts
            && (t.pass.Pushing? && t.pass != s.pass ==> t.pass.rows == Rows(s.db))
  {
  }

  /** The rows that a push query reads. */
  lemma RowsRead(s: System)
    requires Orderly(s)
    ensures RowsAreOpen(s, Rows(s.db))
  {
  }

  lemma SameTables(s: System, t: System)
    requires Orderly(s) && t.db.(token := s.db.token) == s.db && t.history == s.history
    requires t.orphans == s.orphans && t.pulled == s.pulled && t.posts == s.posts
    requires t.pass.Pushing? && t.pass != s.pass ==> RowsAreOpen(s, t.pass.rows)
    ensures Orderly(t)
  {
    hide ChangedIds;
  }

  lemma OrderlyStep(s: System, a: Action)
    requires Orderly(s)
    ensures Orderly(Step(s, a))
  {
    if OfPass(a) {
      hide *;
      PassOnly(s, a);
      RowsRead(s);
      SameTables(s, Step(s, a));
    } else {
      hide Orderly, Upsert, Latest, ChangedIds, CanPush, InsertEvent, UpdateFields, DeleteEvent, LinkedId, SetLink;
      match a
      case Apply(g) => if CanApply(s, g) { ApplyOrderly(s, g); }
      case PushEvent(l, g) => if CanPush(s, l, g) && l in s.db.events { PushOrderly(s, l, g, true); }
      case PushUnrecorded(l, g) => if CanPush(s, l, g) { PushOrderly(s, l, g, false); }
      case GoogleChanges(item) => HistoryOrderly(s, item);
      case ApplyHalf(g) => HalfOrderly(s, g);
      case PushRefused(l) => RefusedOrderly(s, l);
      case _ => UserOrderly(s, a);
    }
  }

  lemma {:induction false} OrderlyRun(s: System, actions: seq<Action>)
    requires Orderly(s)
    ensures Orderly(Run(s, actions))
    decreases |actions|
  {
    hide Orderly, Step;
    if actions != [] {
      OrderlyStep(s, actions[0]);
      OrderlyRun(Step(s, actions[0]), actions[1..]);
    }
  }

  // ---- convergence ---------------------------------------------------------

  /** The tables show Google's latest version of this id: one linked event with its fields, or none. */
  ghost predicate Mirrors(db: Db, h: History, g: string) {
    if Live(h, g) then
      exists l :: LinkedTo(db, l, g) && l in db.events && db.events[l].fields == FieldsOf(Latest(h, g).value)
    else !Linked(db, g)
  }

  /** Everything not excepted that has not changed since `k` is mirrored. */
  ghost predicate UpToDate(s: System, k: nat, except: set<string>) {
    k <= |s.history| && forall g :: g in except || ChangedSince(s.history, k, g) || Mirrors(s.db, s.history, g)
  }

  /** What each stage of a pass has achieved; the stored token never runs ahead of it. */
  ghost predicate TokenHonest(s: System) {
    && (s.db.token.Some? ==> UpToDate(s, s.db.token.value, s.excused))
    && (s.pass.Pulling? ==>
          && s.pass.snapshot <= |s.history| && s.pass.applied <= s.pass.reported
          && (s.db.token.Some? ==>
                s.db.token.value <= s.pass.snapshot
                && s.pass.reported == ChangedIds(s.history[..s.pass.snapshot], s.db.token.value))
          && (forall g | g in s.pass.applied ::
                g in s.excused || ChangedSince(s.history, s.pass.snapshot, g) || Mirrors(s.db, s.history, g)))
    && (s.pass.Pushing? && s.pass.next.Some? ==> UpToDate(s, s.pass.next.value, s.excused + s.pass.missed))
  }

  /** The tables say the same about this id. */
  ghost predicate SameFor(a: Db, b: Db, g: string) {
    && (forall l :: LinkedTo(a, l, g) <==> LinkedTo(b, l, g))
    && (forall l | LinkedTo(a, l, g) && l in a.events :: l in b.events && b.events[l].fields == a.events[l].fields)
  }

  lemma MirrorsSame(a: Db, b: Db, h: History, g: string)
    requires SameFor(a, b, g) && Mirrors(a, h, g)
    ensures Mirrors(b, h, g)
  {
    hide Latest;
    if Live(h, g) {
      var l :| LinkedTo(a, l, g) && l in a.events && a.events[l].fields == FieldsOf(Latest(h, g).value);
      assert LinkedTo(b, l, g);
    }
  }

  lemma LatestSnoc(h: History, item: Item, g: string)
    ensures Latest(h + [item], g) == if item.id == g then Some(item) else Latest(h, g)
  {
    assert (h + [item])[..|h|] == h;
  }

  /** A new version of another id changes nothing about this one. */
  lemma MirrorsLater(db: Db, h: History, item: Item, g: string)
    requires item.id != g && Mirrors(db, h, g)
    ensures Mirrors(db, h + [item], g)
  {
    LatestSnoc(h, item, g);
    hide Latest;
  }

  lemma ChangedLater(h: History, item: Item, k: nat, g: string)
    requires k <= |h|
    ensures ChangedSince(h, k, g) || item.id == g ==> ChangedSince(h + [item], k, g)
  {
    if ChangedSince(h, k, g) {
      var i :| k <= i < |h| && h[i].id == g;
      assert (h + [item])[i].id == g;
    } else {
      assert (h + [item])[|h|] == item;
    }
  }

  /** From one state to the next: perhaps one more version at Google, and the same tables but for `touched` and it. */
  ghost predicate Moves(s: System, t: System, touched: set<string>) {
    || (t.history == s.history && forall g | g !in touched :: SameFor(s.db, t.db, g))
    || (exists item ::
          t.history == s.history + [item] && forall g | g !in touched && g != item.id :: SameFor(s.db, t.db, g))
  }

  lemma KeepsMirror(s: System, t: System, touched: set<string>, k: nat, g: string)
    requires Moves(s, t, touched) && g !in touched && k <= |s.history|
    requires ChangedSince(s.history, k, g) || Mirrors(s.db, s.history, g)
    ensures ChangedSince(t.history, k, g) || Mirrors(t.db, t.history, g)
  {
    hide Mirrors, Latest, ChangedSince, SameFor;
    if t.history == s.history && SameFor(s.db, t.db, g) {
      if Mirrors(s.db, s.history, g) { MirrorsSame(s.db, t.db, s.history, g); }
    } else {
      var item :| t.history == s.history + [item] && forall g | g !in touched && g != item.id :: SameFor(s.db, t.db, g);
      ChangedLater(s.history, item, k, g);
      if item.id != g && Mirrors(s.db, s.history, g) {
        MirrorsSame(s.db, t.db, s.history, g);
        MirrorsLater(t.db, s.history, item, g);
      }
    }
  }

  lemma KeepsUpToDate(s: System, t: System, touched: set<string>, k: nat, before: set<string>, after: set<string>)
    requires UpToDate(s, k, before) && Moves(s, t, touched) && before + touched <= after
    ensures UpToDate(t, k, after)
  {
    hide Mirrors, ChangedSince, SameFor;
    assert |t.history| >= |s.history|;
    forall g ensures g in after || ChangedSince(t.history, k, g) || Mirrors(t.db, t.history, g) {
      if g !in after { KeepsMirror(s, t, touched, k, g); }
    }
  }

  /** A step outside the pass, or one that cuts it: what is touched becomes excused. */
  lemma HonestMove(s: System, t: System, touched: set<string>)
    requires TokenHonest(s) && Moves(s, t, touched) && t.db.token == s.db.token
    requires || t.pass == s.pass || t.pass.Idle?
             || (s.pass.Pushing? && t.pass.Pushing? && t.pass == s.pass.(rows := t.pass.rows))
    requires s.excused + touched <= t.excused
    ensures TokenHonest(t)
  {
    hide UpToDate, Mirrors, ChangedSince, SameFor;
    if s.db.token.Some? { KeepsUpToDate(s, t, touched, s.db.token.value, s.excused, t.excused); }
    if t.pass.Pulling? {
      assert t.history[..s.pass.snapshot] == s.history[..s.pass.snapshot];
      forall g | g in s.pass.applied
        ensures g in t.excused || ChangedSince(t.history, s.pass.snapshot, g) || Mirrors(t.db, t.history, g)
      {
        if g !in t.excused { KeepsMirror(s, t, touched, s.pass.snapshot, g); }
      }
    }
    if t.pass.Pushing? && s.pass.next.Some? {
      KeepsUpToDate(s, t, touched, s.pass.next.value, s.excused + s.pass.missed, t.excused + s.pass.missed);
    }
  }

  lemma UserHonest(s: System, a: Action)
    requires TokenHonest(s) && Orderly(s)
    requires a.GoogleChanges? || a.CreateLocal? || a.EditLocal? || a.DeleteLocal? || a.ApplyHalf? || a.PushRefused?
    ensures TokenHonest(Step(s, a))
  {
    hide TokenHonest, ChangedIds, Latest, SourcesTrue, NoEcho;
    var t := Step(s, a);
    var touched := if a.EditLocal? || a.DeleteLocal? then LinkedId(s.db, a.l) else {};
    assert Moves(s, t, touched);
    HonestMove(s, t, touched);
  }

  lemma PushHonest(s: System, l: nat, g: string, recorded: bool)
    requires TokenHonest(s) && Orderly(s) && CanPush(s, l, g) && (recorded ==> l in s.db.events)
    ensures TokenHonest(Step(s, if recorded then PushEvent(l, g) else PushUnrecorded(l, g)))
  {
    assert l !in s.db.links;
    hide TokenHonest, ChangedIds, Latest, SourcesTrue, NoEcho;
    var t := Step(s, if recorded then PushEvent(l, g) else PushUnrecorded(l, g));
    var item := Posting(s.pass.rows[l], g);
    assert t.history == s.history + [item] && forall x | x != g :: SameFor(s.db, t.db, x);
    assert Moves(s, t, {});
    HonestMove(s, t, {});
  }

  // ---- applying an item ----------------------------------------------------

  lemma {:induction false} LatestPrefix(h: History, n: nat, g: string)
    requires n <= |h| && !ChangedSince(h, n, g)
    ensures Latest(h, g) == Latest(h[..n], g)
  {
    if n == |h| {
      assert h[..n] == h;
    } else {
      var before := h[..|h| - 1];
      assert h[|h| - 1].id != g;
      assert forall i | n <= i < |before| :: before[i] == h[i];
      LatestPrefix(before, n, g);
      assert before[..n] == h[..n];
    }
  }

  lemma AppliedMirrors(s: System, g: string)
    requires Orderly(s) && CanApply(s, g)
    ensures ChangedSince(s.history, s.pass.snapshot, g) || Mirrors(Applied(s, g).db, s.history, g)
  {
    var item := Latest(s.history[..s.pass.snapshot], g).value;
    LatestIs(s.history[..s.pass.snapshot], g);
    var i :| 0 <= i < s.pass.snapshot && s.history[..s.pass.snapshot][i] == item;
    assert s.history[i] == item && WellFormed(item);
    UpsertReflects(s.db, item);
    if !ChangedSince(s.history, s.pass.snapshot, g) { LatestPrefix(s.history, s.pass.snapshot, g); }
    hide Upsert, Latest, ChangedSince;
  }

  lemma AppliedOthers(s: System, g: string, other: string)
    requires Orderly(s) && CanApply(s, g) && other != g
    ensures SameFor(s.db, Applied(s, g).db, other)
  {
    AppliedItem(s, g);
    var item := Latest(s.history[..s.pass.snapshot], g).value;
    UpsertShape(s.db, item);
    var after := Applied(s, g).db;
    assert after == Upsert(s.db, item);
    assert Sound(s.db);
    hide Upsert, Applied, Orderly, CanApply, Latest, ChangedIds, WellFormed, FieldsOf;
    ShapesKeepOthers(s.db, after, g, FieldsOf(item), other);
  }

  lemma ShapesKeepOthers(db: Db, after: Db, g: string, f: Fields, other: string)
    requires Sound(db) && other != g
    requires || after == db
             || (exists l :: LinkedTo(db, l, g) && after == DeleteEvent(db, l))
             || (exists l :: LinkedTo(db, l, g) && after == UpdateFields(db, l, f))
             || after == SetLink(InsertEvent(db, Event(f, Google)), db.newId, g)
    ensures SameFor(db, after, other)
  {
  }

  lemma ChangedEarlier(h: History, k: nat, n: nat, g: string)
    requires k <= n && ChangedSince(h, n, g)
    ensures ChangedSince(h, k, g)
  {
  }

  lemma ApplyHonest(s: System, g: string)
    requires TokenHonest(s) && Orderly(s) && CanApply(s, g)
    ensures TokenHonest(Applied(s, g))
  {
    var t := Applied(s, g);
    AppliedMirrors(s, g);
    forall x | x != g ensures SameFor(s.db, t.db, x) { AppliedOthers(s, g, x); }
    assert t.history == s.history && t.db.token == s.db.token && t.excused == s.excused - {g};
    assert t.pass == s.pass.(applied := s.pass.applied + {g});
    hide Applied, Mirrors, ChangedSince, SameFor, Orderly;
    var n := s.pass.snapshot;
    forall x | x != g && Mirrors(s.db, s.history, x) ensures Mirrors(t.db, s.history, x) {
      MirrorsSame(s.db, t.db, s.history, x);
    }
    if s.db.token.Some? {
      if ChangedSince(s.history, n, g) { ChangedEarlier(s.history, s.db.token.value, n, g); }
    }
  }

  // ---- ending a pull, committing the token ---------------------------------

  lemma AllAppliedByToken(s: System, k: nat, g: string)
    requires TokenHonest(s) && s.pass.Pulling? && s.db.token == Some(k) && s.pass.reported <= s.pass.applied
    ensures g in s.excused || ChangedSince(s.history, s.pass.snapshot, g) || Mirrors(s.db, s.history, g)
  {
    var n := s.pass.snapshot;
    hide Mirrors;
    if ChangedSince(s.history, k, g) && !ChangedSince(s.history, n, g) {
      var i :| k <= i < |s.history| && s.history[i].id == g;
      assert i < n && s.history[..n][i].id == g;
      assert g in ChangedIds(s.history[..n], k);
    }
  }

  lemma AllAppliedInFull(s: System, g: string)
    requires TokenHonest(s) && Orderly(s) && s.pass.Pulling? && s.db.token.None? && s.pass.reported <= s.pass.applied
    ensures || g in s.excused || g in Missed(s.db, s.history[..s.pass.snapshot], s.pass.reported)
            || ChangedSince(s.history, s.pass.snapshot, g) || Mirrors(s.db, s.history, g)
  {
    var n := s.pass.snapshot;
    var h := s.history[..n];
    if g !in s.pass.reported && !ChangedSince(s.history, n, g) {
      LatestPrefix(s.history, n, g);
      LatestIs(h, g);
      if Linked(s.db, g) {
        var l :| LinkedTo(s.db, l, g);
        assert g in ChangedIds(s.history, 0);
        var i :| 0 <= i < |s.history| && s.history[i].id == g;
        assert h[i].id == g;
      }
    }
    hide Latest;
  }

  lemma PassHonest(s: System, a: Action)
    requires TokenHonest(s) && Orderly(s) && OfPass(a)
    ensures TokenHonest(Step(s, a))
  {
    var t := Step(s, a);
    PassOnly(s, a);
    hide Orderly, TablesSound, SourcesTrue, NoEcho, Live, Latest;
    assert forall g :: SameFor(s.db, t.db, g);
    assert Moves(s, t, {});
    match a
    case StartPass(listed) =>
      hide Mirrors, ChangedSince, SameFor, ChangedIds;
      assert s.history[..|s.history|] == s.history;
    case TokenGone => hide Mirrors, ChangedSince, SameFor, ChangedIds;
    case Cut => hide Mirrors, ChangedSince, SameFor, ChangedIds;
    case AllApplied(returned) =>
      if t.pass != s.pass {
        forall g ensures g in t.excused + t.pass.missed || ChangedSince(s.history, s.pass.snapshot, g)
                         || Mirrors(s.db, s.history, g)
        {
          if s.db.token.Some? { AllAppliedByToken(s, s.db.token.value, g); } else { AllAppliedInFull(s, g); }
        }
      }
    case CommitToken =>
      if s.pass.Pushing? && s.pass.rows == map[] {
        hide Mirrors, ChangedSince, SameFor, ChangedIds;
        if s.pass.next.Some? {
          KeepsUpToDate(s, t, {}, s.pass.next.value, s.excused + s.pass.missed, t.excused);
        } else if s.db.token.Some? {
          KeepsUpToDate(s, t, {}, s.db.token.value, s.excused, t.excused);
        }
      }
  }

  lemma HonestStep(s: System, a: Action)
    requires TokenHonest(s) && Orderly(s)
    ensures TokenHonest(Step(s, a))
  {
    hide TokenHonest, Orderly, OfPass, CanPush, CanApply, Applied;
    if OfPass(a) {
      PassHonest(s, a);
    } else {
      match a
      case Apply(g) => if CanApply(s, g) { ApplyHonest(s, g); }
      case PushEvent(l, g) => if CanPush(s, l, g) && l in s.db.events { PushHonest(s, l, g, true); }
      case PushUnrecorded(l, g) => if CanPush(s, l, g) { PushHonest(s, l, g, false); }
      case _ => OtherHonest(s, a);
    }
  }

  lemma OtherHonest(s: System, a: Action)
    requires TokenHonest(s) && Orderly(s) && !OfPass(a) && !a.Apply? && !a.PushEvent? && !a.PushUnrecorded?
    ensures TokenHonest(Step(s, a))
  {
    hide TokenHonest, Orderly, Step;
    UserHonest(s, a);
  }

  lemma {:induction false} HonestRun(s: System, actions: seq<Action>)
    requires TokenHonest(s) && Orderly(s)
    ensures TokenHonest(Run(s, actions)) && Orderly(Run(s, actions))
    decreases |actions|
  {
    hide TokenHonest, Orderly, Step;
    if actions != [] {
      OrderlyStep(s, actions[0]);
      HonestStep(s, actions[0]);
      HonestRun(Step(s, actions[0]), actions[1..]);
    }
  }

  lemma StartHolds()
    ensures TokenHonest(START) && Orderly(START)
  {
  }

  // ---- what every run gives ------------------------------------------------

  /**
   * In every run the link table stays one-to-one, nothing pulled is ever posted, nothing is posted again once its
   * link was recorded, and every event from Google is linked unless a pass was cut between its two inserts.
   */
  lemma AlwaysOrderly(actions: seq<Action>)
    ensures var s := Run(START, actions); TablesSound(s) && SourcesTrue(s) && NoEcho(s)
  {
    StartHolds();
    HonestRun(START, actions);
    hide Run, TablesSound, SourcesTrue, NoEcho;
  }

  /** One linked local event with these fields, and no other one linked to the id. */
  ghost predicate OneEvent(db: Db, g: string, f: Fields) {
    exists l :: && LinkedTo(db, l, g) && l in db.events && db.events[l].fields == f
                && forall a :: LinkedTo(db, a, g) ==> a == l
  }

  /**
   * In every run, whenever a token is stored, every id that is not excused and has not changed at Google since that
   * token has exactly one local event with Google's latest fields if it is live, and none otherwise.
   */
  lemma Converges(actions: seq<Action>, g: string)
    ensures var s := Run(START, actions);
            s.db.token.Some? && g !in s.excused && !ChangedSince(s.history, s.db.token.value, g) ==>
              if Live(s.history, g) then OneEvent(s.db, g, FieldsOf(Latest(s.history, g).value)) else !Linked(s.db, g)
  {
    StartHolds();
    HonestRun(START, actions);
    var s := Run(START, actions);
    hide Run, Latest, ChangedSince, SourcesTrue, NoEcho, START, FieldsOf;
    if s.db.token.Some? && g !in s.excused && !ChangedSince(s.history, s.db.token.value, g) {
      assert Mirrors(s.db, s.history, g);
      if Live(s.history, g) {
        var l :| && LinkedTo(s.db, l, g) && l in s.db.events
                 && s.db.events[l].fields == FieldsOf(Latest(s.history, g).value);
        assert forall a :: LinkedTo(s.db, a, g) ==> a == l;
      }
    }
  }

  /** A pass that completes with a token stores the point where it started, so only later changes are outstanding. */
  lemma CompletedPass(s: System, listed: set<string>, during: seq<Action>)
    requires s.pass.Idle? && (forall i | 0 <= i < |during| :: !OfPass(during[i]) || during[i].AllApplied?)
    ensures var end := Run(Step(s, StartPass(listed)), during);
            end.pass.Pushing? && end.pass.next.Some? && end.pass.rows == map[] ==>
              Step(end, CommitToken).db.token == Some(|s.history|)
  {
    hide *;
    PassStarts(s, listed);
    SnapshotStays(Step(s, StartPass(listed)), |s.history|, during);
    TokenCommitted(Run(Step(s, StartPass(listed)), during));
  }

  lemma PassStarts(s: System, listed: set<string>)
    requires s.pass.Idle?
    ensures AtSnapshot(Step(s, StartPass(listed)).pass, |s.history|)
  {
  }

  lemma TokenCommitted(s: System)
    ensures s.pass.Pushing? && s.pass.next.Some? && s.pass.rows == map[] ==>
              Step(s, CommitToken).db.token == s.pass.next
  {
  }

  /** A pass, if it is still going, will commit this token or none. */
  predicate AtSnapshot(pass: Pass, n: nat) {
    match pass
    case Idle => true
    case Pulling(snapshot, _, _) => snapshot == n
    case Pushing(next, _, _) => next.Some? ==> next.value == n
  }

  lemma {:induction false} SnapshotStays(s: System, n: nat, during: seq<Action>)
    requires AtSnapshot(s.pass, n) && forall i | 0 <= i < |during| :: !OfPass(during[i]) || during[i].AllApplied?
    ensures var end := Run(s, during);
            AtSnapshot(end.pass, n) && (end.pass.Pushing? && end.pass.next.Some? ==> end.pass.next.value == n)
    decreases |during|
  {
    if during != [] {
      SnapshotStaysStep(s, n, during[0]);
      hide Step, AtSnapshot, OfPass;
      SnapshotStays(Step(s, during[0]), n, during[1..]);
    }
  }

  lemma SnapshotStaysStep(s: System, n: nat, a: Action)
    requires AtSnapshot(s.pass, n) && (!OfPass(a) || a.AllApplied?)
    ensures AtSnapshot(Step(s, a).pass, n)
  {
    hide Upsert, ChangedIds, Latest, Missed, Rows;
  }

  /** Only the user's changes to linked events, and the ids that a full listing misses, are ever excused. */
  lemma ExcusedOnlyBy(s: System, a: Action, g: string)
    requires g in Step(s, a).excused && g !in s.excused
    ensures || ((a.EditLocal? || a.DeleteLocal?) && LinkedTo(s.db, a.l, g))
            || (a.CommitToken? && s.pass.Pushing? && g in s.pass.missed)
  {
    hide Upsert, CanPush, CanApply, Missed, UpdateFields, DeleteEvent;
  }

  /** No 410, and no user change to an event that is linked at that moment. */
  ghost predicate Undisturbed(s: System, actions: seq<Action>)
    decreases |actions|
  {
    actions != [] ==>
      && !actions[0].TokenGone?
      && (actions[0].EditLocal? || actions[0].DeleteLocal? ==> actions[0].l !in s.db.links)
      && Undisturbed(Step(s, actions[0]), actions[1..])
  }

  /** Passes that have a token never miss anything. */
  ghost predicate NothingMissed(s: System) {
    s.db.token.Some? && s.excused == {} && (s.pass.Pushing? ==> s.pass.missed == {})
  }

  lemma NothingMissedStep(s: System, a: Action)
    requires NothingMissed(s) && Undisturbed(s, [a])
    ensures NothingMissed(Step(s, a))
  {
    assert [a][0] == a;
    UpsertToken(s.db);
    hide CanPush, CanApply, Missed, Upsert;
    var t := Step(s, a);
    assert forall g | g in t.excused :: g in s.excused;
    assert t.excused == {};
  }

  lemma UpsertToken(db: Db)
    ensures forall item :: Upsert(db, item).token == db.token
  {
  }

  lemma {:induction false} NothingMissedRun(s: System, actions: seq<Action>)
    requires NothingMissed(s) && Undisturbed(s, actions)
    ensures NothingMissed(Run(s, actions))
    decreases |actions|
  {
    if actions != [] {
      assert Undisturbed(s, [actions[0]]) by { assert [actions[0]][1..] == []; }
      hide NothingMissed, Step;
      NothingMissedStep(s, actions[0]);
      NothingMissedRun(Step(s, actions[0]), actions[1..]);
    }
  }

  /**
   * From any state with a token and nothing excused, any run of passes with that token, cut short or not, with pushes,
   * local creations and changes at Google in between, leaves every id that Google has not changed since the token
   * mirrored: nothing is ever excused.
   */
  lemma TokenPassesConverge(s: System, actions: seq<Action>, g: string)
    requires TokenHonest(s) && Orderly(s) && NothingMissed(s) && Undisturbed(s, actions)
    ensures var t := Run(s, actions);
            && t.db.token.Some? && t.excused == {}
            && (!ChangedSince(t.history, t.db.token.value, g) ==> Mirrors(t.db, t.history, g))
  {
    NothingMissedRun(s, actions);
    HonestRun(s, actions);
    hide Run, Undisturbed, Orderly, Mirrors, ChangedSince;
  }

  /**
   * A pushed event that Google reports back finds its original, and sets it to what was posted: that changes nothing
   * exactly if the user has not edited it since the push query read it.
   */
  lemma PushedComesBack(s: System, l: nat, g: string)
    requires Orderly(s) && CanPush(s, l, g) && l in s.db.events
    ensures var t := Step(s, PushEvent(l, g));
            var item := Latest(t.history, g).value;
            && Latest(t.history, g).Some? && FindLink(t.db, g) == Some(l)
            && item.id == g && !item.cancelled && item.summary == Some(s.pass.rows[l].title)
            && item.description == Some(s.pass.rows[l].description) && item.location == Some(s.pass.rows[l].location)
            && item.start == Some(s.pass.rows[l].start) && item.end == Some(s.pass.rows[l].end)
            && Upsert(t.db, item) == UpdateFields(t.db, l, s.pass.rows[l])
            && (Upsert(t.db, item) == t.db <==> s.db.events[l].fields == s.pass.rows[l])
  {
    var t := Step(s, PushEvent(l, g));
    var f := s.pass.rows[l];
    LatestSnoc(s.history, Posting(f, g), g);
    PushOrderly(s, l, g, true);
    FindLinkIs(t.db, l);
    assert FieldsOf(Posting(f, g)) == f;
    var after := UpdateFields(t.db, l, f);
    assert after == t.db ==> after.events[l] == t.db.events[l];
    assert t.db.events[l].fields == f ==> t.db.events[l := t.db.events[l].(fields := f)] == t.db.events;
  }

  // ---- what a push achieves ------------------------------------------------

  /** The push under way has this event still to post, or has posted it, or the event is gone. */
  predicate Accounted(s: System, l: nat) {
    && l < s.db.newId && !s.pass.Pulling?
    && (s.pass.Pushing? ==> l !in s.db.events || l in s.db.links || l in s.pass.rows)
  }

  lemma StaysAccounted(s: System, l: nat, a: Action)
    requires Accounted(s, l) && !a.PushRefused? && !a.StartPass?
    ensures Accounted(Step(s, a), l)
  {
    hide Upsert, Latest, ChangedIds, Missed, WellFormed;
  }

  lemma {:induction false} StaysAccountedRun(s: System, l: nat, actions: seq<Action>)
    requires Accounted(s, l)
    requires forall i | 0 <= i < |actions| :: !actions[i].PushRefused? && !actions[i].StartPass?
    ensures Accounted(Run(s, actions), l)
    decreases |actions|
  {
    if actions != [] {
      StaysAccounted(s, l, actions[0]);
      hide Accounted, Step;
      StaysAccountedRun(Step(s, actions[0]), l, actions[1..]);
    }
  }

  /**
   * From the moment of the push query on, whatever Google and the user do meanwhile: if none of the posts is refused,
   * the pass can only complete when each of the user's events that the query found, and that is still there, has a
   * link.
   */
  lemma CompletedPushLinks(s: System, query: Action, during: seq<Action>)
    requires Orderly(s) && !s.pass.Pushing? && Step(s, query).pass.Pushing?
    requires forall i | 0 <= i < |during| :: !during[i].PushRefused? && !during[i].StartPass?
    ensures var end := Run(Step(s, query), during);
            end.pass.Pushing? && Step(end, CommitToken).pass.Idle? ==>
              forall l | l in s.db.events && s.db.events[l].source == Local && l in end.db.events :: l in end.db.links
  {
    var end := Run(Step(s, query), during);
    hide *;
    forall l | l in s.db.events && s.db.events[l].source == Local
      ensures end.pass.Pushing? && Step(end, CommitToken).pass.Idle? && l in end.db.events ==> l in end.db.links
    {
      FoundByQuery(s, query, l);
      StaysAccountedRun(Step(s, query), l, during);
      DoneIfCommitted(end, l);
    }
  }

  lemma DoneIfCommitted(s: System, l: nat)
    requires Accounted(s, l)
    ensures s.pass.Pushing? && Step(s, CommitToken).pass.Idle? && l in s.db.events ==> l in s.db.links
  {
  }

  lemma OnlyPullsEnd(s: System, query: Action)
    requires !s.pass.Pushing? && Step(s, query).pass.Pushing?
    ensures OfPass(query) && Step(s, query).pass != s.pass
  {
    hide Missed, Upsert, Latest, ChangedIds, Rows;
  }

  lemma FoundByQuery(s: System, query: Action, l: nat)
    requires Orderly(s) && !s.pass.Pushing? && Step(s, query).pass.Pushing?
    requires l in s.db.events && s.db.events[l].source == Local
    ensures Accounted(Step(s, query), l)
  {
    OnlyPullsEnd(s, query);
    PassOnly(s, query);
    hide Step, OfPass, ChangedIds, SourcesTrue, NoEcho, OneToOne;
    assert l !in s.db.links ==> Unlinked(s.db, l) && l in Rows(s.db);
  }

  // ---- what a cut and an expired token cost --------------------------------

  /** An event that is here without its link. */
  ghost predicate Unclaimed(s: System, o: nat, f: Fields) {
    o in s.db.events && o in s.pulled && o !in s.db.links && s.db.events[o].fields == f
  }

  lemma StaysUnclaimed(s: System, o: nat, f: Fields, a: Action)
    requires Orderly(s) && Unclaimed(s, o, f) && !(a.EditLocal? && a.l == o) && !(a.DeleteLocal? && a.l == o)
    ensures Unclaimed(Step(s, a), o, f)
  {
    if a.Apply? && CanApply(s, a.g) {
      AppliedItem(s, a.g);
      UpsertShape(s.db, Latest(s.history[..s.pass.snapshot], a.g).value);
    }
    hide Upsert, Latest, ChangedIds, Missed, WellFormed;
  }

  lemma {:induction false} StaysUnclaimedRun(s: System, o: nat, f: Fields, actions: seq<Action>)
    requires Orderly(s) && Unclaimed(s, o, f)
    requires forall i | 0 <= i < |actions| ::
               !(actions[i].EditLocal? && actions[i].l == o) && !(actions[i].DeleteLocal? && actions[i].l == o)
    ensures Unclaimed(Run(s, actions), o, f)
    decreases |actions|
  {
    if actions != [] {
      StaysUnclaimed(s, o, f, actions[0]);
      OrderlyStep(s, actions[0]);
      hide Orderly, Unclaimed, Step;
      StaysUnclaimedRun(Step(s, actions[0]), o, f, actions[1..]);
    }
  }

  /**
   * A pass cut between the two inserts, in whatever state, leaves an event that no later pass finds: it stays as it is
   * until the user touches it, and what a later pass makes of the same entry is another event.
   */
  lemma CutLeavesCopy(s: System, g: string, actions: seq<Action>)
    requires Orderly(s) && CanApply(s, g) && !Linked(s.db, g)
    requires !Latest(s.history[..s.pass.snapshot], g).value.cancelled
    requires forall i | 0 <= i < |actions| ::
               !(actions[i].EditLocal? && actions[i].l == s.db.newId)
               && !(actions[i].DeleteLocal? && actions[i].l == s.db.newId)
    ensures var o, f := s.db.newId, FieldsOf(Latest(s.history[..s.pass.snapshot], g).value);
            var t := Run(Step(s, ApplyHalf(g)), actions);
            && Unclaimed(t, o, f) && o in t.orphans
            && (Live(t.history, g) && Mirrors(t.db, t.history, g) ==>
                  exists l :: LinkedTo(t.db, l, g) && l in t.db.events && l != o)
  {
    assert s.pass.Pulling? && s.pass.snapshot <= |s.history| && Latest(s.history[..s.pass.snapshot], g).Some?;
    hide *;
    var o, f := s.db.newId, FieldsOf(Latest(s.history[..s.pass.snapshot], g).value);
    var s1 := Step(s, ApplyHalf(g));
    HalfIsUnclaimed(s, g);
    OrderlyStep(s, ApplyHalf(g));
    StaysUnclaimedRun(s1, o, f, actions);
    OrderlyRun(s1, actions);
    UnclaimedIsOther(Run(s1, actions), o, f, g);
  }

  lemma HalfIsUnclaimed(s: System, g: string)
    requires Orderly(s) && CanApply(s, g) && !Linked(s.db, g)
    requires !Latest(s.history[..s.pass.snapshot], g).value.cancelled
    ensures Unclaimed(Step(s, ApplyHalf(g)), s.db.newId, FieldsOf(Latest(s.history[..s.pass.snapshot], g).value))
  {
    hide FieldsOf, Latest, ChangedIds;
  }

  lemma UnclaimedIsOther(t: System, o: nat, f: Fields, g: string)
    requires Orderly(t) && Unclaimed(t, o, f)
    ensures o in t.orphans
    ensures Live(t.history, g) && Mirrors(t.db, t.history, g) ==>
              exists l :: LinkedTo(t.db, l, g) && l in t.db.events && l != o
  {
    hide Latest, ChangedIds, FieldsOf;
  }

  /** A link to an event that is not live at Google, of which no listing under way or to come reports anything. */
  ghost predicate Stale(s: System, l: nat, g: string) {
    && LinkedTo(s.db, l, g) && !Live(s.history, g)
    && (s.db.token.Some? ==> !ChangedSince(s.history, s.db.token.value, g))
    && (s.pass.Pulling? ==> !ChangedSince(s.history, s.pass.snapshot, g) && g !in s.pass.reported)
    && (s.pass.Pushing? && s.pass.next.Some? ==> !ChangedSince(s.history, s.pass.next.value, g))
  }

  /** Google changes the event, or the user deletes the one linked to it. */
  predicate Settles(a: Action, l: nat, g: string) {
    (a.GoogleChanges? && a.item.id == g) || (a.DeleteLocal? && a.l == l)
  }

  lemma StaleLater(s: System, t: System, item: Item, l: nat, g: string)
    requires Stale(s, l, g) && item.id != g && t.history == s.history + [item]
    requires LinkedTo(t.db, l, g) && t.db.token == s.db.token && (t.pass == s.pass || t.pass.Idle? || t.pass.Pushing?)
    requires t.pass.Pushing? ==> s.pass.Pushing? && t.pass.next == s.pass.next
    ensures Stale(t, l, g)
  {
    LatestSnoc(s.history, item, g);
    hide Latest;
  }

  lemma PushStaysStale(s: System, l: nat, g: string, pushed: nat, id: string)
    requires Orderly(s) && Stale(s, l, g) && CanPush(s, pushed, id)
    ensures Stale(Step(s, PushEvent(pushed, id)), l, g) && Stale(Step(s, PushUnrecorded(pushed, id)), l, g)
  {
    OtherPushed(s, l, g, pushed, id);
    hide Orderly, ChangedIds;
    var item := Posting(s.pass.rows[pushed], id);
    var t, u := Step(s, PushEvent(pushed, id)), Step(s, PushUnrecorded(pushed, id));
    assert pushed in s.db.events ==> t.history == s.history + [item] && t.db == SetLink(s.db, pushed, id);
    assert LinkedTo(s.db, l, g);
    hide Stale;
    if pushed in s.db.events { StaleLater(s, t, item, l, g); }
    StaleLater(s, u, item, l, g);
  }

  lemma OtherPushed(s: System, l: nat, g: string, pushed: nat, id: string)
    requires Orderly(s) && LinkedTo(s.db, l, g) && CanPush(s, pushed, id)
    ensures pushed != l && id != g
  {
    assert g in ChangedIds(s.history, 0);
    hide ChangedIds, SourcesTrue;
  }

  lemma ApplyStaysStale(s: System, l: nat, g: string, x: string)
    requires Orderly(s) && Stale(s, l, g) && CanApply(s, x)
    ensures Stale(Applied(s, x), l, g)
  {
    AppliedOthers(s, x, g);
    UpsertToken(s.db);
    hide Upsert, Latest, ChangedSince;
  }

  lemma StaysStale(s: System, l: nat, g: string, a: Action)
    requires Orderly(s) && Stale(s, l, g) && !Settles(a, l, g)
    ensures Stale(Step(s, a), l, g)
  {
    hide Latest, Upsert, Missed, Rows, TablesSound, NoEcho, SourcesTrue;
    match a
    case GoogleChanges(item) => if WellFormed(item) { StaleLater(s, Step(s, a), item, l, g); }
    case Apply(x) => if CanApply(s, x) { ApplyStaysStale(s, l, g, x); }
    case PushEvent(pushed, id) => if CanPush(s, pushed, id) { PushStaysStale(s, l, g, pushed, id); }
    case PushUnrecorded(pushed, id) => if CanPush(s, pushed, id) { PushStaysStale(s, l, g, pushed, id); }
    case _ => hide Orderly, CanPush;
  }

  lemma {:induction false} StaysStaleRun(s: System, l: nat, g: string, actions: seq<Action>)
    requires Orderly(s) && Stale(s, l, g) && forall i | 0 <= i < |actions| :: !Settles(actions[i], l, g)
    ensures Stale(Run(s, actions), l, g) && Orderly(Run(s, actions))
    decreases |actions|
  {
    if actions != [] {
      StaysStale(s, l, g, actions[0]);
      OrderlyStep(s, actions[0]);
      hide Orderly, Stale, Step, Settles;
      StaysStaleRun(Step(s, actions[0]), l, g, actions[1..]);
    }
  }

  lemma GoneIsStale(s: System, l: nat, g: string)
    requires s.pass.Pulling? && LinkedTo(s.db, l, g) && !Live(s.history, g)
    ensures Stale(Step(s, TokenGone), l, g)
  {
  }

  /**
   * A token that expires loses cancellations for good: a linked event that is not live at Google at the 410 stays
   * linked and stays here through every later run, full listings and token passes included, until Google changes it
   * again or the user deletes it. Whenever a token is stored, it is one of the ids for which nothing is promised.
   */
  lemma ExpiredTokenMisses(s: System, l: nat, g: string, actions: seq<Action>)
    requires Orderly(s) && TokenHonest(s) && s.pass.Pulling? && LinkedTo(s.db, l, g) && !Live(s.history, g)
    requires forall i | 0 <= i < |actions| :: !Settles(actions[i], l, g)
    ensures var t := Run(Step(s, TokenGone), actions);
            && LinkedTo(t.db, l, g) && l in t.db.events && !Live(t.history, g)
            && (t.db.token.Some? ==> g in t.excused)
  {
    hide *;
    var s1 := Step(s, TokenGone);
    GoneIsStale(s, l, g);
    OrderlyStep(s, TokenGone);
    HonestStep(s, TokenGone);
    StaysStaleRun(s1, l, g, actions);
    HonestRun(s1, actions);
    StaleIs(Run(s1, actions), l, g);
  }

  lemma StaleIs(s: System, l: nat, g: string)
    requires Orderly(s) && TokenHonest(s) && Stale(s, l, g)
    ensures LinkedTo(s.db, l, g) && l in s.db.events && !Live(s.history, g)
    ensures s.db.token.Some? ==> g in s.excused
  {
    hide OneToOne, ChangedIds, SourcesTrue, NoEcho, Live, ChangedSince;
    assert Linked(s.db, g);
  }
}
