/** Inbox filters: crates/aivory-mail-core/src/filters.rs. */
module Filters {
  import opened Text

  datatype Json =
    | Null
    | Bool(b: bool)
    | Number(n: int)
    | String(s: string)
    | Array(items: seq<Json>)
    | Object(fields: map<string, Json>)

  datatype Rule = Rule(criteria: Json, action: Json, priority: int)

  datatype Mail = Mail(from: string, subject: string, body: string)

  datatype FilterAction = Move(folder: string) | Reject(reason: string) | Block | Forward(addr: string)

  // ---- one rule ------------------------------------------------------------

  /** `haystack.to_lowercase().contains(&needle.to_lowercase())` */
  predicate HasText(haystack: string, needle: string) {
    Find(Lower(haystack), Lower(needle)) >= 0
  }

  /** The part of the mail that a criterion looks at; "to" is an alias of "from". */
  function Haystack(key: string, m: Mail): Option<string> {
    if key == "from" || key == "to" then Some(m.from)
    else if key == "subject" then Some(m.subject)
    else if key == "body" then Some(m.body)
    else None
  }

  predicate CriterionHolds(key: string, needle: Json, m: Mail) {
    needle.String? && needle.s != "" && Trim(needle.s) != "*" && Haystack(key, m).Some?
    ==> HasText(Haystack(key, m).value, needle.s)
  }

  predicate Matches(criteria: Json, m: Mail) {
    && criteria.Object? && criteria.fields != map[]
    && forall key | key in criteria.fields :: CriterionHolds(key, criteria.fields[key], m)
  }

  /** Another criterion only narrows a rule that has some already. */
  lemma CriterionNarrows(fields: map<string, Json>, key: string, needle: Json, m: Mail)
    requires fields != map[] && key !in fields
    ensures Matches(Object(fields[key := needle]), m) <==> Matches(Object(fields), m) && CriterionHolds(key, needle, m)
  {
    var more := fields[key := needle];
    hide CriterionHolds;
    assert key in more;
    assert forall k | k in fields :: k in more && more[k] == fields[k];
  }

  /** The case of letters never matters. */
  lemma CaseIgnored(haystack: string, needle: string)
    ensures HasText(Lower(haystack), Lower(needle)) == HasText(haystack, needle)
  {
    assert forall s: string :: Lower(Lower(s)) == Lower(s) by {
      forall s: string ensures Lower(Lower(s)) == Lower(s) {
        assert forall i | 0 <= i < |s| :: LowerChar(LowerChar(s[i])) == LowerChar(s[i]);
      }
    }
    hide Find, Lower;
  }

  /** `action.get(key).and_then(as_str)` */
  function Str(j: Json, key: string): Option<string> {
    if j.Object? && key in j.fields && j.fields[key].String? then Some(j.fields[key].s) else None
  }

  /** `action.get(key).and_then(as_bool).unwrap_or(false)` */
  predicate Flag(j: Json, key: string) {
    j.Object? && key in j.fields && j.fields[key] == Bool(true)
  }

  /** `trim_start_matches` */
  function WithoutPrefixes(s: string, p: string): string
    requires p != ""
    decreases |s|
  {
    if p <= s then WithoutPrefixes(s[|p|..], p) else s
  }

  /** The folder that a matching rule sends mail to, legacy action strings included. */
  function FolderOf(action: Json): Option<string> {
    if Str(action, "move").Some? then Str(action, "move")
    else if Str(action, "folder").Some? then Str(action, "folder")
    else
      match Str(action, "action")
      case None => None
      case Some(f) =>
        if "move:" <= f then Some(WithoutPrefixes(f, "move:"))
        else if f == "reject" || f == "block" then Some("Spam")
        else None
  }

  function ActionOf(action: Json): Option<FilterAction> {
    if Flag(action, "reject") then
      Some(Reject(if Str(action, "reason").Some? then Str(action, "reason").value else "rejected by filter"))
    else if Flag(action, "block") then Some(Block)
    else if Str(action, "forward").Some? && Str(action, "forward").value != "" then
      Some(Forward(Str(action, "forward").value))
    else if Str(action, "move").Some? then Some(Move(Str(action, "move").value))
    else if Str(action, "folder").Some? then Some(Move(Str(action, "folder").value))
    else None
  }

  // ---- what rules read and do ----------------------------------------------

  /** The same letter, whatever its case. */
  predicate SameLetter(a: char, b: char) {
    a == b || ('A' <= a <= 'Z' && b as int == a as int + 32) || ('A' <= b <= 'Z' && a as int == b as int + 32)
  }

  /** `needle` stands somewhere in `text`, whatever the case. */
  predicate Mentions(text: string, needle: string) {
    exists k | 0 <= k <= |text| - |needle| :: MentionsAt(text, needle, k)
  }

  predicate MentionsAt(text: string, needle: string, k: nat)
    requires k <= |text| - |needle|
  {
    forall i | 0 <= i < |needle| :: SameLetter(text[k + i], needle[i])
  }

  lemma MentionsIs(text: string, needle: string)
    ensures HasText(text, needle) <==> Mentions(text, needle)
  {
    var t, n := Lower(text), Lower(needle);
    if HasText(text, needle) {
      var k := Find(t, n);
      hide Find;
      assert OccursAt(t, n, k);
      forall i | 0 <= i < |needle| ensures SameLetter(text[k + i], needle[i]) {
        assert t[k..k + |n|][i] == n[i] && t[k + i] == LowerChar(text[k + i]);
        LettersMeet(text[k + i], needle[i]);
      }
      assert MentionsAt(text, needle, k);
    }
    if Mentions(text, needle) {
      var k: nat :| k <= |text| - |needle| && MentionsAt(text, needle, k);
      forall i | 0 <= i < |n| ensures t[k..k + |n|][i] == n[i] {
        LettersMeet(text[k + i], needle[i]);
      }
      assert OccursAt(t, n, k);
    }
  }

  lemma LettersMeet(a: char, b: char)
    ensures LowerChar(a) == LowerChar(b) <==> SameLetter(a, b)
  {
  }

  /**
   * Which part of the mail each criterion reads: "from" and "to" the sender, "subject" and "body" themselves. Other
   * keys, values that are no strings, empty strings and a lone "*" ask nothing; no object, or an empty one, never
   * matches.
   */
  lemma CriteriaRead(criteria: Json, m: Mail)
    ensures Matches(criteria, m) <==>
              && criteria.Object? && criteria.fields != map[]
              && forall key | key in criteria.fields && criteria.fields[key].String? ::
                   var needle := criteria.fields[key].s;
                   needle != "" && Trim(needle) != "*" ==>
                     && (key == "from" || key == "to" ==> Mentions(m.from, needle))
                     && (key == "subject" ==> Mentions(m.subject, needle))
                     && (key == "body" ==> Mentions(m.body, needle))
  {
    if criteria.Object? {
      forall key | key in criteria.fields
        ensures CriterionHolds(key, criteria.fields[key], m) <==> Asks(key, criteria.fields[key], m)
      {
        CriterionIs(key, criteria.fields[key], m);
      }
    }
    hide CriterionHolds, Mentions, Trim;
  }

  predicate Asks(key: string, needle: Json, m: Mail) {
    needle.String? && needle.s != "" && Trim(needle.s) != "*" ==>
      && (key == "from" || key == "to" ==> Mentions(m.from, needle.s))
      && (key == "subject" ==> Mentions(m.subject, needle.s))
      && (key == "body" ==> Mentions(m.body, needle.s))
  }

  lemma CriterionIs(key: string, needle: Json, m: Mail)
    ensures CriterionHolds(key, needle, m) <==> Asks(key, needle, m)
  {
    hide HasText, Mentions, Trim;
    if needle.String? {
      MentionsIs(m.from, needle.s);
      MentionsIs(m.subject, needle.s);
      MentionsIs(m.body, needle.s);
    }
  }

  /** The field is a string. */
  predicate Says(action: Json, key: string, value: string) {
    action.Object? && key in action.fields && action.fields[key] == String(value)
  }

  ghost predicate SaysNothing(action: Json, key: string) {
    forall value :: !Says(action, key, value)
  }

  /** The folder of an action: "move", else "folder", else the legacy string. */
  lemma FolderIs(action: Json, f: string)
    ensures Says(action, "move", f) ==> FolderOf(action) == Some(f)
    ensures SaysNothing(action, "move") && Says(action, "folder", f) ==> FolderOf(action) == Some(f)
    ensures SaysNothing(action, "move") && SaysNothing(action, "folder") ==>
              && (Says(action, "action", "move:" + f) && !("move:" <= f) ==> FolderOf(action) == Some(f))
              && (Says(action, "action", "reject") || Says(action, "action", "block") ==>
                    FolderOf(action) == Some("Spam"))
              && (Says(action, "action", f) && !("move:" <= f) && f != "reject" && f != "block" ==>
                    FolderOf(action) == None)
              && (SaysNothing(action, "action") ==> FolderOf(action) == None)
  {
    StrIs(action, "move");
    StrIs(action, "folder");
    StrIs(action, "action");
    assert "move:" <= "move:" + f && ("move:" + f)[5..] == f;
    assert WithoutPrefixes("move:" + f, "move:") == WithoutPrefixes(f, "move:");
    assert "move:"[0] == 'm' && "reject"[0] == 'r' && "block"[0] == 'b';
    assert !("move:" <= "reject") && !("move:" <= "block");
    hide Str, Says;
  }

  lemma StrIs(action: Json, key: string)
    ensures Str(action, key).Some? ==> Says(action, key, Str(action, key).value)
    ensures forall v :: Says(action, key, v) ==> Str(action, key) == Some(v)
  {
  }

  predicate IsTrue(action: Json, key: string) {
    action.Object? && key in action.fields && action.fields[key] == Bool(true)
  }

  /** What an action does: a rejection first, then a block, a forward to someone, "move" and "folder". */
  lemma ActionIs(action: Json, f: string)
    ensures IsTrue(action, "reject") ==>
              && (Says(action, "reason", f) ==> ActionOf(action) == Some(Reject(f)))
              && (SaysNothing(action, "reason") ==> ActionOf(action) == Some(Reject("rejected by filter")))
    ensures !IsTrue(action, "reject") && IsTrue(action, "block") ==> ActionOf(action) == Some(Block)
    ensures !IsTrue(action, "reject") && !IsTrue(action, "block") ==>
              && (Says(action, "forward", f) && f != "" ==> ActionOf(action) == Some(Forward(f)))
              && (SaysNothing(action, "forward") || Says(action, "forward", "") ==>
                    && (Says(action, "move", f) ==> ActionOf(action) == Some(Move(f)))
                    && (SaysNothing(action, "move") && Says(action, "folder", f) ==> ActionOf(action) == Some(Move(f)))
                    && (SaysNothing(action, "move") && SaysNothing(action, "folder") ==> ActionOf(action) == None))
  {
    StrIs(action, "reason");
    StrIs(action, "forward");
    StrIs(action, "move");
    StrIs(action, "folder");
    assert forall key :: Flag(action, key) <==> IsTrue(action, key);
    hide Str, Says, Flag, IsTrue;
  }

  // ---- which rule decides --------------------------------------------------

  predicate Before(rules: seq<Rule>, i: nat, j: nat)
    requires i < |rules| && j < |rules|
  {
    rules[i].priority < rules[j].priority || (rules[i].priority == rules[j].priority && i <= j)
  }

  /** The decision of the matching, decisive rule with least (priority, position); None if no rule is decisive. */
  predicate Decides<T(==)>(rules: seq<Rule>, m: Mail, decide: Json -> Option<T>, result: Option<T>) {
    if result.None? then
      forall j | 0 <= j < |rules| && Matches(rules[j].criteria, m) :: decide(rules[j].action).None?
    else
      exists k | 0 <= k < |rules| ::
        && Matches(rules[k].criteria, m) && decide(rules[k].action) == result
        && forall j | 0 <= j < |rules| && Matches(rules[j].criteria, m) && decide(rules[j].action).Some? ::
             Before(rules, k, j)
  }

  /** `sort_by_key`, which is stable: the references of the vector as positions. */
  function Sorted(rules: seq<Rule>, n: nat): seq<nat>
    requires n <= |rules|
  {
    if n == 0 then [] else Insert(rules, Sorted(rules, n - 1), n - 1)
  }

  /** Behind everything with the same or a lower priority number. */
  function Insert(rules: seq<Rule>, order: seq<nat>, i: nat): seq<nat> {
    if order != [] && i < |rules| && order[|order| - 1] < |rules|
       && rules[order[|order| - 1]].priority > rules[i].priority
    then Insert(rules, order[..|order| - 1], i) + [order[|order| - 1]]
    else order + [i]
  }

  /** Positions below `n`, none twice, each before all that come later in (priority, position). */
  predicate Ascending(rules: seq<Rule>, order: seq<nat>, n: nat) {
    && n <= |rules|
    && (forall a | 0 <= a < |order| :: order[a] < n)
    && (forall a, b | 0 <= a < b < |order| :: order[a] != order[b] && Before(rules, order[a], order[b]))
  }

  /** All of them. */
  predicate InOrder(rules: seq<Rule>, order: seq<nat>, n: nat) {
    Ascending(rules, order, n) && forall i: nat | i < n :: i in order
  }

  lemma {:induction false} InsertKeepsOrder(rules: seq<Rule>, order: seq<nat>, i: nat)
    requires i < |rules| && Ascending(rules, order, i)
    ensures Ascending(rules, Insert(rules, order, i), i + 1)
    ensures forall j :: j in Insert(rules, order, i) <==> j in order || j == i
  {
    if order != [] && rules[order[|order| - 1]].priority > rules[i].priority {
      var last := order[|order| - 1];
      InsertKeepsOrder(rules, order[..|order| - 1], i);
      var rest := Insert(rules, order[..|order| - 1], i);
      assert forall a | 0 <= a < |rest| :: rest[a] in rest;
      assert forall a | 0 <= a < |order| - 1 :: order[..|order| - 1][a] == order[a];
      assert forall a | 0 <= a < |rest| :: rest[a] != last && Before(rules, rest[a], last);
      assert Insert(rules, order, i) == rest + [last];
      hide Insert, Before;
    } else {
      hide Insert;
      assert Insert(rules, order, i) == order + [i] by { InsertLast(rules, order, i); }
      assert forall a | 0 <= a < |order| :: Before(rules, order[a], i) by { LastIsGreatest(rules, order, i); }
      hide Before;
    }
  }

  lemma InsertLast(rules: seq<Rule>, order: seq<nat>, i: nat)
    requires i < |rules| && Ascending(rules, order, i)
    requires order == [] || rules[order[|order| - 1]].priority <= rules[i].priority
    ensures Insert(rules, order, i) == order + [i]
  {
  }

  lemma LastIsGreatest(rules: seq<Rule>, order: seq<nat>, i: nat)
    requires i < |rules| && Ascending(rules, order, i)
    requires order == [] || rules[order[|order| - 1]].priority <= rules[i].priority
    ensures forall a | 0 <= a < |order| :: Before(rules, order[a], i)
  {
  }

  lemma {:induction false} SortedIsInOrder(rules: seq<Rule>, n: nat)
    requires n <= |rules|
    ensures InOrder(rules, Sorted(rules, n), n)
  {
    if n > 0 {
      SortedIsInOrder(rules, n - 1);
      InsertKeepsOrder(rules, Sorted(rules, n - 1), n - 1);
    }
  }

  method ResolveFolder(rules: seq<Rule>, m: Mail) returns (folder: Option<string>)
    ensures Decides(rules, m, FolderOf, folder)
  {
    var sorted := Sorted(rules, |rules|);
    SortedIsInOrder(rules, |rules|);
    hide Matches, Str, WithoutPrefixes;
    var next := 0;
    while next < |sorted|
      invariant 0 <= next <= |sorted|
      invariant forall a | 0 <= a < next && Matches(rules[sorted[a]].criteria, m) ::
                  FolderOf(rules[sorted[a]].action).None?
    {
      var rule := rules[sorted[next]];
      if Matches(rule.criteria, m) {
        var move := Str(rule.action, "move");
        if move.Some? {
          folder := move;
          FirstDecides(rules, m, FolderOf, sorted, next);
          return;
        }
        var plain := Str(rule.action, "folder");
        if plain.Some? {
          folder := plain;
          FirstDecides(rules, m, FolderOf, sorted, next);
          return;
        }
        var legacy := Str(rule.action, "action");
        if legacy.Some? {
          if "move:" <= legacy.value {
            folder := Some(WithoutPrefixes(legacy.value, "move:"));
            FirstDecides(rules, m, FolderOf, sorted, next);
            return;
          }
          if legacy.value == "reject" || legacy.value == "block" {
            folder := Some("Spam");
            FirstDecides(rules, m, FolderOf, sorted, next);
            return;
          }
        }
      }
      next := next + 1;
    }
    folder := None;
    NoneDecides(rules, m, FolderOf, sorted);
  }

  method ResolveAction(rules: seq<Rule>, m: Mail) returns (action: Option<FilterAction>)
    ensures Decides(rules, m, ActionOf, action)
  {
    var sorted := Sorted(rules, |rules|);
    SortedIsInOrder(rules, |rules|);
    hide Matches, Str, Flag;
    var next := 0;
    while next < |sorted|
      invariant 0 <= next <= |sorted|
      invariant forall a | 0 <= a < next && Matches(rules[sorted[a]].criteria, m) ::
                  ActionOf(rules[sorted[a]].action).None?
    {
      var rule := rules[sorted[next]];
      if Matches(rule.criteria, m) {
        var act := rule.action;
        action := None;
        var forward, move, plain := Str(act, "forward"), Str(act, "move"), Str(act, "folder");
        if Flag(act, "reject") {
          var reason := Str(act, "reason");
          action := Some(Reject(if reason.Some? then reason.value else "rejected by filter"));
        } else if Flag(act, "block") {
          action := Some(Block);
        } else if forward.Some? && forward.value != "" {
          action := Some(Forward(forward.value));
        } else if move.Some? {
          action := Some(Move(move.value));
        } else if plain.Some? {
          action := Some(Move(plain.value));
        }
        if action.Some? {
          FirstDecides(rules, m, ActionOf, sorted, next);
          return;
        }
      }
      next := next + 1;
    }
    action := None;
    NoneDecides(rules, m, ActionOf, sorted);
  }

  /** The first decisive rule of the sorted vector is the least. */
  lemma FirstDecides<T>(rules: seq<Rule>, m: Mail, decide: Json -> Option<T>, order: seq<nat>, next: nat)
    requires InOrder(rules, order, |rules|) && next < |order|
    requires Matches(rules[order[next]].criteria, m) && decide(rules[order[next]].action).Some?
    requires forall a | 0 <= a < next && Matches(rules[order[a]].criteria, m) :: decide(rules[order[a]].action).None?
    ensures Decides(rules, m, decide, decide(rules[order[next]].action))
  {
    hide Matches;
    var k := order[next];
    forall j | 0 <= j < |rules| && Matches(rules[j].criteria, m) && decide(rules[j].action).Some?
      ensures Before(rules, k, j)
    {
      assert j in order;
      var b :| 0 <= b < |order| && order[b] == j;
    }
  }

  lemma NoneDecides<T>(rules: seq<Rule>, m: Mail, decide: Json -> Option<T>, order: seq<nat>)
    requires InOrder(rules, order, |rules|)
    requires forall a | 0 <= a < |order| && Matches(rules[order[a]].criteria, m) :: decide(rules[order[a]].action).None?
    ensures Decides(rules, m, decide, None)
  {
    hide Matches;
    forall j | 0 <= j < |rules| && Matches(rules[j].criteria, m) ensures decide(rules[j].action).None? {
      assert j in order;
      var b :| 0 <= b < |order| && order[b] == j;
    }
  }

  // ---- what the order of the rules matters for -----------------------------

  /** There is only one such decision. */
  lemma DecisionIsUnique<T>(rules: seq<Rule>, m: Mail, decide: Json -> Option<T>, one: Option<T>, other: Option<T>)
    requires Decides(rules, m, decide, one) && Decides(rules, m, decide, other)
    ensures one == other
  {
    hide Matches;
    if one.Some? && other.Some? {
      var k :| && 0 <= k < |rules| && Matches(rules[k].criteria, m) && decide(rules[k].action) == one
               && forall j | 0 <= j < |rules| && Matches(rules[j].criteria, m) && decide(rules[j].action).Some? ::
                    Before(rules, k, j);
      var l :| && 0 <= l < |rules| && Matches(rules[l].criteria, m) && decide(rules[l].action) == other
               && forall j | 0 <= j < |rules| && Matches(rules[j].criteria, m) && decide(rules[j].action).Some? ::
                    Before(rules, l, j);
      assert Before(rules, k, l) && Before(rules, l, k);
    }
  }

  /**
   * The rule that decides matches and is decisive, and every other such rule has a higher priority number, or the same
   * and a later place; if none decides, no matching rule is decisive.
   */
  lemma LowestDecides<T>(rules: seq<Rule>, m: Mail, decide: Json -> Option<T>, result: Option<T>)
    requires Decides(rules, m, decide, result)
    ensures result.None? ==>
              forall j | 0 <= j < |rules| && Matches(rules[j].criteria, m) :: decide(rules[j].action) == None
    ensures result.Some? ==>
              exists k | 0 <= k < |rules| ::
                && Matches(rules[k].criteria, m) && decide(rules[k].action) == result
                && forall j | 0 <= j < |rules| && j != k && Matches(rules[j].criteria, m)
                              && decide(rules[j].action).Some? ::
                     rules[k].priority < rules[j].priority || (rules[k].priority == rules[j].priority && k < j)
  {
    hide Matches;
  }

  /** `place` is a rearrangement that keeps rules of equal priority in their order. */
  predicate KeepsTies(rules: seq<Rule>, place: seq<nat>) {
    && |place| == |rules|
    && (forall i | 0 <= i < |place| :: place[i] < |rules|)
    && (forall k: nat | k < |rules| :: k in place)
    && (forall i, j | 0 <= i < j < |place| && rules[place[i]].priority == rules[place[j]].priority ::
          place[i] < place[j])
  }

  function Rearranged(rules: seq<Rule>, place: seq<nat>): (r: seq<Rule>)
    requires forall i | 0 <= i < |place| :: place[i] < |rules|
    ensures |r| == |place| && forall i | 0 <= i < |r| :: r[i] == rules[place[i]]
  {
    seq(|place|, i requires 0 <= i < |place| => rules[place[i]])
  }

  /** Rearranging the rules without swapping equal priorities changes no decision. */
  lemma TiesDecide<T>(rules: seq<Rule>, place: seq<nat>, m: Mail, decide: Json -> Option<T>, result: Option<T>)
    requires KeepsTies(rules, place) && Decides(rules, m, decide, result)
    ensures Decides(Rearranged(rules, place), m, decide, result)
  {
    hide Matches;
    var moved := Rearranged(rules, place);
    if result.Some? {
      var k :| && 0 <= k < |rules| && Matches(rules[k].criteria, m) && decide(rules[k].action) == result
               && forall j | 0 <= j < |rules| && Matches(rules[j].criteria, m) && decide(rules[j].action).Some? ::
                    Before(rules, k, j);
      assert k in place;
      var i :| 0 <= i < |place| && place[i] == k;
      forall j | 0 <= j < |moved| && Matches(moved[j].criteria, m) && decide(moved[j].action).Some?
        ensures Before(moved, i, j)
      {
        assert Before(rules, k, place[j]);
      }
      assert moved[i] == rules[k];
    }
  }

  // ---- the two resolvers ---------------------------------------------------

  /** Only "move" and "folder" in the action. */
  predicate OnlyMoves(action: Json) {
    action.Object? ==> forall key | key in action.fields :: key == "move" || key == "folder"
  }

  function AsMove(folder: Option<string>): Option<FilterAction> {
    if folder.Some? then Some(Move(folder.value)) else None
  }

  /**
   * Nothing that only one of the resolvers looks at: no rejection, block or forward, and no legacy string, unless a
   * folder hides it.
   */
  predicate ResolvedAlike(action: Json) {
    && !Flag(action, "reject") && !Flag(action, "block")
    && (Str(action, "forward").Some? ==> Str(action, "forward").value == "")
    && (Str(action, "move").None? && Str(action, "folder").None? && Str(action, "action").Some? ==>
          var f := Str(action, "action").value; !("move:" <= f) && f != "reject" && f != "block")
  }

  lemma SameDecisionIff(action: Json)
    ensures ActionOf(action) == AsMove(FolderOf(action)) <==> ResolvedAlike(action)
  {
    hide Str, Flag, WithoutPrefixes;
  }

  /** Actions that only move are among them. */
  lemma OnlyMovesAreAlike(action: Json)
    requires OnlyMoves(action)
    ensures ResolvedAlike(action)
  {
  }

  /** On such rules, those that only move among them, both resolvers say the same. */
  lemma ResolversAgree(rules: seq<Rule>, m: Mail, folder: Option<string>, action: Option<FilterAction>)
    requires forall i | 0 <= i < |rules| :: ResolvedAlike(rules[i].action)
    requires Decides(rules, m, FolderOf, folder) && Decides(rules, m, ActionOf, action)
    ensures action == AsMove(folder)
  {
    forall i | 0 <= i < |rules| ensures ActionOf(rules[i].action) == AsMove(FolderOf(rules[i].action)) {
      SameDecisionIff(rules[i].action);
    }
    hide Matches, FolderOf, ActionOf, ResolvedAlike;
    assert Decides(rules, m, ActionOf, AsMove(folder)) by {
      if folder.Some? {
        var k :| && 0 <= k < |rules| && Matches(rules[k].criteria, m) && FolderOf(rules[k].action) == folder
                 && forall j | 0 <= j < |rules| && Matches(rules[j].criteria, m) && FolderOf(rules[j].action).Some? ::
                      Before(rules, k, j);
      }
    }
    DecisionIsUnique(rules, m, ActionOf, action, AsMove(folder));
  }
}
