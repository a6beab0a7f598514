/** The key-sequence matcher ("g" then "i") of web/components/commandSearch.ts, lines 78-104. */
module KeySequences {
  import opened Text

  type Key = string

  datatype Press = Press(key: Key, now: int)

  datatype SeqState = SeqState(keys: seq<Key>, at: int)

  const EMPTY_SEQ := SeqState([], 0)

  /** Some sequence goes on after these keys. */
  predicate IsPrefix(keys: seq<Key>, sequences: seq<seq<Key>>) {
    exists i | 0 <= i < |sequences| :: keys < sequences[i]
  }

  /** `advanceSequence`: the new state, and the sequence that this key completes. */
  function AdvanceSequence(prev: SeqState, key: Key, now: int, sequences: seq<seq<Key>>, timeout: int)
    : (SeqState, Option<seq<Key>>)
  {
    var buffer := if now - prev.at > timeout then [] else prev.keys;
    var next := buffer + [key];
    if next in sequences then (EMPTY_SEQ, Some(next))
    else if IsPrefix(next, sequences) then (SeqState(next, now), None)
    else if IsPrefix([key], sequences) then (SeqState([key], now), None)
    else (EMPTY_SEQ, None)
  }

  /** The sequence `keys` fired on the press number `end` (counting from 1). */
  datatype Firing = Firing(end: nat, keys: seq<Key>)

  function Run(p: seq<Press>, sequences: seq<seq<Key>>, timeout: int): (SeqState, seq<Firing>) {
    if p == [] then (EMPTY_SEQ, [])
    else
      var n := |p|;
      var (state, fired) := Run(p[..n - 1], sequences, timeout);
      var (next, done) := AdvanceSequence(state, p[n - 1].key, p[n - 1].now, sequences, timeout);
      (next, if done.Some? then fired + [Firing(n, done.value)] else fired)
  }

  // ---- soundness -----------------------------------------------------------

  /** The presses from `start` up to `end` spell these keys, no two more than the timeout apart. */
  predicate Spells(p: seq<Press>, start: int, end: int, keys: seq<Key>, timeout: int) {
    && 0 <= start && end == start + |keys| && end <= |p|
    && (forall i | start <= i < end :: p[i].key == keys[i - start])
    && (forall i | start < i < end :: p[i].now - p[i - 1].now <= timeout)
  }

  /** The presses that earlier firings used up. */
  function Used(fired: seq<Firing>): nat {
    if fired == [] then 0 else fired[|fired| - 1].end
  }

  /** The buffer is the latest unused presses, and a proper prefix of a sequence. */
  predicate BufferIsLatest(p: seq<Press>, sequences: seq<seq<Key>>, timeout: int) {
    var (state, fired) := Run(p, sequences, timeout);
    state.keys != [] ==>
      && IsPrefix(state.keys, sequences)
      && Spells(p, |p| - |state.keys|, |p|, state.keys, timeout)
      && state.at == p[|p| - 1].now
      && Used(fired) <= |p| - |state.keys|
  }

  /** Every firing is spelled by presses that no earlier firing used. */
  predicate FiringsAreSpelled(p: seq<Press>, sequences: seq<seq<Key>>, timeout: int) {
    AllSpelled(p, Run(p, sequences, timeout).1, sequences, timeout)
  }

  lemma SpellsLonger(p: seq<Press>, last: Press, start: int, end: int, keys: seq<Key>, timeout: int)
    requires Spells(p, start, end, keys, timeout)
    ensures Spells(p + [last], start, end, keys, timeout)
  {
  }

  lemma SpellsOneMore(p: seq<Press>, last: Press, keys: seq<Key>, timeout: int)
    requires keys == [] || (Spells(p, |p| - |keys|, |p|, keys, timeout) && last.now - p[|p| - 1].now <= timeout)
    ensures Spells(p + [last], |p| - |keys|, |p| + 1, keys + [last.key], timeout)
  {
  }

  lemma {:induction false} UsedWithin(p: seq<Press>, sequences: seq<seq<Key>>, timeout: int)
    ensures Used(Run(p, sequences, timeout).1) <= |p|
  {
    if p != [] { UsedWithin(p[..|p| - 1], sequences, timeout); }
  }

  /** In every run: see the two predicates. */
  lemma {:induction false} Sound(p: seq<Press>, sequences: seq<seq<Key>>, timeout: int)
    ensures BufferIsLatest(p, sequences, timeout) && FiringsAreSpelled(p, sequences, timeout)
  {
    if p != [] {
      var n := |p| - 1;
      var before, last := p[..n], p[n];
      Sound(before, sequences, timeout);
      UsedWithin(before, sequences, timeout);
      assert p == before + [last];
      SoundStep(before, last, sequences, timeout);
    }
  }

  lemma RunSnoc(p: seq<Press>, last: Press, sequences: seq<seq<Key>>, timeout: int)
    ensures var (state, fired) := Run(p, sequences, timeout);
            var (next, done) := AdvanceSequence(state, last.key, last.now, sequences, timeout);
            Run(p + [last], sequences, timeout)
            == (next, if done.Some? then fired + [Firing(|p| + 1, done.value)] else fired)
  {
    assert (p + [last])[..|p|] == p;
    hide AdvanceSequence;
  }

  lemma SoundStep(p: seq<Press>, last: Press, sequences: seq<seq<Key>>, timeout: int)
    requires BufferIsLatest(p, sequences, timeout) && FiringsAreSpelled(p, sequences, timeout)
    requires Used(Run(p, sequences, timeout).1) <= |p|
    ensures BufferIsLatest(p + [last], sequences, timeout) && FiringsAreSpelled(p + [last], sequences, timeout)
  {
    hide Run, IsPrefix, AdvanceSequence, Spells, AllSpelled;
    RunSnoc(p, last, sequences, timeout);
    var (state, fired) := Run(p, sequences, timeout);
    AdvanceSpells(p, last, state, sequences, timeout);
    var (next, done) := AdvanceSequence(state, last.key, last.now, sequences, timeout);
    assert BufferIsLatest(p + [last], sequences, timeout);
    if done.Some? {
      FiringsGrow(p, last, fired, done.value, sequences, timeout);
    } else {
      FiringsStay(p, last, fired, sequences, timeout);
    }
  }

  /** What the new buffer, or the completed sequence, spells. */
  lemma AdvanceSpells(p: seq<Press>, last: Press, state: SeqState, sequences: seq<seq<Key>>, timeout: int)
    requires state.keys != [] ==> Spells(p, |p| - |state.keys|, |p|, state.keys, timeout) && state.at == p[|p| - 1].now
    ensures var (next, done) := AdvanceSequence(state, last.key, last.now, sequences, timeout);
            && (done.Some? ==>
                  && next == EMPTY_SEQ && done.value in sequences && |done.value| <= |state.keys| + 1
                  && Spells(p + [last], |p| + 1 - |done.value|, |p| + 1, done.value, timeout))
            && (next.keys != [] ==>
                  && next.at == last.now && IsPrefix(next.keys, sequences) && |next.keys| <= |state.keys| + 1
                  && Spells(p + [last], |p| + 1 - |next.keys|, |p| + 1, next.keys, timeout))
  {
    var buffer := if last.now - state.at > timeout then [] else state.keys;
    hide Spells, IsPrefix;
    SpellsOneMore(p, last, buffer, timeout);
    SpellsOneMore(p, last, [], timeout);
    assert [] + [last.key] == [last.key];
  }

  /** Firings so far, each spelled by presses that none before it used. */
  predicate AllSpelled(p: seq<Press>, fired: seq<Firing>, sequences: seq<seq<Key>>, timeout: int) {
    forall i | 0 <= i < |fired| ::
      && fired[i].keys in sequences
      && Spells(p, fired[i].end - |fired[i].keys|, fired[i].end, fired[i].keys, timeout)
      && Used(fired[..i]) <= fired[i].end - |fired[i].keys|
  }

  lemma FiringsStay(p: seq<Press>, last: Press, fired: seq<Firing>, sequences: seq<seq<Key>>, timeout: int)
    requires AllSpelled(p, fired, sequences, timeout)
    ensures AllSpelled(p + [last], fired, sequences, timeout)
  {
    hide Spells, Used;
    forall i | 0 <= i < |fired|
      ensures Spells(p + [last], fired[i].end - |fired[i].keys|, fired[i].end, fired[i].keys, timeout)
    {
      SpellsLonger(p, last, fired[i].end - |fired[i].keys|, fired[i].end, fired[i].keys, timeout);
    }
  }

  lemma FiringsGrow(p: seq<Press>, last: Press, fired: seq<Firing>, keys: seq<Key>,
                    sequences: seq<seq<Key>>, timeout: int)
    requires AllSpelled(p, fired, sequences, timeout) && keys in sequences
    requires Spells(p + [last], |p| + 1 - |keys|, |p| + 1, keys, timeout) && Used(fired) <= |p| + 1 - |keys|
    ensures AllSpelled(p + [last], fired + [Firing(|p| + 1, keys)], sequences, timeout)
  {
    hide *;
    FiringsStay(p, last, fired, sequences, timeout);
    OneMoreSpelled(p + [last], fired, Firing(|p| + 1, keys), sequences, timeout);
  }

  lemma OneMoreSpelled(p: seq<Press>, fired: seq<Firing>, f: Firing, sequences: seq<seq<Key>>, timeout: int)
    requires AllSpelled(p, fired, sequences, timeout) && f.keys in sequences
    requires Spells(p, f.end - |f.keys|, f.end, f.keys, timeout) && Used(fired) <= f.end - |f.keys|
    ensures AllSpelled(p, fired + [f], sequences, timeout)
  {
    hide Spells, Used;
    var fired1 := fired + [f];
    forall i | 0 <= i < |fired1|
      ensures && fired1[i].keys in sequences
              && Spells(p, fired1[i].end - |fired1[i].keys|, fired1[i].end, fired1[i].keys, timeout)
              && Used(fired1[..i]) <= fired1[i].end - |fired1[i].keys|
    {
      assert fired1[..i] == fired[..i];
      if i == |fired| { assert fired[..i] == fired; }
    }
  }

  // ---- completeness --------------------------------------------------------

  predicate AllOfLength(sequences: seq<seq<Key>>, n: nat) {
    forall i | 0 <= i < |sequences| :: |sequences[i]| == n
  }

  /** Some sequence starts with this key. */
  predicate Opens(key: Key, sequences: seq<seq<Key>>) {
    exists i | 0 <= i < |sequences| :: sequences[i] != [] && sequences[i][0] == key
  }

  /** Sequences of two keys: the buffer is the last press if that is unused and opens a sequence. */
  lemma {:induction false} PairBuffer(p: seq<Press>, sequences: seq<seq<Key>>, timeout: int)
    requires AllOfLength(sequences, 2) && p != []
    ensures var (state, fired) := Run(p, sequences, timeout);
            var last := p[|p| - 1];
            state == if Used(fired) < |p| && Opens(last.key, sequences) then SeqState([last.key], last.now)
                     else EMPTY_SEQ
  {
    var last := p[|p| - 1];
    var before := p[..|p| - 1];
    var state := Run(before, sequences, timeout).0;
    UsedWithin(before, sequences, timeout);
    if before != [] {
      PairBuffer(before, sequences, timeout);
    }
    PairStep(state, last, sequences, timeout);
  }

  lemma PairStep(state: SeqState, last: Press, sequences: seq<seq<Key>>, timeout: int)
    requires AllOfLength(sequences, 2) && |state.keys| <= 1
    ensures var (next, done) := AdvanceSequence(state, last.key, last.now, sequences, timeout);
            && (done.Some? <==>
                  |state.keys| == 1 && last.now - state.at <= timeout && [state.keys[0], last.key] in sequences)
            && (done.Some? ==> done.value == state.keys + [last.key])
            && next == if done.None? && Opens(last.key, sequences) then SeqState([last.key], last.now) else EMPTY_SEQ
  {
    PairPrefix(last.key, sequences);
    forall b: seq<Key> | |b| == 2 ensures !IsPrefix(b, sequences) {
    }
    hide IsPrefix, Opens;
    if |state.keys| == 1 {
      assert state.keys + [last.key] == [state.keys[0], last.key];
    }
    assert [] + [last.key] == [last.key];
    assert [last.key] !in sequences;
  }

  lemma PairPrefix(key: Key, sequences: seq<seq<Key>>)
    requires AllOfLength(sequences, 2)
    ensures IsPrefix([key], sequences) <==> Opens(key, sequences)
  {
    forall i | 0 <= i < |sequences| ensures [key] < sequences[i] <==> sequences[i][0] == key {
    }
  }

  /** The last two presses, neither used by an earlier firing, spell a sequence in time. */
  predicate FreshPair(p: seq<Press>, sequences: seq<seq<Key>>, timeout: int) {
    var n := |p|;
    && n >= 2 && [p[n - 2].key, p[n - 1].key] in sequences && p[n - 1].now - p[n - 2].now <= timeout
    && Used(Run(p[..n - 1], sequences, timeout).1) <= n - 2
  }

  /** With sequences of two keys, a press fires exactly when it completes such a pair. */
  lemma PairFiresIff(p: seq<Press>, sequences: seq<seq<Key>>, timeout: int)
    requires AllOfLength(sequences, 2) && p != []
    ensures var n := |p|;
            var before, after := Run(p[..n - 1], sequences, timeout).1, Run(p, sequences, timeout).1;
            after == if FreshPair(p, sequences, timeout) then before + [Firing(n, [p[n - 2].key, p[n - 1].key])]
                     else before
  {
    var n := |p|;
    var before, last := p[..n - 1], p[n - 1];
    assert p == before + [last];
    assert EMPTY_SEQ.keys == [];
    hide *;
    RunSnoc(before, last, sequences, timeout);
    var (state, fired) := Run(before, sequences, timeout);
    PairState(before, sequences, timeout);
    PairStep(state, last, sequences, timeout);
    if n >= 2 {
      assert before[n - 2] == p[n - 2] && [p[n - 2].key] + [last.key] == [p[n - 2].key, last.key];
      PairOpens(p[n - 2].key, last.key, sequences);
    }
    FreshPairIs(p, sequences, timeout);
  }

  lemma FreshPairIs(p: seq<Press>, sequences: seq<seq<Key>>, timeout: int)
    requires p != []
    ensures var n := |p|;
            FreshPair(p, sequences, timeout) <==>
              n >= 2 && [p[n - 2].key, p[n - 1].key] in sequences && p[n - 1].now - p[n - 2].now <= timeout
              && Used(Run(p[..n - 1], sequences, timeout).1) <= n - 2
  {
    hide Run, Used;
  }

  /** PairBuffer, for an empty run as well. */
  lemma PairState(p: seq<Press>, sequences: seq<seq<Key>>, timeout: int)
    requires AllOfLength(sequences, 2)
    ensures var (state, fired) := Run(p, sequences, timeout);
            state == if p != [] && Used(fired) <= |p| - 1 && Opens(p[|p| - 1].key, sequences)
                     then SeqState([p[|p| - 1].key], p[|p| - 1].now) else EMPTY_SEQ
  {
    if p != [] {
      hide *;
      PairBuffer(p, sequences, timeout);
    }
  }

  lemma PairOpens(a: Key, b: Key, sequences: seq<seq<Key>>)
    ensures [a, b] in sequences ==> Opens(a, sequences)
  {
  }

  /**
   * Sequences of two keys or more, none a proper prefix of another, whose first keys occur in none of them at a
   * later place.
   */
  predicate Apart(sequences: seq<seq<Key>>) {
    && (forall s | s in sequences :: |s| >= 2)
    && (forall s, t | s in sequences && t in sequences :: !(s < t))
    && (forall s, t, i | s in sequences && t in sequences && 1 <= i < |s| :: s[i] != t[0])
  }

  lemma PrefixOf(keys: seq<Key>, sequences: seq<seq<Key>>)
    ensures IsPrefix(keys, sequences) <==> exists s | s in sequences :: keys < s
  {
    if s :| s in sequences && keys < s {
      var i :| 0 <= i < |sequences| && sequences[i] == s;
    } else {
      forall i | 0 <= i < |sequences| ensures !(keys < sequences[i]) {
        assert sequences[i] in sequences;
      }
    }
  }

  /** A first key always starts over. */
  lemma FirstKeyStartsOver(state: SeqState, s: seq<Key>, now: int, sequences: seq<seq<Key>>, timeout: int)
    requires Apart(sequences) && s in sequences
    ensures AdvanceSequence(state, s[0], now, sequences, timeout) == (SeqState([s[0]], now), None)
  {
    var buffer := if now - state.at > timeout then [] else state.keys;
    var next := buffer + [s[0]];
    PrefixOf(next, sequences);
    PrefixOf([s[0]], sequences);
    hide IsPrefix;
    assert [s[0]] < s;
    if buffer != [] {
      forall t | t in sequences ensures !(next <= t) {
        assert forall i | 1 <= i < |t| :: t[i] != s[0];
        assert next[|buffer|] == s[0];
      }
    } else {
      assert next == [s[0]];
    }
  }

  lemma NextKeyExtends(state: SeqState, s: seq<Key>, k: nat, now: int, sequences: seq<seq<Key>>, timeout: int)
    requires Apart(sequences) && s in sequences && 1 <= k < |s| && state.keys == s[..k] && now - state.at <= timeout
    ensures AdvanceSequence(state, s[k], now, sequences, timeout)
            == if k + 1 == |s| then (EMPTY_SEQ, Some(s)) else (SeqState(s[..k + 1], now), None)
  {
    assert s[..k] + [s[k]] == s[..k + 1] && s[..|s|] == s;
    PrefixOf(s[..k + 1], sequences);
    hide IsPrefix;
    if k + 1 < |s| {
      assert s[..k + 1] < s;
      assert s[..k + 1] !in sequences;
    }
  }

  /** While a sequence is being typed, the buffer holds it. */
  lemma {:induction false} BufferFollows(p: seq<Press>, s: seq<Key>, k: nat, sequences: seq<seq<Key>>, timeout: int)
    requires Apart(sequences) && s in sequences && 1 <= k < |s| && Spells(p, |p| - k, |p|, s[..k], timeout)
    ensures Run(p, sequences, timeout).0 == SeqState(s[..k], p[|p| - 1].now)
  {
    var before, last := p[..|p| - 1], p[|p| - 1];
    assert last.key == s[..k][k - 1] == s[k - 1];
    if k > 1 { SpellsShorter(p, s, k, timeout); }
    hide *;
    assert p == before + [last];
    RunSnoc(before, last, sequences, timeout);
    var state := Run(before, sequences, timeout).0;
    if k == 1 {
      FirstKeyStartsOver(state, s, last.now, sequences, timeout);
      assert s[..1] == [s[0]];
    } else {
      BufferFollows(before, s, k - 1, sequences, timeout);
      NextKeyExtends(state, s, k - 1, last.now, sequences, timeout);
    }
  }

  lemma SpellsShorter(p: seq<Press>, s: seq<Key>, k: nat, timeout: int)
    requires 2 <= k <= |s| && Spells(p, |p| - k, |p|, s[..k], timeout)
    ensures var before := p[..|p| - 1];
            && Spells(before, |before| - (k - 1), |before|, s[..k - 1], timeout)
            && p[|p| - 1].now - before[|before| - 1].now <= timeout
  {
    var before := p[..|p| - 1];
    forall i | |p| - k <= i < |before| ensures before[i].key == s[..k - 1][i - (|p| - k)] {
      assert p[i].key == s[..k][i - (|p| - k)];
    }
  }

  lemma ApartIsLong(s: seq<Key>, sequences: seq<seq<Key>>)
    requires Apart(sequences) && s in sequences
    ensures |s| >= 2
  {
  }

  lemma LastSpelled(p: seq<Press>, s: seq<Key>, timeout: int)
    requires s != [] && Spells(p, |p| - |s|, |p|, s, timeout)
    ensures p != [] && p[|p| - 1].key == s[|s| - 1] && s[..|s|] == s
  {
  }

  /** With such sequences, every sequence that is spelled in time fires on its last key. */
  lemma SpelledFires(p: seq<Press>, s: seq<Key>, sequences: seq<seq<Key>>, timeout: int)
    requires Apart(sequences) && s in sequences && Spells(p, |p| - |s|, |p|, s, timeout)
    ensures Run(p, sequences, timeout).1 == Run(p[..|p| - 1], sequences, timeout).1 + [Firing(|p|, s)]
  {
    hide *;
    ApartIsLong(s, sequences);
    LastSpelled(p, s, timeout);
    SpellsShorter(p, s, |s|, timeout);
    var before, last := p[..|p| - 1], p[|p| - 1];
    BufferFollows(before, s, |s| - 1, sequences, timeout);
    assert p == before + [last];
    RunSnoc(before, last, sequences, timeout);
    NextKeyExtends(Run(before, sequences, timeout).0, s, |s| - 1, last.now, sequences, timeout);
  }

  // ---- when no sequence can be missed --------------------------------------

  /** The latest presses spell this sequence in time. */
  predicate EndsWithSequence(p: seq<Press>, s: seq<Key>, timeout: int) {
    Spells(p, |p| - |s|, |p|, s, timeout)
  }

  /** The last press fires this sequence. */
  predicate FiresLast(p: seq<Press>, s: seq<Key>, sequences: seq<seq<Key>>, timeout: int)
    requires p != []
  {
    Run(p, sequences, timeout).1 == Run(p[..|p| - 1], sequences, timeout).1 + [Firing(|p|, s)]
  }

  /**
   * In every run, every sequence spelled in time fires, also one that shares presses with a sequence that has fired: a
   * firing empties the buffer, so the pairs "g i" and "i s" fail this on "g i s", though `PairFiresIff` says that a
   * pair whose presses are unused is never missed.
   */
  ghost predicate NoneMissed(sequences: seq<seq<Key>>, timeout: int) {
    forall p, s | p != [] && s in sequences && EndsWithSequence(p, s, timeout) :: FiresLast(p, s, sequences, timeout)
  }

  /** The buffer after these keys, typed without a pause. */
  function Buffer(keys: seq<Key>, sequences: seq<seq<Key>>): seq<Key> {
    if keys == [] then []
    else
      var key := keys[|keys| - 1];
      var next := Buffer(keys[..|keys| - 1], sequences) + [key];
      if next in sequences then []
      else if IsPrefix(next, sequences) then next
      else if IsPrefix([key], sequences) then [key]
      else []
  }

  /** These keys, each as long after the one before as the timeout allows. */
  function Typing(keys: seq<Key>, timeout: int): seq<Press> {
    seq(|keys|, i requires 0 <= i < |keys| => Press(keys[i], i * timeout))
  }

  lemma Paces(i: int, timeout: int)
    ensures (i + 1) * timeout - i * timeout == timeout
  {
  }

  lemma TypingSnoc(keys: seq<Key>, key: Key, timeout: int)
    ensures Typing(keys + [key], timeout) == Typing(keys, timeout) + [Press(key, |keys| * timeout)]
    ensures keys != [] ==> |keys| * timeout - Typing(keys, timeout)[|keys| - 1].now == timeout
  {
    Paces(|keys| - 1, timeout);
  }

  lemma TypingEnds(before: seq<Key>, s: seq<Key>, timeout: int)
    ensures EndsWithSequence(Typing(before + s, timeout), s, timeout)
  {
    var p := Typing(before + s, timeout);
    forall i | |before| < i < |p| ensures p[i].now - p[i - 1].now <= timeout {
      Paces(i - 1, timeout);
    }
  }

  /** One more key of a typing: nothing has timed out. */
  lemma TypedKey(keys: seq<Key>, key: Key, sequences: seq<seq<Key>>, timeout: int)
    ensures var (state, fired) := Run(Typing(keys, timeout), sequences, timeout);
            var (last, all) := Run(Typing(keys + [key], timeout), sequences, timeout);
            var next := state.keys + [key];
            && all == (if next in sequences then fired + [Firing(|keys| + 1, next)] else fired)
            && last.keys == (if next in sequences then []
                             else if IsPrefix(next, sequences) then next
                             else if IsPrefix([key], sequences) then [key]
                             else [])
  {
    var p := Typing(keys, timeout);
    TypingSnoc(keys, key, timeout);
    RunSnoc(p, Press(key, |keys| * timeout), sequences, timeout);
    Sound(p, sequences, timeout);
    var state := Run(p, sequences, timeout).0;
    assert |p| == |keys|;
    assert keys == [] ==> state.keys == [];
    assert state.keys != [] ==> |keys| * timeout - state.at == timeout;
    assert [] + [key] == [key];
    hide Run, IsPrefix, Typing;
  }

  lemma {:induction false} TypedBuffer(keys: seq<Key>, sequences: seq<seq<Key>>, timeout: int)
    ensures Run(Typing(keys, timeout), sequences, timeout).0.keys == Buffer(keys, sequences)
  {
    if keys == [] {
      assert Typing(keys, timeout) == [];
    } else {
      var before, key := keys[..|keys| - 1], keys[|keys| - 1];
      assert keys == before + [key];
      TypedBuffer(before, sequences, timeout);
      TypedKey(before, key, sequences, timeout);
      hide Run, Typing, IsPrefix;
    }
  }

  /** A sequence that always fires is in the buffer, but for its last key, whatever was typed before it. */
  lemma AlwaysInBuffer(before: seq<Key>, s: seq<Key>, sequences: seq<seq<Key>>, timeout: int)
    requires NoneMissed(sequences, timeout) && s in sequences && s != []
    ensures Buffer(before + s[..|s| - 1], sequences) == s[..|s| - 1]
  {
    var typed, key := before + s[..|s| - 1], s[|s| - 1];
    assert typed + [key] == before + s;
    var p := Typing(before + s, timeout);
    TypingEnds(before, s, timeout);
    TypingSnoc(typed, key, timeout);
    assert |p| == |before + s| && FiresLast(p, s, sequences, timeout);
    assert p[..|p| - 1] == Typing(typed, timeout);
    hide *;
    TypedKey(typed, key, sequences, timeout);
    TypedBuffer(typed, sequences, timeout);
    FiredIs(p, typed, key, s, sequences, timeout);
  }

  lemma FiredIs(p: seq<Press>, typed: seq<Key>, key: Key, s: seq<Key>, sequences: seq<seq<Key>>, timeout: int)
    requires p == Typing(typed + [key], timeout) && |p| == |typed| + 1 && p[..|p| - 1] == Typing(typed, timeout)
    requires FiresLast(p, s, sequences, timeout) && s != []
    requires var (state, fired) := Run(Typing(typed, timeout), sequences, timeout);
             var next := state.keys + [key];
             && Run(p, sequences, timeout).1
                == (if next in sequences then fired + [Firing(|typed| + 1, next)] else fired)
             && state.keys == Buffer(typed, sequences)
    ensures Buffer(typed, sequences) == s[..|s| - 1]
  {
    hide Run, Buffer, Typing;
    var (state, fired) := Run(Typing(typed, timeout), sequences, timeout);
    var next := state.keys + [key];
    assert Run(p, sequences, timeout).1 == fired + [Firing(|p|, s)];
    assert (fired + [Firing(|p|, s)])[|fired|] == Firing(|p|, s);
    assert next in sequences && (fired + [Firing(|typed| + 1, next)])[|fired|] == Firing(|typed| + 1, next);
    assert s == next;
  }

  /** A buffer grows by one key or starts over, so what it holds it has held all along. */
  lemma {:induction false} HeldBefore(before: seq<Key>, u: seq<Key>, k: nat, sequences: seq<seq<Key>>)
    requires 1 <= k <= |u| && Buffer(before + u, sequences) == u
    ensures Buffer(before + u[..k], sequences) == u[..k]
    decreases |u|
  {
    if k == |u| {
      assert u[..k] == u;
    } else {
      var shorter, key := u[..|u| - 1], u[|u| - 1];
      assert (before + u)[..|before + u| - 1] == before + shorter;
      assert Buffer(before + u, sequences) == Buffer(before + shorter, sequences) + [key];
      hide Buffer;
      assert Buffer(before + shorter, sequences) == shorter;
      HeldBefore(before, shorter, k, sequences);
      assert shorter[..k] == u[..k];
    }
  }

  /** What has just fired is not in the buffer. */
  lemma FiredBufferIsEmpty(s: seq<Key>, sequences: seq<seq<Key>>)
    requires s in sequences && s != [] && Buffer(s[..|s| - 1], sequences) == s[..|s| - 1]
    ensures Buffer(s, sequences) == []
  {
    hide *;
    var typed, key := s[..|s| - 1], s[|s| - 1];
    assert typed + [key] == s;
    BufferStep(typed, key, sequences);
  }

  lemma BufferStep(typed: seq<Key>, key: Key, sequences: seq<seq<Key>>)
    ensures Buffer(typed, sequences) + [key] in sequences ==> Buffer(typed + [key], sequences) == []
  {
    assert (typed + [key])[..|typed|] == typed;
    hide IsPrefix;
  }

  /** The empty sequence never fires. */
  lemma EmptyIsMissed(sequences: seq<seq<Key>>, timeout: int)
    requires NoneMissed(sequences, timeout)
    ensures [] !in sequences
  {
    var p := [Press("", 0)];
    RunSnoc([], p[0], sequences, timeout);
    assert [] + [p[0]] == p && p[..0] == [];
    assert EndsWithSequence(p, [], timeout);
    var fired := Run(p, sequences, timeout).1;
    assert fired != [] ==> fired[0].keys == [p[0].key];
    assert !FiresLast(p, [], sequences, timeout) by {
      assert Run([], sequences, timeout).1 + [Firing(1, [])] == [Firing(1, [])];
    }
  }

  lemma StartInBuffer(before: seq<Key>, t: seq<Key>, sequences: seq<seq<Key>>, timeout: int)
    requires NoneMissed(sequences, timeout) && t in sequences && |t| >= 2
    ensures Buffer(before + [t[0]], sequences) == [t[0]]
  {
    hide *;
    AlwaysInBuffer(before, t, sequences, timeout);
    HeldBefore(before, t[..|t| - 1], 1, sequences);
    assert t[..|t| - 1][..1] == [t[0]];
  }

  /** A single key is missed behind the first key of a longer sequence. */
  lemma SingleIsMissed(s: seq<Key>, t: seq<Key>, sequences: seq<seq<Key>>, timeout: int)
    requires NoneMissed(sequences, timeout) && s in sequences && t in sequences && |s| == 1
    ensures |t| <= 1
  {
    hide *;
    if |t| > 1 {
      assert [t[0]] + s[..|s| - 1] == [] + [t[0]];
      StartInBuffer([], t, sequences, timeout);
      AlwaysInBuffer([t[0]], s, sequences, timeout);
    }
  }

  lemma InnerInBuffer(s: seq<Key>, k: nat, sequences: seq<seq<Key>>, timeout: int)
    requires NoneMissed(sequences, timeout) && s in sequences && 1 <= k <= |s|
    ensures Buffer(s[..k], sequences) == if k == |s| then [] else s[..k]
  {
    hide *;
    AlwaysInBuffer([], s, sequences, timeout);
    NothingBefore(s, k);
    if k == |s| {
      FiredBufferIsEmpty(s, sequences);
    } else {
      HeldBefore([], s[..|s| - 1], k, sequences);
    }
  }

  lemma NothingBefore(s: seq<Key>, k: nat)
    requires 1 <= k <= |s|
    ensures [] + s[..|s| - 1] == s[..|s| - 1] && [] + s[..k] == s[..k] && s[..|s|] == s
    ensures k < |s| ==> s[..|s| - 1][..k] == s[..k]
  {
  }

  /** A proper prefix fires first and uses its keys up. */
  lemma PrefixIsMissed(s: seq<Key>, t: seq<Key>, sequences: seq<seq<Key>>, timeout: int)
    requires NoneMissed(sequences, timeout) && s in sequences && t in sequences && s != []
    ensures !(s < t)
  {
    hide *;
    if s < t {
      assert t[..|s|] == s && s[..|s|] == s;
      InnerInBuffer(t, |s|, sequences, timeout);
      InnerInBuffer(s, |s|, sequences, timeout);
    }
  }

  /** A first key inside another sequence is taken for the rest of that one. */
  lemma InnerStartIsMissed(s: seq<Key>, t: seq<Key>, i: nat, sequences: seq<seq<Key>>, timeout: int)
    requires NoneMissed(sequences, timeout) && s in sequences && t in sequences && 1 <= i < |s| && |t| >= 2
    ensures s[i] != t[0]
  {
    hide *;
    StartInBuffer(s[..i], t, sequences, timeout);
    InnerInBuffer(s, i + 1, sequences, timeout);
    assert s[..i] + [s[i]] == s[..i + 1];
  }

  /** Sequences of one key are never in the buffer and always fire. */
  lemma SinglesFire(p: seq<Press>, s: seq<Key>, sequences: seq<seq<Key>>, timeout: int)
    requires AllOfLength(sequences, 1) && s in sequences && EndsWithSequence(p, s, timeout)
    ensures p != [] && FiresLast(p, s, sequences, timeout)
  {
    var before, last := p[..|p| - 1], p[|p| - 1];
    assert p == before + [last] && s == [last.key];
    RunSnoc(before, last, sequences, timeout);
    NoBuffer(before, sequences, timeout);
    hide Run;
    assert [] + [last.key] == s;
  }

  lemma {:induction false} NoBuffer(p: seq<Press>, sequences: seq<seq<Key>>, timeout: int)
    requires AllOfLength(sequences, 1)
    ensures Run(p, sequences, timeout).0.keys == []
  {
    if p != [] {
      var before, last := p[..|p| - 1], p[|p| - 1];
      assert p == before + [last];
      NoBuffer(before, sequences, timeout);
      RunSnoc(before, last, sequences, timeout);
      hide Run;
      assert !IsPrefix([last.key], sequences);
      assert [] + [last.key] == [last.key];
    }
  }

  /**
   * No run misses a sequence spelled in time if and only if all sequences have one key, or all have more, none is a
   * proper prefix of another, and first keys occur nowhere later.
   */
  lemma NoneMissedIff(sequences: seq<seq<Key>>, timeout: int)
    ensures NoneMissed(sequences, timeout) <==> AllOfLength(sequences, 1) || Apart(sequences)
  {
    if NoneMissed(sequences, timeout) {
      MissedUnless(sequences, timeout);
    }
    if AllOfLength(sequences, 1) || Apart(sequences) {
      forall p, s | p != [] && s in sequences && EndsWithSequence(p, s, timeout)
        ensures FiresLast(p, s, sequences, timeout)
      {
        if Apart(sequences) { SpelledFires(p, s, sequences, timeout); } else { SinglesFire(p, s, sequences, timeout); }
      }
    }
  }

  lemma MissedUnless(sequences: seq<seq<Key>>, timeout: int)
    requires NoneMissed(sequences, timeout)
    ensures AllOfLength(sequences, 1) || Apart(sequences)
  {
    EmptyIsMissed(sequences, timeout);
    hide NoneMissed;
    if i :| 0 <= i < |sequences| && |sequences[i]| != 1 {
      var long := sequences[i];
      forall s | s in sequences ensures |s| >= 2 {
        if |s| == 1 { SingleIsMissed(s, long, sequences, timeout); }
      }
      forall s, t | s in sequences && t in sequences ensures !(s < t) {
        PrefixIsMissed(s, t, sequences, timeout);
      }
      forall s, t, i | s in sequences && t in sequences && 1 <= i < |s| ensures s[i] != t[0] {
        InnerStartIsMissed(s, t, i, sequences, timeout);
      }
    }
  }

  lemma OnlyPrefixes(keys: seq<Key>, s: seq<Key>)
    ensures IsPrefix(keys, [s]) <==> keys < s
  {
    if keys < s { assert [s][0] == s; }
  }

  /** An instance: "x x y" is not apart from itself, and is missed after an "x". */
  lemma OverlapIsMissed(x: Key, y: Key, timeout: int)
    requires timeout >= 0 && x != y
    ensures var p := [Press(x, 0), Press(x, 0), Press(x, 0), Press(y, 0)];
            && Spells(p, 1, 4, [x, x, y], timeout)
            && Run(p, [[x, x, y]], timeout) == (EMPTY_SEQ, [])
            && !NoneMissed([[x, x, y]], timeout)
  {
    NotApart(x, y);
    NoneMissedIff([[x, x, y]], timeout);
    hide NoneMissed, Apart, AllOfLength;
    var s, a, b := [x, x, y], Press(x, 0), Press(y, 0);
    assert Run([], [s], timeout) == (EMPTY_SEQ, []);
    OverlapRuns(a, b, [s], timeout);
    assert Spells([a, a, a, b], 1, 4, s, timeout);
  }

  lemma NotApart(x: Key, y: Key)
    ensures !Apart([[x, x, y]]) && !AllOfLength([[x, x, y]], 1)
  {
    var s := [x, x, y];
    assert [s][0] == s && s in [s] && s[1] == s[0];
  }

  lemma OverlapRuns(a: Press, b: Press, sequences: seq<seq<Key>>, timeout: int)
    requires a.now == b.now == 0 && timeout >= 0 && a.key != b.key && sequences == [[a.key, a.key, b.key]]
    requires Run([], sequences, timeout) == (EMPTY_SEQ, [])
    ensures Run([a, a, a, b], sequences, timeout) == (EMPTY_SEQ, [])
  {
    hide *;
    assert [] + [a] == [a] && [a] + [a] == [a, a] && [a, a] + [a] == [a, a, a] && [a, a, a] + [b] == [a, a, a, b];
    OverlapSteps(a.key, b.key, timeout);
    RunSnoc([], a, sequences, timeout);
    RunSnoc([a], a, sequences, timeout);
    RunSnoc([a, a], a, sequences, timeout);
    RunSnoc([a, a, a], b, sequences, timeout);
  }

  lemma OverlapSteps(x: Key, y: Key, timeout: int)
    requires timeout >= 0 && x != y
    ensures var s := [x, x, y];
            && AdvanceSequence(EMPTY_SEQ, x, 0, [s], timeout) == (SeqState([x], 0), None)
            && AdvanceSequence(SeqState([x], 0), x, 0, [s], timeout) == (SeqState([x, x], 0), None)
            && AdvanceSequence(SeqState([x, x], 0), x, 0, [s], timeout) == (SeqState([x], 0), None)
            && AdvanceSequence(SeqState([x], 0), y, 0, [s], timeout) == (EMPTY_SEQ, None)
  {
    var s := [x, x, y];
    OnlyPrefixes([x], s);
    OnlyPrefixes([x, x], s);
    OnlyPrefixes([x, x, x], s);
    OnlyPrefixes([x, y], s);
    OnlyPrefixes([y], s);
    hide IsPrefix;
    assert [] + [x] == [x] && [x] + [x] == [x, x] && [x, x] + [x] == [x, x, x] && [x] + [y] == [x, y];
    assert [x, x, x][2] != s[2] && [x, y][1] != s[1] && [y][0] != s[0];
  }
}
