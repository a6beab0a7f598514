/**
 * The two entity decoders on whole texts: they agree exactly where every body is read alike. What one of them has
 * written ahead of the other stays ahead, so two differences never cancel out.
 */
module SigTwins {
  import opened Text
  import opened Entities
  import opened SigText

  /** The characters of a shouted "amp" and of what closes it. */
  predicate AmpChar(c: char) {
    c in "ampAMP;"
  }

  /** TypeScript reads a name here that Rust copies: what they write. */
  predicate NameRead(rust: string, ts: string) {
    && |rust| >= 2 && rust[0] == '&' && ts != "" && ts[0] != rust[1] && !AmpChar(ts[0])
    && (ts[0] == '&' ==> ts == "&" && forall i | 1 <= i < |rust| :: AmpChar(rust[i]))
    && 'a' <= LowerChar(rust[1]) <= 'z'
  }

  /** Rust reads a numeral here that TypeScript copies. */
  predicate NumeralRead(rust: string, ts: string) {
    && |rust| == 1 && |ts| >= 2 && ts[0] == '&' && ts[1] == '#' && ts[|ts| - 1] == ';'
    && forall i | 1 <= i < |ts| :: ts[i] != '&'
  }

  predicate Alike(rust: string, ts: string) {
    rust == ts && rust != ""
  }

  /** What both write for the beginning of a text. */
  predicate Front(t: string, rust: string, ts: string, rest: string, finite: nat -> bool) {
    && |rest| < |t| && Decoded(t) == rust + Decoded(rest)
    && TsDecoded(t, finite) == Prepend(ts, TsDecoded(rest, finite))
    && (Alike(rust, ts) || NameRead(rust, ts) || NumeralRead(rust, ts))
    && (Alike(rust, ts) && AllReadAlike(rest, finite) ==> AllReadAlike(t, finite))
  }

  lemma {:induction false} TsPlain(a: string, b: string, finite: nat -> bool)
    requires '&' !in a
    ensures TsDecoded(a + b, finite) == Prepend(a, TsDecoded(b, finite))
  {
    if a == "" {
      hide *;
      assert a + b == b;
      PrependTwice("", "", TsDecoded(b, finite));
    } else {
      TsCopies(a + b, finite);
      hide *;
      assert a[0] in a && (a + b)[1..] == a[1..] + b && a == [a[0]] + a[1..];
      TsPlain(a[1..], b, finite);
      PrependTwice([a[0]], a[1..], TsDecoded(b, finite));
    }
  }

  lemma TsCopies(t: string, finite: nat -> bool)
    ensures t != "" && t[0] != '&' ==> TsDecoded(t, finite) == Prepend([t[0]], TsDecoded(t[1..], finite))
  {
    hide TsEntity, IndexOf;
  }

  lemma PrependTwice(a: string, b: string, x: Option<string>)
    ensures Prepend(a, Prepend(b, x)) == Prepend(a + b, x) && Prepend("", x) == x
  {
    if x.Some? { assert a + (b + x.value) == a + b + x.value && "" + x.value == x.value; }
  }

  lemma OneCharacterFront(t: string, finite: nat -> bool)
    requires t != "" && !(t[0] == '&' && 0 < IndexOf(t, ';') < |t|)
    ensures Front(t, [t[0]], [t[0]], t[1..], finite)
  {
    hide TsEntity, Entity, Codes, ReadAlike, IndexOf;
    assert Decoded(t) == [t[0]] + Decoded(t[1..]);
    assert TsDecoded(t, finite) == Prepend([t[0]], TsDecoded(t[1..], finite));
    assert AllReadAlike(t, finite) <==> AllReadAlike(t[1..], finite);
    hide *;
    FrontAlike(t, [t[0]], t[1..], finite);
  }

  lemma FrontAlike(t: string, front: string, rest: string, finite: nat -> bool)
    requires front != "" && |rest| < |t| && Decoded(t) == front + Decoded(rest)
    requires TsDecoded(t, finite) == Prepend(front, TsDecoded(rest, finite))
    requires AllReadAlike(rest, finite) ==> AllReadAlike(t, finite)
    ensures Front(t, front, front, rest, finite)
  {
    hide Decoded, TsDecoded, AllReadAlike, NameRead, NumeralRead, Prepend;
  }

  lemma AlikeBody(body: string, after: string, finite: nat -> bool)
    requires ';' !in body && ReadAlike(body, finite)
    requires AllReadAlike(body + ";" + after, finite)
    ensures AllReadAlike("&" + body + ";" + after, finite)
  {
    BodyOf("&" + body + ";" + after, body, after);
    hide ReadAlike;
  }

  /** A body that both read alike. */
  lemma AlikeFront(body: string, after: string, finite: nat -> bool) returns (front: string, rest: string)
    requires forall n: nat | n < 0x11_0000 :: finite(n)
    requires ';' !in body && ReadAlike(body, finite)
    ensures Front("&" + body + ";" + after, front, front, rest, finite)
  {
    SameEntityIff(body, finite);
    var t := "&" + body + ";" + after;
    var seen := TsEntity(body, finite);
    if !seen.Unmatched? { MatchedBody(body, finite); }
    DecodedBody(body, after);
    TsBody(body, after, finite);
    hide TsEntity, Entity, Codes, Decoded, TsDecoded, ReadAlike, NameRead, NumeralRead, AllReadAlike;
    if seen.Unmatched? {
      front, rest := "&", body + ";" + after;
    } else {
      rest := after;
      ReadAlikeBehind(body + ";", after, finite);
      if seen.Becomes? {
        front := [seen.c];
      } else {
        front := "&" + body + ";";
        KeptBody(body, after);
      }
    }
    if AllReadAlike(rest, finite) { AlikeBody(body, after, finite); }
    FrontAlike(t, front, rest, finite);
  }

  lemma NotNumeric(body: string)
    requires ShoutedName(body) || InheritedName(body)
    ensures !IsNumeric(body) && Letters(body) && Entity(Codes(body)).None?
  {
    if IsNumeric(body) { NotAName(body); }
    NameIff(body);
    EntityOfName(body);
  }

  lemma ShoutedReads(body: string)
    requires ShoutedName(body) && Letters(body)
    ensures NameRead("&" + body + ";", [Named(Lower(body)).value])
  {
    var rust, low, c := "&" + body + ";", Lower(body), Named(Lower(body)).value;
    assert forall i | 0 <= i < |body| :: LowerChar(body[i]) == low[i];
    assert c == '&' || c == '<' || c == '>' || c == '"' || c == '\'' || c == ' ';
    assert c == '&' ==> low == "amp";
    assert 'a' <= LowerChar(body[0]) <= 'z';
    hide Lower, Named, ShoutedName, Letters;
    assert rust[1] == body[0] && |rust| == |body| + 2;
    if c == '&' {
      assert LowerChar(body[0]) == 'a' && LowerChar(body[1]) == 'm' && LowerChar(body[2]) == 'p';
      assert rust[2] == body[1] && rust[3] == body[2] && rust[4] == ';';
    }
  }

  lemma InheritedReads(body: string)
    requires InheritedName(body)
    ensures NameRead("&" + body + ";", FUNCTION_TEXT)
  {
    var rust, low := "&" + body + ";", Lower(body);
    assert LowerChar(body[0]) == low[0] == 'c' && FUNCTION_TEXT[0] == 'f';
    assert rust[1] == body[0];
    hide Lower;
  }

  /** A name that only TypeScript decodes. */
  lemma NameFront(body: string, after: string, finite: nat -> bool) returns (ts: string)
    requires ';' !in body && (ShoutedName(body) || InheritedName(body))
    ensures Front("&" + body + ";" + after, "&" + body + ";", ts, after, finite)
    ensures NameRead("&" + body + ";", ts)
  {
    NotNumeric(body);
    NameIff(body);
    ts := if InheritedName(body) then FUNCTION_TEXT else [Named(Lower(body)).value];
    var seen := TsEntity(body, finite);
    assert seen == if InheritedName(body) then Writes(ts) else Becomes(ts[0]);
    MatchedBody(body, finite);
    if InheritedName(body) { InheritedReads(body); } else { ShoutedReads(body); }
    hide TsEntity, Entity, Codes, Decoded, TsDecoded, NameRead, NumeralRead, AllReadAlike, ShoutedName, InheritedName;
    assert ts == [ts[0]] || seen.Writes?;
    TsBody(body, after, finite);
    KeptBody(body, after);
    assert !Alike("&" + body + ";", ts) by { NotAlike("&" + body + ";", ts); }
  }

  lemma NotAlike(rust: string, ts: string)
    requires NameRead(rust, ts) || NumeralRead(rust, ts)
    ensures !Alike(rust, ts)
  {
  }

  lemma PlusHasNoAmp(body: string)
    requires PlusNumeral(body)
    ensures |body| >= 2 && body[0] == '#' && '&' !in body
  {
    var f := Figures(body);
    assert body == body[..|body| - |f|] + f && f == ['+'] + f[1..];
    assert forall i | 0 <= i < |f[1..]| :: f[1..][i] != '&';
    hide Codes, Digits, Digit, Scalar;
  }

  lemma PlusIs(body: string, finite: nat -> bool) returns (c: char)
    requires PlusNumeral(body)
    ensures Entity(Codes(body)) == Some(c) && TsEntity(body, finite).Unmatched? && '&' !in body
    ensures NumeralRead([c], "&" + body + ";")
  {
    var f, r := Figures(body), Radix(body);
    assert f[0] == '+' && Digit('+' as int, r).None?;
    hide Codes, Digits, Digit, Entity, RustNumber, Scalar;
    EntityOfNumber(body);
    RustNumberIs(f, r);
    PlusHasNoAmp(body);
    c := Scalar(Digits(Codes(f[1..]), r).value).value;
    var ts := "&" + body + ";";
    assert forall i | 1 <= i < |ts| :: ts[i] == if i <= |body| then body[i - 1] else ';';
  }

  /** A numeral that only Rust decodes. */
  lemma PlusFront(body: string, after: string, finite: nat -> bool) returns (c: char)
    requires ';' !in body && PlusNumeral(body)
    ensures Front("&" + body + ";" + after, [c], "&" + body + ";", after, finite)
  {
    hide *;
    c := PlusIs(body, finite);
    TsBody(body, after, finite);
    DecodedBody(body, after);
    TsPlain(body + ";", after, finite);
    NotAlike([c], "&" + body + ";");
    PlusJoins(body, after, c, finite);
  }

  lemma PlusJoins(body: string, after: string, c: char, finite: nat -> bool)
    requires NumeralRead([c], "&" + body + ";") && !Alike([c], "&" + body + ";")
    requires TsDecoded("&" + body + ";" + after, finite) == Onward(Unmatched, body, after, finite)
    requires TsDecoded(body + ";" + after, finite) == Prepend(body + ";", TsDecoded(after, finite))
    requires Decoded("&" + body + ";" + after) == [c] + Decoded(after)
    ensures Front("&" + body + ";" + after, [c], "&" + body + ";", after, finite)
  {
    hide TsDecoded, Decoded, NumeralRead, AllReadAlike, Alike;
    var x := TsDecoded(after, finite);
    if x.Some? { assert "&" + (body + ";" + x.value) == "&" + body + ";" + x.value; }
  }

  lemma BadScalarThrows(body: string, after: string, finite: nat -> bool)
    requires ';' !in body && BadScalar(body, finite)
    ensures TsDecoded("&" + body + ";" + after, finite).None?
  {
    assert TsEntity(body, finite).NoText?;
    hide TsEntity, TsDecoded;
    TsBody(body, after, finite);
  }

  /** The first thing that the decoders write, when TypeScript's does not fail. */
  lemma Fronts(t: string, finite: nat -> bool) returns (rust: string, ts: string, rest: string)
    requires forall n: nat | n < 0x11_0000 :: finite(n)
    requires t != "" && TsDecoded(t, finite).Some?
    ensures Front(t, rust, ts, rest, finite)
  {
    hide *;
    var e := IndexOf(t, ';');
    if t[0] == '&' && 0 < e < |t| {
      FirstSemicolon(t);
      CutOut(t, e);
      var body, after := t[1..e], t[e + 1..];
      if ReadAlike(body, finite) {
        rust, rest := AlikeFront(body, after, finite);
        ts := rust;
      } else {
        rust, ts, rest := UnlikeFront(body, after, finite);
      }
    } else {
      OneCharacterFront(t, finite);
      rust, ts, rest := [t[0]], [t[0]], t[1..];
    }
  }

  lemma FirstSemicolon(t: string)
    ensures var e := IndexOf(t, ';');
            (e < |t| ==> t[e] == ';') && forall i | 0 <= i < e :: t[i] != ';'
  {
  }

  lemma UnlikeFront(body: string, after: string, finite: nat -> bool)
    returns (rust: string, ts: string, rest: string)
    requires ';' !in body && !ReadAlike(body, finite)
    requires TsDecoded("&" + body + ";" + after, finite).Some?
    ensures Front("&" + body + ";" + after, rust, ts, rest, finite)
  {
    hide TsDecoded, Front, ShoutedName, InheritedName, PlusNumeral, BadScalar;
    rest := after;
    if BadScalar(body, finite) {
      BadScalarThrows(body, after, finite);
      assert false;
    } else if PlusNumeral(body) {
      var c := PlusFront(body, after, finite);
      rust, ts := [c], "&" + body + ";";
    } else {
      ts := NameFront(body, after, finite);
      rust := "&" + body + ";";
    }
  }

  // ---- what is ahead stays ahead -------------------------------------------

  /** The text with its first `n` characters moved to its end, one by one. */
  function Turned(w: string, n: nat): (r: string)
    ensures |r| == |w|
    decreases n
  {
    if n == 0 || w == "" then w else Turned(w[1..] + [w[0]], n - 1)
  }

  /** What both write moves what is ahead behind it. */
  lemma {:induction false} Passes(e: string, x: string, w: string, y: string)
    requires w != "" && e + x == w + e + y
    ensures x == Turned(w, |e|) + y
    decreases |e|
  {
    if e == "" {
      assert "" + x == x && w + "" + y == w + y;
    } else {
      assert e[0] == (e + x)[0] == (w + e + y)[0] == w[0];
      var turned := w[1..] + [w[0]];
      assert (e + x)[1..] == e[1..] + x;
      assert (w + e + y)[1..] == turned + e[1..] + y;
      Passes(e[1..], x, turned, y);
    }
  }

  predicate AllAmpChars(w: string) {
    w != "" && forall i | 0 <= i < |w| :: AmpChar(w[i])
  }

  lemma {:induction false} TurnedAmpChars(w: string, n: nat)
    requires AllAmpChars(w)
    ensures AllAmpChars(Turned(w, n))
    decreases n
  {
    if n > 0 {
      hide AmpChar;
      TurnedAmpChars(w[1..] + [w[0]], n - 1);
    }
  }

  lemma RustAheadStep(w: string, rust: string, ts: string, x: string, y: string)
    requires AllAmpChars(w) && (Alike(rust, ts) || NameRead(rust, ts) || NumeralRead(rust, ts))
    requires ts + x == w + (rust + y)
    ensures x == Turned(w, |rust|) + y && AllAmpChars(Turned(w, |rust|))
  {
    assert (ts + x)[0] == ts[0] && (w + (rust + y))[0] == w[0];
    assert AmpChar(ts[0]) && Alike(rust, ts);
    assert w + (rust + y) == w + rust + y;
    hide *;
    Passes(rust, x, w, y);
    TurnedAmpChars(w, |rust|);
  }

  /** Once Rust has written the rest of a shouted "amp" ahead of TypeScript, the two never meet again. */
  lemma {:induction false} RustAhead(t: string, w: string, finite: nat -> bool)
    requires forall n: nat | n < 0x11_0000 :: finite(n)
    requires AllAmpChars(w)
    ensures TsDecoded(t, finite) != Some(w + Decoded(t))
    decreases |t|
  {
    if t == "" {
      assert |w + ""| > 0;
    } else if TsDecoded(t, finite) == Some(w + Decoded(t)) {
      var rust, ts, rest := Fronts(t, finite);
      hide TsDecoded, Decoded, AllReadAlike, Turned, AllAmpChars, NameRead, NumeralRead;
      RustAheadStep(w, rust, ts, TsDecoded(rest, finite).value, Decoded(rest));
      RustAhead(rest, Turned(w, |rust|), finite);
    }
  }

  /** Read in a circle, no '&' has a letter behind it. */
  predicate Circular(w: string) {
    && w != "" && (forall i | 0 <= i < |w| - 1 && w[i] == '&' :: w[i + 1] == '#' || w[i + 1] == '&')
    && (w[|w| - 1] == '&' ==> w[0] == '#' || w[0] == '&')
  }

  lemma {:induction false} TurnedCircular(w: string, n: nat)
    requires Circular(w)
    ensures Circular(Turned(w, n))
    decreases n
  {
    if n > 0 {
      TurnedCircular(w[1..] + [w[0]], n - 1);
    }
  }

  lemma NumeralCircular(w: string, rust: string, ts: string)
    requires Circular(w) && NumeralRead(rust, ts)
    ensures Circular(w[1..] + ts)
  {
    var v := w[1..] + ts;
    forall i | 0 <= i < |v| - 1 && v[i] == '&' ensures v[i + 1] == '#' || v[i + 1] == '&' {
      if i < |w| - 1 { assert v[i] == w[i + 1]; } else { assert v[i] == ts[i - (|w| - 1)]; }
    }
    assert v[|v| - 1] == ';';
  }

  /** Rust writes a name here: what is ahead cannot begin like that. */
  lemma NameClashes(w: string, rust: string, ts: string, x: string, y: string)
    requires Circular(w) && NameRead(rust, ts)
    ensures rust + y != w + (ts + x)
  {
    assert (rust + y)[0] == rust[0] && (rust + y)[1] == rust[1];
    assert (w + (ts + x))[0] == w[0];
    assert (w + (ts + x))[1] == if |w| > 1 then w[1] else ts[0];
  }

  lemma TypeScriptAheadStep(w: string, rust: string, ts: string, x: string, y: string) returns (ahead: string)
    requires Circular(w) && (Alike(rust, ts) || NameRead(rust, ts) || NumeralRead(rust, ts))
    requires rust + y == w + (ts + x)
    ensures y == ahead + x && Circular(ahead)
  {
    if NumeralRead(rust, ts) {
      assert (rust + y)[1..] == y && (w + (ts + x))[1..] == w[1..] + ts + x;
      NumeralCircular(w, rust, ts);
      ahead := w[1..] + ts;
    } else {
      assert Alike(rust, ts) by { if NameRead(rust, ts) { NameClashes(w, rust, ts, x, y); } }
      assert w + (rust + x) == w + rust + x;
      hide Circular;
      Passes(rust, y, w, x);
      TurnedCircular(w, |rust|);
      ahead := Turned(w, |rust|);
    }
  }

  /** Once TypeScript has written the rest of a numeral with '+' ahead of Rust, the two never meet again. */
  lemma {:induction false} TypeScriptAhead(t: string, w: string, finite: nat -> bool)
    requires forall n: nat | n < 0x11_0000 :: finite(n)
    requires Circular(w)
    ensures TsDecoded(t, finite).Some? ==> Decoded(t) != w + TsDecoded(t, finite).value
    decreases |t|
  {
    if t == "" {
      assert |w + ""| > 0;
    } else if TsDecoded(t, finite).Some? && Decoded(t) == w + TsDecoded(t, finite).value {
      var rust, ts, rest := Fronts(t, finite);
      hide TsDecoded, Decoded, AllReadAlike, Circular, NameRead, NumeralRead;
      var ahead := TypeScriptAheadStep(w, rust, ts, TsDecoded(rest, finite).value, Decoded(rest));
      TypeScriptAhead(rest, ahead, finite);
    }
  }

  // ---- whole texts ---------------------------------------------------------

  lemma CutFirst(a: string, x: string)
    requires a != ""
    ensures (a + x)[0] == a[0] && (a + x)[1..] == a[1..] + x && (a + x)[|a|..] == x
    ensures |a| == 1 ==> a[1..] + x == x
  {
  }

  /** Where the first difference is one of an '&', one of the two is ahead from there. */
  lemma FirstDifference(rust: string, ts: string, x: string, y: string)
    requires ts + x == rust + y && (Alike(rust, ts) || NameRead(rust, ts) || NumeralRead(rust, ts))
    ensures Alike(rust, ts) ==> x == y
    ensures NameRead(rust, ts) ==> AllAmpChars(rust[1..]) && x == rust[1..] + y
    ensures NumeralRead(rust, ts) ==> Circular(ts[1..]) && y == ts[1..] + x
  {
    CutFirst(ts, x);
    CutFirst(rust, y);
    hide AmpChar;
  }

  lemma {:induction false} AgreeOnlyIf(t: string, finite: nat -> bool)
    requires forall n: nat | n < 0x11_0000 :: finite(n)
    requires TsDecoded(t, finite) == Some(Decoded(t))
    ensures AllReadAlike(t, finite)
    decreases |t|
  {
    if t != "" {
      var rust, ts, rest := Fronts(t, finite);
      hide TsDecoded, Decoded, AllReadAlike, Circular, AllAmpChars, NameRead, NumeralRead, Alike;
      FirstDifference(rust, ts, TsDecoded(rest, finite).value, Decoded(rest));
      if Alike(rust, ts) {
        AgreeOnlyIf(rest, finite);
      } else if NameRead(rust, ts) {
        RustAhead(rest, rust[1..], finite);
      } else {
        TypeScriptAhead(rest, ts[1..], finite);
      }
    }
  }

  /**
   * The two decoders agree on a text exactly if every body in it is read alike: wherever one of the four differences
   * occurs the results differ, whatever else the text holds.
   */
  lemma TwinsAgreeIff(t: string, finite: nat -> bool)
    requires forall n: nat | n < 0x11_0000 :: finite(n)
    ensures TsDecoded(t, finite) == Some(Decoded(t)) <==> AllReadAlike(t, finite)
  {
    hide *;
    if AllReadAlike(t, finite) { TwinsAgree(t, finite); }
    if TsDecoded(t, finite) == Some(Decoded(t)) { AgreeOnlyIf(t, finite); }
  }
}
