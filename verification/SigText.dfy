/**
 * `decodeEntities` of web/components/sigText.ts, the regular-expression twin of the Rust entity decoder: when the
 * two agree, and that both undo `escapeHtml`.
 */
module SigText {
  import opened Text
  import opened Entities
  import opened Escaping

  /** What the replacer does with the text between '&' and ';'. */
  datatype Outcome =
    | Unmatched        // the expression does not match here
    | Kept             // matched, and put back as it was
    | Becomes(c: char)
    | Writes(text: string)
    | NoText           // String.fromCodePoint throws, or yields a lone surrogate

  predicate Numeral(s: string, radix: nat) {
    s != "" && forall i | 0 <= i < |s| :: Digit(s[i] as int, radix).Some?
  }

  predicate Letters(s: string) {
    s != "" && forall i | 0 <= i < |s| :: 'a' <= LowerChar(s[i]) <= 'z'
  }

  predicate HexPrefix(s: string) {
    |s| >= 2 && s[0] == '#' && (s[1] == 'x' || s[1] == 'X')
  }

  predicate DecPrefix(s: string) {
    |s| >= 1 && s[0] == '#' && !HexPrefix(s)
  }

  /** The numeral of a numeric body, and its radix. */
  function Figures(body: string): string
    requires HexPrefix(body) || DecPrefix(body)
  {
    if HexPrefix(body) then body[2..] else body[1..]
  }

  function Radix(body: string): nat {
    if HexPrefix(body) then 16 else 10
  }

  predicate IsNumeric(body: string) {
    HexPrefix(body) || DecPrefix(body)
  }

  function Named(name: string): Option<char> {
    if name == "amp" then Some('&')
    else if name == "lt" then Some('<')
    else if name == "gt" then Some('>')
    else if name == "quot" then Some('"')
    else if name == "apos" then Some('\'')
    else if name == "nbsp" then Some(' ')
    else None
  }

  /**
   * The table is a plain object, so a lookup also finds what it inherits. Of the names in Object.prototype only this
   * one is made of lower-case letters alone.
   */
  const INHERITED := "constructor"

  /** What `replace` writes for the function found there. */
  const FUNCTION_TEXT := "function Object() { [native code] }"

  function TsNumber(n: nat, finite: nat -> bool): Outcome {
    if !finite(n) then Kept else if Scalar(n).Some? then Becomes(Scalar(n).value) else NoText
  }

  /** `&(#x[0-9a-f]+|#\d+|[a-z]+);` with flags `gi`; `finite` is `Number.isFinite` after `parseInt`. */
  function TsEntity(body: string, finite: nat -> bool): Outcome {
    if IsNumeric(body) then
      if !Numeral(Figures(body), Radix(body)) then Unmatched
      else
        var n := Digits(Codes(Figures(body)), Radix(body));
        if n.Some? then TsNumber(n.value, finite) else Unmatched
    else if !Letters(body) then Unmatched
    else if Named(Lower(body)).Some? then Becomes(Named(Lower(body)).value)
    else if Lower(body) == INHERITED then Writes(FUNCTION_TEXT)
    else Kept
  }

  /** None when some numeral does not denote a Unicode scalar value. */
  function TsDecoded(t: string, finite: nat -> bool): Option<string>
    decreases |t|
  {
    if t == "" then Some("")
    else
      var e := IndexOf(t, ';');
      var seen := if t[0] == '&' && 0 < e < |t| then TsEntity(t[1..e], finite) else Unmatched;
      match seen
      case Unmatched => Prepend([t[0]], TsDecoded(t[1..], finite))
      case Kept => Prepend(t[..e + 1], TsDecoded(t[e + 1..], finite))
      case Becomes(c) => Prepend([c], TsDecoded(t[e + 1..], finite))
      case Writes(text) => Prepend(text, TsDecoded(t[e + 1..], finite))
      case NoText => None
  }

  function Prepend(a: string, b: Option<string>): Option<string> {
    if b.Some? then Some(a + b.value) else None
  }

  // ---- one entity ----------------------------------------------------------

  /** The Rust decoder does with this body what the TypeScript one does. */
  predicate SameEntity(body: string, finite: nat -> bool) {
    match TsEntity(body, finite)
    case Unmatched => Entity(Codes(body)).None?
    case Kept => Entity(Codes(body)).None?
    case Becomes(c) => Entity(Codes(body)) == Some(c)
    case Writes(text) => Entity(Codes(body)).None? && text == "&" + body + ";"
    case NoText => false
  }

  /** A known name that is not in lower case: only TypeScript decodes it. */
  predicate ShoutedName(body: string) {
    Named(Lower(body)).Some? && Lower(body) != body
  }

  /** A numeral with a plus sign: only Rust decodes it. */
  predicate PlusNumeral(body: string) {
    && IsNumeric(body) && Figures(body) != "" && Figures(body)[0] == '+'
    && Numeral(Figures(body)[1..], Radix(body))
    && var n := Digits(Codes(Figures(body)[1..]), Radix(body)); n.Some? && Scalar(n.value).Some?
  }

  /** A numeral that is no scalar value: Rust keeps it, TypeScript throws or writes half a surrogate pair. */
  predicate BadScalar(body: string, finite: nat -> bool) {
    && IsNumeric(body) && Numeral(Figures(body), Radix(body))
    && var n := Digits(Codes(Figures(body)), Radix(body)); n.Some? && finite(n.value) && Scalar(n.value).None?
  }

  /** A name that the table inherits: TypeScript writes the text of a function, Rust keeps it. */
  predicate InheritedName(body: string) {
    Lower(body) == INHERITED
  }

  predicate ReadAlike(body: string, finite: nat -> bool) {
    !ShoutedName(body) && !InheritedName(body) && !PlusNumeral(body) && !BadScalar(body, finite)
  }

  lemma {:induction false} DigitsSome(s: string, radix: nat)
    ensures Digits(Codes(s), radix).Some? <==> forall i | 0 <= i < |s| :: Digit(s[i] as int, radix).Some?
  {
    if s != "" {
      var last := |s| - 1;
      assert Codes(s)[..last] == Codes(s[..last]) && Codes(s)[last] == s[last] as int;
      DigitsSome(s[..last], radix);
      assert (forall i | 0 <= i < last :: Digit(s[..last][i] as int, radix).Some?)
        <==> (forall i | 0 <= i < last :: Digit(s[i] as int, radix).Some?);
    }
  }

  lemma CodesSame(a: string, b: string)
    ensures Codes(a) == Codes(b) <==> a == b
  {
    if Codes(a) == Codes(b) {
      assert |a| == |Codes(a)| == |b|;
      forall i | 0 <= i < |a| ensures a[i] == b[i] {
        assert Codes(a)[i] == Codes(b)[i];
      }
    }
  }

  lemma EntityOfName(body: string)
    requires !IsNumeric(body)
    ensures Entity(Codes(body)) == Named(body)
  {
    CodesSame(body, "amp");
    CodesSame(body, "lt");
    CodesSame(body, "gt");
    CodesSame(body, "quot");
    CodesSame(body, "apos");
    CodesSame(body, "nbsp");
    assert body != "" ==> Codes(body)[0] == body[0] as int;
    hide Codes, ParseU32, Scalar;
  }

  /** `u32` parsing, on a numeral of the body. */
  function RustNumber(figures: string, radix: nat): Option<char> {
    var n := ParseU32(Codes(figures), radix);
    if n.Some? then Scalar(n.value) else None
  }

  lemma EntityOfNumber(body: string)
    requires IsNumeric(body)
    ensures Entity(Codes(body)) == RustNumber(Figures(body), Radix(body))
  {
    CodesSame(body, "amp");
    CodesSame(body, "lt");
    CodesSame(body, "gt");
    CodesSame(body, "quot");
    CodesSame(body, "apos");
    CodesSame(body, "nbsp");
    assert Codes(body)[0] == 35;
    assert |body| >= 2 ==> Codes(body)[1] == body[1] as int;
    assert |body| >= 2 ==> Codes(body)[2..] == Codes(body[2..]);
    assert Codes(body)[1..] == Codes(body[1..]);
    assert |Codes(body)| == |body|;
    hide Codes, ParseU32, Scalar;
  }

  lemma RustNumberIs(figures: string, radix: nat)
    ensures figures == "" ==> RustNumber(figures, radix).None?
    ensures figures != "" && figures[0] != '+' ==>
              var n := Digits(Codes(figures), radix);
              RustNumber(figures, radix) == if n.Some? then Scalar(n.value) else None
    ensures figures != "" && figures[0] == '+' ==>
              var n := Digits(Codes(figures[1..]), radix);
              RustNumber(figures, radix) == if figures[1..] != "" && n.Some? then Scalar(n.value) else None
  {
    if figures != "" {
      assert Codes(figures)[0] == figures[0] as int && Codes(figures)[1..] == Codes(figures[1..]);
    }
    assert |Codes(figures)| == |figures|;
    assert forall n: nat | n >= 0x1_0000_0000 :: Scalar(n).None?;
  }

  /** The exact condition, body by body, under which the twins do the same. */
  lemma SameEntityIff(body: string, finite: nat -> bool)
    requires forall n: nat | n < 0x11_0000 :: finite(n)
    ensures SameEntity(body, finite) <==> ReadAlike(body, finite)
  {
    if IsNumeric(body) {
      NotAName(body);
      NumberIff(body, finite);
    } else {
      EntityOfName(body);
      NameIff(body);
    }
  }

  lemma NotAName(body: string)
    requires IsNumeric(body)
    ensures Named(Lower(body)).None? && !InheritedName(body)
  {
    assert Lower(body)[0] == '#';
  }

  lemma NameIff(body: string)
    requires !IsNumeric(body)
    ensures Named(Lower(body)).Some? ==> Letters(body)
    ensures Named(body).Some? ==> Lower(body) == body
    ensures Named(body).Some? && Named(Lower(body)).Some? ==> Lower(body) == body
    ensures InheritedName(body) ==> Letters(body) && Named(Lower(body)).None? && Named(body).None?
    ensures FUNCTION_TEXT != "&" + body + ";"
  {
    var low := Lower(body);
    assert forall i | 0 <= i < |body| :: LowerChar(body[i]) == low[i];
    if Named(low).Some? {
      assert low == "amp" || low == "lt" || low == "gt" || low == "quot" || low == "apos" || low == "nbsp";
      assert forall i | 0 <= i < |low| :: 'a' <= low[i] <= 'z';
    }
    if Named(body).Some? {
      assert forall i | 0 <= i < |body| :: 'a' <= body[i] <= 'z';
      assert low == body;
    }
    InheritedIff(body);
  }

  lemma InheritedIff(body: string)
    ensures InheritedName(body) ==> Letters(body) && Named(Lower(body)).None? && Named(body).None?
    ensures FUNCTION_TEXT != "&" + body + ";"
  {
    var low := Lower(body);
    assert forall i | 0 <= i < |body| :: LowerChar(body[i]) == low[i];
    assert |INHERITED| == 11 && forall i | 0 <= i < |INHERITED| :: 'a' <= INHERITED[i] <= 'z';
    assert FUNCTION_TEXT[0] == 'f' && ("&" + body + ";")[0] == '&';
  }

  lemma NumberIff(body: string, finite: nat -> bool)
    requires IsNumeric(body)
    requires forall n: nat | n < 0x11_0000 :: finite(n)
    ensures SameEntity(body, finite) <==> !PlusNumeral(body) && !BadScalar(body, finite)
  {
    EntityOfNumber(body);
    var f, r := Figures(body), Radix(body);
    RustNumberIs(f, r);
    DigitsSome(f, r);
    if f != "" {
      DigitsSome(f[1..], r);
      assert Digit('+' as int, r).None?;
    }
    hide Codes, RustNumber, Digits, Digit, Figures, Radix, HexPrefix, DecPrefix, Entity;
  }

  // ---- whole texts ---------------------------------------------------------

  /** Every '&' with a ';' behind it opens a body on which the twins agree. */
  predicate AllReadAlike(t: string, finite: nat -> bool)
    decreases |t|
  {
    t != "" ==>
      var e := IndexOf(t, ';');
      && (t[0] == '&' && 0 < e < |t| ==> ReadAlike(t[1..e], finite))
      && AllReadAlike(t[1..], finite)
  }

  lemma {:induction false} AllReadAlikeTail(t: string, k: nat, finite: nat -> bool)
    requires k <= |t| && AllReadAlike(t, finite)
    ensures AllReadAlike(t[k..], finite)
  {
    if k > 0 {
      AllReadAlikeTail(t[1..], k - 1, finite);
      assert t[1..][k - 1..] == t[k..];
    } else {
      assert t[0..] == t;
    }
  }

  /** A matched body holds no '&'. */
  lemma MatchedBody(body: string, finite: nat -> bool)
    requires !TsEntity(body, finite).Unmatched?
    ensures '&' !in body
  {
    if IsNumeric(body) {
      assert forall i | 0 <= i < |Figures(body)| :: Figures(body)[i] != '&';
      assert body == body[..|body| - |Figures(body)|] + Figures(body);
    } else {
      assert forall i | 0 <= i < |body| :: 'a' <= LowerChar(body[i]);
    }
  }

  /** What decoding goes on to, once the body at the front is known. */
  function Onward(seen: Outcome, body: string, after: string, finite: nat -> bool): Option<string> {
    match seen
    case Unmatched => Prepend("&", TsDecoded(body + ";" + after, finite))
    case Kept => Prepend("&" + body + ";", TsDecoded(after, finite))
    case Becomes(c) => Prepend([c], TsDecoded(after, finite))
    case Writes(text) => Prepend(text, TsDecoded(after, finite))
    case NoText => None
  }

  lemma TsBody(body: string, after: string, finite: nat -> bool)
    requires ';' !in body
    ensures TsDecoded("&" + body + ";" + after, finite) == Onward(TsEntity(body, finite), body, after, finite)
  {
    hide TsEntity, Prepend;
    var t := "&" + body + ";" + after;
    assert forall i | 0 <= i < |body| + 1 :: t[i] == if i == 0 then '&' else body[i - 1];
    IndexOfUnique(t, ';', |body| + 1);
    assert t[1..|body| + 1] == body && t[|body| + 2..] == after && t[1..] == body + ";" + after;
    assert t[..|body| + 2] == "&" + body + ";";
  }

  /** Both twins put an unknown name back as it was. */
  lemma KeptBody(body: string, after: string)
    requires ';' !in body && '&' !in body && Entity(Codes(body)).None?
    ensures Decoded("&" + body + ";" + after) == "&" + body + ";" + Decoded(after)
  {
    hide *;
    DecodedBody(body, after);
    DecodedPlain(body + ";", after);
  }

  lemma AmpAgrees(body: string, after: string, finite: nat -> bool)
    requires forall n: nat | n < 0x11_0000 :: finite(n)
    requires ';' !in body && ReadAlike(body, finite)
    requires TsDecoded(after, finite) == Some(Decoded(after))
    requires TsDecoded(body + ";" + after, finite) == Some(Decoded(body + ";" + after))
    ensures TsDecoded("&" + body + ";" + after, finite) == Some(Decoded("&" + body + ";" + after))
  {
    SameEntityIff(body, finite);
    var seen := TsEntity(body, finite);
    if !seen.Unmatched? { MatchedBody(body, finite); }
    hide TsEntity, Entity, Codes, Decoded, TsDecoded, ReadAlike;
    if seen.Kept? || seen.Writes? { KeptBody(body, after); }
    DecodedBody(body, after);
    TsBody(body, after, finite);
  }

  lemma ReadAlikeHead(t: string, e: nat, finite: nat -> bool)
    requires t != "" && t[0] == '&' && e == IndexOf(t, ';') && 0 < e < |t| && AllReadAlike(t, finite)
    ensures t == "&" + t[1..e] + ";" + t[e + 1..] && t[1..] == t[1..e] + ";" + t[e + 1..]
    ensures ReadAlike(t[1..e], finite) && ';' !in t[1..e]
  {
    assert ReadAlike(t[1..e], finite);
    hide *;
    assert t[e] == ';' && forall i | 0 <= i < e :: t[i] != ';';
    CutOut(t, e);
  }

  lemma CutOut(t: string, e: nat)
    requires 0 < e < |t| && t[0] == '&' && t[e] == ';' && forall i | 0 <= i < e :: t[i] != ';'
    ensures t == "&" + t[1..e] + ";" + t[e + 1..] && t[1..] == t[1..e] + ";" + t[e + 1..]
    ensures ';' !in t[1..e]
  {
  }

  /** No entity here: both copy one character. */
  lemma OneCharacter(t: string, finite: nat -> bool)
    requires t != "" && !(t[0] == '&' && 0 < IndexOf(t, ';') < |t|)
    requires TsDecoded(t[1..], finite) == Some(Decoded(t[1..]))
    ensures TsDecoded(t, finite) == Some(Decoded(t))
  {
    hide IndexOf, TsEntity, Entity, Codes;
  }

  /** Where every body is read alike, the twins decode alike. */
  lemma {:induction false} TwinsAgree(t: string, finite: nat -> bool)
    requires forall n: nat | n < 0x11_0000 :: finite(n)
    requires AllReadAlike(t, finite)
    ensures TsDecoded(t, finite) == Some(Decoded(t))
    decreases |t|
  {
    if t != "" {
      hide *;
      var e := IndexOf(t, ';');
      AllReadAlikeTail(t, 1, finite);
      TwinsAgree(t[1..], finite);
      if t[0] == '&' && 0 < e < |t| {
        ReadAlikeHead(t, e, finite);
        AllReadAlikeTail(t, e + 1, finite);
        TwinsAgree(t[e + 1..], finite);
        AmpAgrees(t[1..e], t[e + 1..], finite);
      } else {
        OneCharacter(t, finite);
      }
    }
  }

  // ---- undoing escapeHtml --------------------------------------------------

  lemma {:induction false} ReadAlikeBehind(a: string, b: string, finite: nat -> bool)
    requires '&' !in a
    ensures AllReadAlike(a + b, finite) == AllReadAlike(b, finite)
  {
    if a == "" {
      assert a + b == b;
    } else {
      assert a[0] in a && (a + b)[1..] == a[1..] + b;
      hide ReadAlike;
      ReadAlikeBehind(a[1..], b, finite);
    }
  }

  lemma EscapeIsReadAlike(name: string, rest: string, finite: nat -> bool)
    requires name == "amp" || name == "lt" || name == "gt"
    ensures AllReadAlike("&" + name + ";" + rest, finite) == AllReadAlike(rest, finite)
  {
    EscapeNames(name, finite);
    ReadAlikeBehind(name + ";", rest, finite);
    BodyOf("&" + name + ";" + rest, name, rest);
    hide ReadAlike;
  }

  lemma EscapeNames(name: string, finite: nat -> bool)
    requires name == "amp" || name == "lt" || name == "gt"
    ensures ReadAlike(name, finite) && ';' !in name && '&' !in name + ";"
  {
    assert forall i | 0 <= i < |name| :: Lower(name)[i] == LowerChar(name[i]) == name[i];
    assert Lower(name) == name;
  }

  lemma BodyOf(t: string, name: string, rest: string)
    requires t == "&" + name + ";" + rest && ';' !in name
    ensures IndexOf(t, ';') == |name| + 1 && t[1..|name| + 1] == name && t[1..] == name + ";" + rest
  {
    assert forall i | 0 <= i < |name| + 1 :: t[i] == if i == 0 then '&' else name[i - 1];
    IndexOfUnique(t, ';', |name| + 1);
  }

  lemma {:induction false} EscapedIsReadAlike(s: string, finite: nat -> bool)
    ensures AllReadAlike(Escaped(s), finite)
  {
    if s != "" {
      EscapedIsReadAlike(s[1..], finite);
      var rest := Escaped(s[1..]);
      assert "&amp;" == "&" + "amp" + ";" && "&lt;" == "&" + "lt" + ";" && "&gt;" == "&" + "gt" + ";";
      hide AllReadAlike;
      if s[0] == '&' {
        EscapeIsReadAlike("amp", rest, finite);
      } else if s[0] == '<' {
        EscapeIsReadAlike("lt", rest, finite);
      } else if s[0] == '>' {
        EscapeIsReadAlike("gt", rest, finite);
      } else {
        ReadAlikeBehind([s[0]], rest, finite);
      }
    }
  }

  /** The TypeScript decoder undoes `escapeHtml` on every text. */
  lemma DecodeUndoesEscape(s: string, finite: nat -> bool)
    requires forall n: nat | n < 0x11_0000 :: finite(n)
    ensures TsDecoded(EscapeHtml(s), finite) == Some(s)
  {
    EscapeIsPerChar(s);
    EscapedIsReadAlike(s, finite);
    hide *;
    TwinsAgree(Escaped(s), finite);
    DecodedEscaped(s);
  }

  lemma OneMoreFigure(s: string, n: nat, c: char)
    requires Digits(Codes(s), 10) == Some(n) && '0' <= c <= '9'
    ensures Digits(Codes(s + [c]), 10) == Some(n * 10 + (c as int - 48)) && Numeral(s + [c], 10)
  {
    var codes := Codes(s + [c]);
    assert codes[..|codes| - 1] == Codes(s);
    DigitsSome(s + [c], 10);
  }

  lemma Figures38And55296()
    ensures Digits(Codes("38"), 10) == Some(38) && Numeral("38", 10)
    ensures Digits(Codes("55296"), 10) == Some(55296) && Numeral("55296", 10)
  {
    assert Digits(Codes(""), 10) == Some(0);
    assert "" + "3" == "3" && "3" + "8" == "38";
    assert "" + "5" == "5" && "5" + "5" == "55" && "55" + "2" == "552";
    assert "552" + "9" == "5529" && "5529" + "6" == "55296";
    hide Digits, Codes, Numeral;
    OneMoreFigure("", 0, '3');
    OneMoreFigure("3", 3, '8');
    OneMoreFigure("", 0, '5');
    OneMoreFigure("5", 5, '5');
    OneMoreFigure("55", 55, '2');
    OneMoreFigure("552", 552, '9');
    OneMoreFigure("5529", 5529, '6');
  }

  lemma InheritedDiffers(finite: nat -> bool)
    requires forall n: nat | n < 0x11_0000 :: finite(n)
    ensures InheritedName("constructor") && !SameEntity("constructor", finite)
    ensures TsDecoded("&constructor;", finite) == Some(FUNCTION_TEXT) && Decoded("&constructor;") == "&constructor;"
  {
    var body := INHERITED;
    LowerIsFixed(body);
    assert !IsNumeric(body) && "&constructor;" == "&" + body + ";" + "";
    InheritedIff(body);
    EntityOfName(body);
    assert TsEntity(body, finite) == Writes(FUNCTION_TEXT);
    assert '&' !in body && ';' !in body;
    assert FUNCTION_TEXT + "" == FUNCTION_TEXT && TsDecoded("", finite) == Some("") && Decoded("") == "";
    SameEntityIff(body, finite);
    hide TsEntity, Named, Entity, Codes, SameEntity, TsDecoded, Decoded;
    TsBody(body, "", finite);
    KeptBody(body, "");
  }

  lemma LowerIsFixed(body: string)
    requires body == INHERITED
    ensures Lower(body) == body
  {
    assert forall i | 0 <= i < |body| :: Lower(body)[i] == LowerChar(body[i]) == body[i];
  }

  /** The four ways in which the twins differ, each with an input. */
  lemma TwinsDiffer(finite: nat -> bool)
    requires forall n: nat | n < 0x11_0000 :: finite(n)
    ensures ShoutedName("AMP") && InheritedName("constructor") && PlusNumeral("#+38") && BadScalar("#55296", finite)
    ensures !SameEntity("AMP", finite) && !SameEntity("constructor", finite)
    ensures !SameEntity("#+38", finite) && !SameEntity("#55296", finite)
    ensures TsDecoded("&constructor;", finite) == Some(FUNCTION_TEXT) && Decoded("&constructor;") == "&constructor;"
  {
    hide *;
    InheritedDiffers(finite);
    ShoutedDiffers(finite);
    NumeralsDiffer(finite);
  }

  lemma ShoutedDiffers(finite: nat -> bool)
    requires forall n: nat | n < 0x11_0000 :: finite(n)
    ensures ShoutedName("AMP") && !SameEntity("AMP", finite)
  {
    assert Lower("AMP") == "amp";
    hide SameEntity, PlusNumeral, BadScalar;
    SameEntityIff("AMP", finite);
  }

  lemma NumeralsDiffer(finite: nat -> bool)
    requires forall n: nat | n < 0x11_0000 :: finite(n)
    ensures PlusNumeral("#+38") && BadScalar("#55296", finite)
    ensures !SameEntity("#+38", finite) && !SameEntity("#55296", finite)
  {
    Figures38And55296();
    assert Figures("#+38") == "+38" && Figures("#+38")[1..] == "38" && Figures("#55296") == "55296";
    hide Codes, Digits, Digit, Entity, SameEntity, Named, ShoutedName, InheritedName;
    SameEntityIff("#+38", finite);
    SameEntityIff("#55296", finite);
  }
}
