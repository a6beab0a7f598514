/** What the two entity decoders read in numerals and names, down to the figures. */
module Numerals {
  import opened Text
  import opened Entities
  import opened SigText

  const LOWER_FIGURES := "0123456789abcdef"
  const UPPER_FIGURES := "0123456789ABCDEF"

  /** This character is the figure for `v`. */
  predicate Figure(c: char, v: nat, radix: nat) {
    v < radix && v < 16 && (c == LOWER_FIGURES[v] || c == UPPER_FIGURES[v])
  }

  predicate Spelt(figures: string, values: seq<nat>, radix: nat) {
    |figures| == |values| && forall i | 0 <= i < |figures| :: Figure(figures[i], values[i], radix)
  }

  function Power(radix: nat, n: nat): nat {
    if n == 0 then 1 else radix * Power(radix, n - 1)
  }

  /** Each value times the power of its place, the last place being worth one. */
  function PlaceSum(values: seq<nat>, radix: nat): nat {
    if values == [] then 0 else values[0] * Power(radix, |values| - 1) + PlaceSum(values[1..], radix)
  }

  lemma FigureIs(c: char, v: nat, radix: nat)
    requires radix == 10 || radix == 16
    ensures Figure(c, v, radix) ==> Digit(c as int, radix) == Some(v) && c != '+' && c != ';' && c != '&'
    ensures Digit(c as int, radix) == Some(v) ==> Figure(c, v, radix)
  {
  }

  lemma {:induction false} PlaceSumSnoc(values: seq<nat>, v: nat, radix: nat)
    ensures PlaceSum(values + [v], radix) == PlaceSum(values, radix) * radix + v
  {
    if values == [] {
      assert (values + [v])[1..] == [] && Power(radix, 0) == 1;
    } else {
      var n := |values| - 1;
      PlaceSumSnoc(values[1..], v, radix);
      assert (values + [v])[1..] == values[1..] + [v];
      Distribute(values[0], Power(radix, n), PlaceSum(values[1..], radix), radix, v);
    }
  }

  lemma Distribute(a: nat, p: nat, b: nat, radix: nat, v: nat)
    ensures a * (radix * p) + (b * radix + v) == (a * p + b) * radix + v
  {
    assert a * (radix * p) == (a * p) * radix;
  }

  /** A numeral is worth the sum of its places. */
  lemma {:induction false} NumeralValue(figures: string, values: seq<nat>, radix: nat)
    requires (radix == 10 || radix == 16) && Spelt(figures, values, radix)
    ensures Digits(Codes(figures), radix) == Some(PlaceSum(values, radix))
  {
    if figures != "" {
      var n := |figures| - 1;
      assert Codes(figures)[..n] == Codes(figures[..n]) && Codes(figures)[n] == figures[n] as int;
      hide Figure;
      NumeralValue(figures[..n], values[..n], radix);
      FigureIs(figures[n], values[n], radix);
      PlaceSumSnoc(values[..n], values[n], radix);
      assert values[..n] + [values[n]] == values;
    }
  }

  /** The body of a numeric reference. */
  function Body(x: string, figures: string): string {
    "#" + x + figures
  }

  lemma BodyParts(x: string, figures: string, values: seq<nat>)
    requires x == "x" || x == "X" || x == ""
    requires figures != "" && Spelt(figures, values, if x == "" then 10 else 16)
    ensures var b := Body(x, figures);
            && IsNumeric(b) && Figures(b) == figures && Radix(b) == (if x == "" then 10 else 16)
            && ';' !in b && '&' !in b && figures[0] != '+' && Numeral(figures, Radix(b))
  {
    var b, radix := Body(x, figures), if x == "" then 10 else 16;
    forall i | 0 <= i < |figures|
      ensures figures[i] !in ";&+" && Digit(figures[i] as int, radix).Some? && figures[i] != 'x' && figures[i] != 'X'
    {
      FigureIs(figures[i], values[i], radix);
    }
    hide Figure, Digit, Spelt;
    assert |b| == 1 + |x| + |figures| && b[0] == '#';
    assert forall i | 0 <= i < |figures| :: b[1 + |x| + i] == figures[i];
    if x == "" {
      assert b[1] == figures[0];
      assert b[1..] == figures;
    } else {
      assert b[1] == x[0];
      assert b[2..] == figures;
    }
  }

  /**
   * Both decoders read a numeral by its places: it is the character with that number, if there is one. Otherwise Rust
   * keeps it as it is.
   */
  lemma NumeralIsRead(x: string, figures: string, values: seq<nat>, rest: string, finite: nat -> bool)
    requires forall n: nat | n < 0x11_0000 :: finite(n)
    requires x == "x" || x == "X" || x == ""
    requires figures != "" && Spelt(figures, values, if x == "" then 10 else 16)
    ensures var n := PlaceSum(values, if x == "" then 10 else 16);
            var reference := "&" + Body(x, figures) + ";";
            if n < 0xD800 || 0xE000 <= n < 0x11_0000 then
              && Decoded(reference + rest) == [n as char] + Decoded(rest)
              && TsDecoded(reference + rest, finite) == Prepend([n as char], TsDecoded(rest, finite))
            else Decoded(reference + rest) == reference + Decoded(rest)
  {
    var b, radix := Body(x, figures), if x == "" then 10 else 16;
    BodyParts(x, figures, values);
    NumeralValue(figures, values, radix);
    EntityOfNumber(b);
    RustNumberIs(figures, radix);
    var n := PlaceSum(values, radix);
    assert Entity(Codes(b)) == Scalar(n);
    assert Scalar(n).Some? ==> TsEntity(b, finite) == Becomes(n as char);
    assert "&" + b + ";" + rest == "&" + b + ";" + rest;
    DecodedBody(b, rest);
    TsBody(b, rest, finite);
    hide Entity, Codes, Decoded, TsDecoded, TsEntity, Body, Digits, RustNumber, Numeral, Spelt, PlaceSum;
    if Scalar(n).None? { KeptBody(b, rest); }
  }

  // ---- writing a number ----------------------------------------------------

  /** The places of a number, the last one being worth one. */
  function ValuesOf(n: nat, radix: nat): (values: seq<nat>)
    requires radix == 10 || radix == 16
    ensures values != [] && forall i | 0 <= i < |values| :: values[i] < radix
  {
    if n < radix then [n] else ValuesOf(n / radix, radix) + [n % radix]
  }

  /** A number in this radix, with these figures. */
  function Written(n: nat, radix: nat, figures: string): (w: string)
    requires (radix == 10 || radix == 16) && |figures| == 16
    ensures |w| == |ValuesOf(n, radix)|
  {
    seq(|ValuesOf(n, radix)|, i requires 0 <= i < |ValuesOf(n, radix)| => figures[ValuesOf(n, radix)[i]])
  }

  lemma {:induction false} ValuesSum(n: nat, radix: nat)
    requires radix == 10 || radix == 16
    ensures PlaceSum(ValuesOf(n, radix), radix) == n
  {
    if n < radix {
      assert PlaceSum([n], radix) == n * Power(radix, 0) + PlaceSum([n][1..], radix);
    } else {
      ValuesSum(n / radix, radix);
      hide PlaceSum;
      PlaceSumSnoc(ValuesOf(n / radix, radix), n % radix, radix);
    }
  }

  lemma WrittenIs(n: nat, radix: nat, figures: string)
    requires (radix == 10 || radix == 16) && (figures == LOWER_FIGURES || figures == UPPER_FIGURES)
    ensures Written(n, radix, figures) != ""
    ensures Spelt(Written(n, radix, figures), ValuesOf(n, radix), radix)
  {
    hide ValuesOf;
  }

  /** Every character written as a number, in hexadecimal with figures of either case or in decimal, is decoded. */
  lemma CharacterRoundTrip(c: char, x: string, figures: string, rest: string, finite: nat -> bool)
    requires forall n: nat | n < 0x11_0000 :: finite(n)
    requires (x == "x" || x == "X" || x == "") && (figures == LOWER_FIGURES || figures == UPPER_FIGURES)
    ensures var reference := "&#" + x + Written(c as int, if x == "" then 10 else 16, figures) + ";";
            && Decoded(reference + rest) == [c] + Decoded(rest)
            && TsDecoded(reference + rest, finite) == Prepend([c], TsDecoded(rest, finite))
  {
    var radix := if x == "" then 10 else 16;
    var w := Written(c as int, radix, figures);
    BodyText(x, w);
    CharIsScalar(c);
    hide *;
    WrittenIs(c as int, radix, figures);
    ValuesSum(c as int, radix);
    NumeralIsRead(x, w, ValuesOf(c as int, radix), rest, finite);
  }

  lemma BodyText(x: string, figures: string)
    ensures "&" + Body(x, figures) + ";" == "&#" + x + figures + ";"
  {
    assert "&#" == "&" + "#";
  }

  lemma CharIsScalar(c: char)
    ensures c as int < 0xD800 || 0xE000 <= c as int < 0x11_0000
    ensures c as int as char == c
  {
  }

  // ---- names ---------------------------------------------------------------

  /** The six names. */
  predicate Names(name: string, c: char) {
    || (name == "amp" && c == '&') || (name == "lt" && c == '<') || (name == "gt" && c == '>')
    || (name == "quot" && c == '"') || (name == "apos" && c == '\'') || (name == "nbsp" && c == ' ')
  }

  lemma NamesAre(name: string)
    ensures Named(name).Some? ==> Names(name, Named(name).value)
    ensures forall c :: Names(name, c) ==> Named(name) == Some(c)
  {
  }

  /** Both decoders know these names, Rust in lower case and TypeScript in any, and Rust no others. */
  lemma NamesAreRead(name: string, rest: string, finite: nat -> bool)
    requires ';' !in name && !("#" <= name)
    ensures (forall c :: !Names(name, c)) ==> Decoded("&" + name + ";" + rest) == "&" + Decoded(name + ";" + rest)
    ensures forall c | Names(name, c) :: Decoded("&" + name + ";" + rest) == [c] + Decoded(rest)
    ensures forall c | Names(Lower(name), c) ::
              TsDecoded("&" + name + ";" + rest, finite) == Prepend([c], TsDecoded(rest, finite))
  {
    assert !IsNumeric(name) by { assert name != "" && name[0] == '#' ==> "#" <= name; }
    EntityOfName(name);
    NamesAre(name);
    NamesAre(Lower(name));
    NameIff(name);
    hide Names, Named, Codes, Entity;
    DecodedBody(name, rest);
    TsBody(name, rest, finite);
    hide Decoded, TsDecoded, Lower, Letters, IsNumeric, InheritedName;
  }
}
