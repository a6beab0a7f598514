/** String operations that the mail text transformers share. Positions count characters. */
module Text {

  datatype Option<+T> = None | Some(value: T)

  type byte = b: int | 0 <= b < 256

  /** The Unicode White_Space property, which Rust's `trim` family uses. */
  predicate IsSpace(c: char) {
    || '\t' <= c <= '\r'
    || c == ' ' || c == '\U{0085}' || c == '\U{00A0}' || c == '\U{1680}'
    || '\U{2000}' <= c <= '\U{200A}'
    || c == '\U{2028}' || c == '\U{2029}' || c == '\U{202F}' || c == '\U{205F}' || c == '\U{3000}'
  }

  predicate Blank(s: string) {
    forall i | 0 <= i < |s| :: IsSpace(s[i])
  }

  function LowerChar(c: char): char {
    if 'A' <= c <= 'Z' then (c as int + 32) as char else c
  }

  function Lower(s: string): (r: string)
    ensures |r| == |s|
  {
    seq(|s|, i requires 0 <= i < |s| => LowerChar(s[i]))
  }

  lemma BlankLonger(s: string, n: nat)
    requires 1 <= n <= |s|
    ensures s[1..][n - 1..] == s[n..]
    ensures IsSpace(s[0]) && Blank(s[1..][..n - 1]) ==> Blank(s[..n])
  {
    hide IsSpace;
    assert forall i | 0 < i < n :: s[i] == s[1..][..n - 1][i - 1];
  }

  function TrimStart(s: string): (r: string)
    ensures |r| <= |s| && r == s[|s| - |r|..]
    ensures r != "" ==> !IsSpace(r[0])
    ensures Blank(s[..|s| - |r|])
  {
    hide IsSpace;
    if s != "" && IsSpace(s[0]) then
      var r := TrimStart(s[1..]);
      BlankLonger(s, |s| - |r|);
      r
    else s
  }

  function TrimEnd(s: string): (r: string)
    ensures r <= s
    ensures r != "" ==> !IsSpace(r[|r| - 1])
    ensures Blank(s[|r|..])
  {
    hide IsSpace;
    if s != "" && IsSpace(s[|s| - 1]) then TrimEnd(s[..|s| - 1]) else s
  }

  function Trim(s: string): string {
    TrimStart(TrimEnd(s))
  }

  /** White space and line terminators of ECMAScript, as `\s` and JavaScript's `trim` see them. */
  predicate JsSpace(c: char) {
    (IsSpace(c) && c != '\U{0085}') || c == '\U{FEFF}'
  }

  function JsTrimStart(s: string): string {
    if s != "" && JsSpace(s[0]) then JsTrimStart(s[1..]) else s
  }

  function JsTrimEnd(s: string): string {
    if s != "" && JsSpace(s[|s| - 1]) then JsTrimEnd(s[..|s| - 1]) else s
  }

  function JsTrim(s: string): string {
    JsTrimStart(JsTrimEnd(s))
  }

  predicate EndsWith<T(==)>(s: seq<T>, p: seq<T>) {
    |p| <= |s| && s[|s| - |p|..] == p
  }

  // ---- searching -----------------------------------------------------------

  predicate OccursAt<T(==)>(s: seq<T>, p: seq<T>, k: int) {
    0 <= k && k + |p| <= |s| && s[k..k + |p|] == p
  }

  ghost predicate Contains<T>(s: seq<T>, p: seq<T>) {
    exists k :: OccursAt(s, p, k)
  }

  lemma OccurrencesShift<T>(s: seq<T>, p: seq<T>)
    requires s != [] && !(p <= s)
    ensures forall j :: OccursAt(s, p, j) <==> j > 0 && OccursAt(s[1..], p, j - 1)
  {
    forall j: int ensures OccursAt(s, p, j) <==> j > 0 && OccursAt(s[1..], p, j - 1) {
      if 0 < j && j + |p| <= |s| {
        assert s[1..][j - 1..j - 1 + |p|] == s[j..j + |p|];
      }
      assert |p| <= |s| ==> s[0..|p|] == s[..|p|];
    }
  }

  /** The first position of `p` in `s`, or -1. */
  function Find<T(==)>(s: seq<T>, p: seq<T>): (r: int)
    ensures r == -1 || OccursAt(s, p, r)
    ensures forall k :: OccursAt(s, p, k) ==> 0 <= r <= k
  {
    assert p <= s <==> OccursAt(s, p, 0);
    assert forall k :: OccursAt(s, p, k) ==> 0 <= k;
    if p <= s then 0
    else if s == [] then -1
    else
      OccurrencesShift(s, p);
      hide OccursAt;
      var k := Find(s[1..], p);
      assert k >= 0 ==> OccursAt(s, p, k + 1);
      if k < 0 then -1 else k + 1
  }

  /** Text that follows does not move the first occurrence. */
  lemma FindInPrefix<T>(a: seq<T>, b: seq<T>, p: seq<T>)
    requires Find(a, p) >= 0
    ensures Find(a + b, p) == Find(a, p)
  {
    var k := Find(a, p);
    hide Find;
    assert OccursAt(a + b, p, k) by { assert (a + b)[k..k + |p|] == a[k..k + |p|]; }
    var j := Find(a + b, p);
    assert OccursAt(a, p, j) by { assert (a + b)[j..j + |p|] == a[j..j + |p|]; }
  }

  /** The first position of `c` in `s`, or |s|. */
  function IndexOf<T(==)>(s: seq<T>, c: T): (r: nat)
    ensures r <= |s| && forall i | 0 <= i < r :: s[i] != c
    ensures r < |s| ==> s[r] == c
  {
    if s == [] || s[0] == c then 0 else 1 + IndexOf(s[1..], c)
  }

  lemma IndexOfUnique<T>(s: seq<T>, c: T, k: nat)
    requires k <= |s| && (forall i | 0 <= i < k :: s[i] != c) && (k < |s| ==> s[k] == c)
    ensures IndexOf(s, c) == k
  {
  }

  /** An occurrence cannot span an element that the pattern does not use. */
  lemma NoOccurrenceAcross<T>(a: seq<T>, c: T, b: seq<T>, p: seq<T>)
    requires c !in p && p != []
    requires !Contains(a, p) && !Contains(b, p)
    ensures !Contains(a + [c] + b, p)
  {
    var s := a + [c] + b;
    forall k: int ensures !OccursAt(s, p, k) {
      if 0 <= k && k + |p| <= |s| {
        if k + |p| <= |a| {
          assert s[k..k + |p|] == a[k..k + |p|];
          assert !OccursAt(a, p, k);
        } else if k > |a| {
          assert s[k..k + |p|] == b[k - |a| - 1..k - |a| - 1 + |p|];
          assert !OccursAt(b, p, k - |a| - 1);
        } else {
          assert s[k..k + |p|][|a| - k] == c;
        }
      }
    }
  }

  /** An occurrence cannot start in a prefix that lacks the pattern's first element. */
  lemma NoOccurrenceAfterPrefix<T>(a: seq<T>, b: seq<T>, p: seq<T>)
    requires p != [] && p[0] !in a
    requires !Contains(b, p)
    ensures !Contains(a + b, p)
  {
    var s := a + b;
    forall k: int ensures !OccursAt(s, p, k) {
      if 0 <= k && k + |p| <= |s| {
        if k >= |a| {
          assert s[k..k + |p|] == b[k - |a|..k - |a| + |p|];
          assert !OccursAt(b, p, k - |a|);
        } else {
          assert s[k..k + |p|][0] == a[k];
        }
      }
    }
  }

  // ---- replacing -----------------------------------------------------------

  /** Every non-overlapping occurrence of `p`, found from the left, becomes `r`. */
  function Replace(s: string, p: string, r: string): string
    requires p != ""
  {
    if s == "" then ""
    else if p <= s then r + Replace(s[|p|..], p, r)
    else [s[0]] + Replace(s[1..], p, r)
  }

  /** A replacement puts nothing new in front of text without the replacement's first character. */
  lemma {:induction false} ReplaceKeepsPrefix(s: string, p: string, r: string, w: string)
    requires p != "" && r != "" && r[0] !in w && w <= Replace(s, p, r)
    ensures w <= s
  {
    assert s != "" && p <= s ==> Replace(s, p, r)[0] == r[0];
    if w != "" && s != "" && !(p <= s) {
      var rest := Replace(s[1..], p, r);
      assert w[1..] <= rest by { assert Replace(s, p, r)[1..] == rest; }
      ReplaceKeepsPrefix(s[1..], p, r, w[1..]);
      assert w == [s[0]] + w[1..] && s == [s[0]] + s[1..];
    }
  }

  // ---- lines ---------------------------------------------------------------

  function WithoutCr(s: string): string {
    if s != "" && s[|s| - 1] == '\r' then s[..|s| - 1] else s
  }

  /** Rust's `str::lines`: pieces ended by '\n', each losing its "\n" or "\r\n". */
  function Lines(s: string): seq<string>
    decreases |s|
  {
    if s == "" then []
    else
      var e := IndexOf(s, '\n');
      if e == |s| then [s] else [WithoutCr(s[..e])] + Lines(s[e + 1..])
  }

  function Join(parts: seq<string>, sep: string): string {
    if |parts| == 0 then ""
    else if |parts| == 1 then parts[0]
    else parts[0] + sep + Join(parts[1..], sep)
  }

  lemma {:induction false} JoinSnoc(parts: seq<string>, sep: string, last: string)
    requires parts != []
    ensures Join(parts + [last], sep) == Join(parts, sep) + sep + last
  {
    if |parts| > 1 {
      JoinSnoc(parts[1..], sep, last);
      assert (parts + [last])[1..] == parts[1..] + [last];
    } else {
      assert (parts + [last])[1..] == [last];
    }
  }

  /** One line in front of a text. */
  lemma LinesCons(line: string, rest: string)
    requires '\n' !in line
    ensures Lines(line + "\n" + rest) == [WithoutCr(line)] + Lines(rest)
  {
    var s := line + "\n" + rest;
    assert forall i | 0 <= i < |line| :: s[i] == line[i];
    IndexOfUnique(s, '\n', |line|);
    assert s[..|line|] == line && s[|line| + 1..] == rest;
  }

  /** A line ends at "\n" or at "\r\n", at the end of the text with or without one; an empty text has no lines. */
  lemma LinesAre(line: string, rest: string)
    requires '\n' !in line && (line == "" || line[|line| - 1] != '\r')
    ensures Lines(line + "\n" + rest) == [line] + Lines(rest)
    ensures Lines(line + "\r\n" + rest) == [line] + Lines(rest)
    ensures Lines(line) == if line == "" then [] else [line]
  {
    OneLine(line);
    LinesCons(line, rest);
    assert WithoutCr(line) == line;
    hide *;
    LinesCr(line, rest);
  }

  lemma LinesCr(line: string, rest: string)
    requires '\n' !in line
    ensures Lines(line + "\r\n" + rest) == [line] + Lines(rest)
  {
    var c := line + "\r";
    assert c[..|line|] == line && WithoutCr(c) == line && '\n' !in c;
    hide *;
    LinesCons(c, rest);
    assert c + "\n" + rest == line + "\r\n" + rest;
  }

  lemma OneLine(line: string)
    requires '\n' !in line
    ensures Lines(line) == if line == "" then [] else [line]
  {
    IndexOfUnique(line, '\n', |line|);
    hide IndexOf;
  }

  lemma {:induction false} TrimEndIgnoresBlank(s: string, w: string)
    requires Blank(w)
    ensures TrimEnd(s + w) == TrimEnd(s)
    decreases |w|
  {
    if w == "" {
      assert s + w == s;
    } else {
      assert (s + w)[..|s + w| - 1] == s + w[..|w| - 1];
      TrimEndIgnoresBlank(s, w[..|w| - 1]);
    }
  }

  /** Space after a text that does not end in space stays where it is. */
  lemma {:induction false} TrimStartAppend(s: string, w: string)
    requires s != "" && !IsSpace(s[|s| - 1])
    ensures TrimStart(s + w) == TrimStart(s) + w
    ensures TrimStart(s) != "" && TrimStart(s)[|TrimStart(s)| - 1] == s[|s| - 1]
  {
    if IsSpace(s[0]) {
      assert (s + w)[1..] == s[1..] + w;
      TrimStartAppend(s[1..], w);
    }
  }
}
