/**
 * The string primitives the access-list parser leans on, with the meaning
 * Python gives them on ASCII text: character classes (`\d`, `\w`,
 * whitespace), `str.isdigit`, `int(s)` and `str(n)` on decimal text,
 * `str.strip`, `str.split()`, the substring test `sub in s`, and the
 * ordering `sorted` uses on strings.
 */
module Text {

  /** The regular-expression class `\d` and `str.isdigit` on one character. */
  predicate IsDigitChar(c: char) {
    '0' <= c <= '9'
  }

  /** The regular-expression class `\w`: letters, digits and underscore. */
  predicate IsWordChar(c: char) {
    IsDigitChar(c) || ('a' <= c <= 'z') || ('A' <= c <= 'Z') || c == '_'
  }

  /** Whitespace as `str.strip` and `str.split` see it: space, tab, the line
      and form feeds, carriage return and the four separator controls. */
  predicate IsSpaceChar(c: char) {
    c == ' ' || (9 <= c as int <= 13) || (28 <= c as int <= 31)
  }

  predicate AllDigits(s: string) {
    forall i :: 0 <= i < |s| ==> IsDigitChar(s[i])
  }

  predicate AllSpace(s: string) {
    forall i :: 0 <= i < |s| ==> IsSpaceChar(s[i])
  }

  predicate NoSpace(s: string) {
    forall i :: 0 <= i < |s| ==> !IsSpaceChar(s[i])
  }

  /** `s.isdigit()`: at least one character, and every one a digit. */
  predicate IsDigits(s: string) {
    |s| > 0 && AllDigits(s)
  }

  /** Text that `\d+` matches; every ACE key has this form. */
  type Digits = s: string | IsDigits(s) witness "0"

  /** Decimal text as `str(n)` writes it: no leading zero unless it is "0". */
  predicate IsCanonical(s: string) {
    IsDigits(s) && (s[0] == '0' ==> |s| == 1)
  }

  function DigitValue(c: char): nat
    requires IsDigitChar(c)
  {
    c as int - '0' as int
  }

  function DigitChar(d: nat): (c: char)
    requires d < 10
    ensures IsDigitChar(c) && DigitValue(c) == d
  {
    ('0' as int + d) as char
  }

  function Pow10(n: nat): (p: nat)
    ensures p >= 1
  {
    if n == 0 then 1 else 10 * Pow10(n - 1)
  }

  /** `int(s)` on decimal text, read from the left as Python does. */
  function Value(s: string): nat
    requires AllDigits(s)
  {
    if s == [] then 0 else Value(s[..|s| - 1]) * 10 + DigitValue(s[|s| - 1])
  }

  /** `str(n)`: canonical decimal text that reads back as `n`. */
  function NatToString(n: nat): (s: string)
    ensures IsCanonical(s)
    ensures Value(s) == n
    decreases n
  {
    if n < 10 then [DigitChar(n)]
    else
      var p := NatToString(n / 10);
      var s := p + [DigitChar(n % 10)];
      assert s[..|s| - 1] == p;
      s
  }

  lemma {:induction false} ValueOfFirstDigit(s: string)
    requires AllDigits(s) && s != []
    ensures Value(s) == DigitValue(s[0]) * Pow10(|s| - 1) + Value(s[1..])
    decreases |s|
  {
    if |s| > 1 {
      var p := s[..|s| - 1];
      var d := DigitValue(s[|s| - 1]);
      ValueOfFirstDigit(p);
      assert s[1..][..|s[1..]| - 1] == p[1..];
      assert Value(s[1..]) == Value(p[1..]) * 10 + d;
      assert Pow10(|s| - 1) == 10 * Pow10(|p| - 1);
      ShiftDigit(DigitValue(s[0]), Pow10(|p| - 1), Value(p[1..]), d);
    }
  }

  /** Appending a digit on the right multiplies the leading digit's place
      by ten. */
  lemma ShiftDigit(a: int, p: int, v: int, d: int)
    ensures (a * p + v) * 10 + d == a * (10 * p) + (v * 10 + d)
  {
  }

  lemma {:induction false} ValueBelowPow10(s: string)
    requires AllDigits(s)
    ensures Value(s) < Pow10(|s|)
    decreases |s|
  {
    if s != [] {
      ValueBelowPow10(s[..|s| - 1]);
    }
  }

  /** On decimal text of one width, string order and numeric order agree. */
  lemma {:induction false} SameWidthOrder(a: string, b: string)
    requires AllDigits(a) && AllDigits(b) && |a| == |b|
    ensures LexLe(a, b) <==> Value(a) <= Value(b)
    decreases |a|
  {
    if a != [] {
      ValueOfFirstDigit(a);
      ValueOfFirstDigit(b);
      ValueBelowPow10(a[1..]);
      ValueBelowPow10(b[1..]);
      if a[0] < b[0] {
        LeadingDigitDecides(a, b);
      } else if b[0] < a[0] {
        LeadingDigitDecides(b, a);
      } else {
        SameWidthOrder(a[1..], b[1..]);
      }
    }
  }

  /** Of two numbers of one width, the one with the smaller leading digit is smaller. */
  lemma LeadingDigitDecides(a: string, b: string)
    requires AllDigits(a) && AllDigits(b) && |a| == |b| && a != [] && a[0] < b[0]
    ensures Value(a) < Value(b)
  {
    ValueOfFirstDigit(a);
    ValueOfFirstDigit(b);
    ValueBelowPow10(a[1..]);
    var p := Pow10(|a| - 1);
    var da, db := DigitValue(a[0]), DigitValue(b[0]);
    PlaceValueOrder(da, db, p, Value(a[1..]), Value(b[1..]));
  }

  lemma PlaceValueOrder(da: nat, db: nat, p: nat, va: nat, vb: nat)
    requires da < db && va < p
    ensures da * p + va < db * p + vb
  {
    assert (da + 1) * p == da * p + p;
    assert (da + 1) * p <= db * p;
  }

  /** `str(int(s)) == s` exactly when `s` is already canonical. */
  lemma {:induction false} CanonicalRoundTrip(s: string)
    requires IsCanonical(s)
    ensures NatToString(Value(s)) == s
    decreases |s|
  {
    if |s| > 1 {
      var p := s[..|s| - 1];
      var d := DigitValue(s[|s| - 1]);
      assert p[0] == s[0] != '0';
      NoLeadingZeroPositive(p);
      assert Value(s) == Value(p) * 10 + d;
      LastDigit(Value(p), d);
      CanonicalRoundTrip(p);
      assert NatToString(Value(s)) == p + [DigitChar(d)];
      assert s == p + [s[|s| - 1]];
    }
  }

  /** Decimal text that does not begin with "0" has a positive value. */
  lemma {:induction false} NoLeadingZeroPositive(s: string)
    requires IsDigits(s) && s[0] != '0'
    ensures Value(s) >= 1
    decreases |s|
  {
    if |s| > 1 {
      var p := s[..|s| - 1];
      assert p[0] == s[0];
      NoLeadingZeroPositive(p);
    }
  }

  /** The last digit of `10 * q + d` is `d`, and the rest is `q`. */
  lemma LastDigit(q: nat, d: nat)
    requires d < 10
    ensures (q * 10 + d) / 10 == q && (q * 10 + d) % 10 == d
  {
  }


  // ---------------------------------------------------------------------
  // Python's ordering of strings, as `sorted` uses it

  /** `a <= b` on Python strings: code-point order, a proper prefix first. */
  predicate LexLe(a: string, b: string)
    decreases |a|
  {
    a == [] || (b != [] && (a[0] < b[0] || (a[0] == b[0] && LexLe(a[1..], b[1..]))))
  }

  lemma {:induction false} LexLeReflexive(a: string)
    ensures LexLe(a, a)
    decreases |a|
  {
    if a != [] {
      LexLeReflexive(a[1..]);
    }
  }

  lemma {:induction false} LexLeTotal(a: string, b: string)
    ensures LexLe(a, b) || LexLe(b, a)
    decreases |a|
  {
    if a != [] && b != [] && a[0] == b[0] {
      LexLeTotal(a[1..], b[1..]);
    }
  }

  lemma {:induction false} LexLeAntisymmetric(a: string, b: string)
    requires LexLe(a, b) && LexLe(b, a)
    ensures a == b
    decreases |a|
  {
    if a != [] && b != [] {
      LexLeAntisymmetric(a[1..], b[1..]);
      assert a == [a[0]] + a[1..] && b == [b[0]] + b[1..];
    }
  }

  lemma {:induction false} LexLeTransitive(a: string, b: string, c: string)
    requires LexLe(a, b) && LexLe(b, c)
    ensures LexLe(a, c)
    decreases |a|
  {
    if a != [] && a[0] == b[0] && b[0] == c[0] {
      LexLeTransitive(a[1..], b[1..], c[1..]);
    }
  }

  /** `k` is `sorted(keys)[-1]`: a member that no other member follows. */
  predicate IsSortedLast(k: string, keys: set<string>) {
    k in keys && forall j :: j in keys ==> LexLe(j, k)
  }

  /** The last element of `sorted(keys)`. */
  ghost function SortedLast(keys: set<string>): (k: string)
    requires keys != {}
    ensures IsSortedLast(k, keys)
    decreases |keys|
  {
    var x :| x in keys;
    if keys == {x} then
      LexLeReflexive(x);
      x
    else
      var m := SortedLast(keys - {x});
      LexLeTotal(x, m);
      if LexLe(x, m) then
        m
      else
        LexLeReflexive(x);
        assert forall j :: j in keys - {x} ==> LexLe(j, x) by {
          forall j | j in keys - {x} ensures LexLe(j, x) {
            LexLeTransitive(j, m, x);
          }
        }
        x
  }

  /** Only one member of a set can be last in sorted order. */
  lemma SortedLastUnique(a: string, b: string, keys: set<string>)
    requires IsSortedLast(a, keys) && IsSortedLast(b, keys)
    ensures a == b
  {
    LexLeAntisymmetric(a, b);
  }

  /** `sorted(keys)[-1]`, computed by one pass over the keys. */
  method LastInSortedOrder(keys: set<string>) returns (last: string)
    requires keys != {}
    ensures IsSortedLast(last, keys)
  {
    last :| last in keys;
    LexLeReflexive(last);
    var rest := keys - {last};
    while rest != {}
      invariant rest <= keys && last in keys
      invariant forall j :: j in keys - rest ==> LexLe(j, last)
      decreases rest
    {
      var k :| k in rest;
      LexLeTotal(k, last);
      if !LexLe(k, last) {
        forall j | j in keys - rest ensures LexLe(j, k) {
          LexLeTransitive(j, last, k);
        }
        LexLeReflexive(k);
        last := k;
      }
      rest := rest - {k};
    }
  }

  // ---------------------------------------------------------------------
  // `str.strip()` and `str.split()`

  /** How many whitespace characters `s` begins with. */
  function LeadingSpaces(s: string): (n: nat)
    ensures n <= |s| && AllSpace(s[..n])
    ensures n < |s| ==> !IsSpaceChar(s[n])
    decreases |s|
  {
    if s != [] && IsSpaceChar(s[0]) then
      var n := 1 + LeadingSpaces(s[1..]);
      assert s[..n] == [s[0]] + s[1..][..n - 1];
      assert n < |s| ==> s[n] == s[1..][n - 1];
      n
    else 0
  }

  /** Where the whitespace that `s` ends with begins. */
  function TrailingSpaces(s: string): (n: nat)
    ensures n <= |s| && AllSpace(s[n..])
    ensures n > 0 ==> !IsSpaceChar(s[n - 1])
    decreases |s|
  {
    if s != [] && IsSpaceChar(s[|s| - 1]) then
      var p := s[..|s| - 1];
      var n := TrailingSpaces(p);
      assert s[n..] == p[n..] + [s[|s| - 1]];
      assert n > 0 ==> s[n - 1] == p[n - 1];
      n
    else |s|
  }

  /** `s.strip()`: `s` without the whitespace at either end. */
  function Strip(s: string): (r: string)
    ensures var i := LeadingSpaces(s);
      i + |r| <= |s| && s[i..i + |r|] == r && AllSpace(s[..i]) && AllSpace(s[i + |r|..])
    ensures r == [] || (!IsSpaceChar(r[0]) && !IsSpaceChar(r[|r| - 1]))
    ensures r == [] <==> AllSpace(s)
  {
    var i := LeadingSpaces(s);
    var t := s[i..];
    var j := TrailingSpaces(t);
    assert s[i + j..] == t[j..];
    if AllSpace(s) then
      LeadingSpacesOfBlank(s);
      t[..j]
    else
      assert i < |s|;
      t[..j]
  }

  lemma {:induction false} LeadingSpacesOfBlank(s: string)
    requires AllSpace(s)
    ensures LeadingSpaces(s) == |s|
    decreases |s|
  {
    if s != [] {
      LeadingSpacesOfBlank(s[1..]);
    }
  }

  /** The first word ends at the first whitespace character. */
  lemma {:induction false} WordEndAt(s: string, k: nat)
    requires k <= |s| && NoSpace(s[..k]) && (k < |s| ==> IsSpaceChar(s[k]))
    ensures WordEnd(s) == k
    decreases k
  {
    if k > 0 {
      assert s[..k][0] == s[0];
      assert s[1..][..k - 1] == s[..k][1..];
      WordEndAt(s[1..], k - 1);
    }
  }

  /** Where the first whitespace character of `s` is (or its length). */
  function WordEnd(s: string): (n: nat)
    ensures n <= |s| && NoSpace(s[..n])
    ensures n < |s| ==> IsSpaceChar(s[n])
    decreases |s|
  {
    if s != [] && !IsSpaceChar(s[0]) then
      var n := 1 + WordEnd(s[1..]);
      assert s[..n] == [s[0]] + s[1..][..n - 1];
      assert n < |s| ==> s[n] == s[1..][n - 1];
      n
    else 0
  }

  /** `s` with every whitespace character removed. */
  function Squeeze(s: string): string {
    if s == [] then []
    else (if IsSpaceChar(s[0]) then [] else [s[0]]) + Squeeze(s[1..])
  }

  function Concat(ws: seq<string>): string {
    if ws == [] then [] else ws[0] + Concat(ws[1..])
  }

  lemma ConcatCons(w: string, ws: seq<string>)
    ensures Concat([w] + ws) == w + Concat(ws)
  {
    assert ([w] + ws)[1..] == ws;
  }

  lemma {:induction false} SqueezeAppend(a: string, b: string)
    ensures Squeeze(a + b) == Squeeze(a) + Squeeze(b)
    decreases |a|
  {
    if a != [] {
      assert (a + b)[1..] == a[1..] + b;
      SqueezeAppend(a[1..], b);
    } else {
      assert a + b == b;
    }
  }

  lemma {:induction false} SqueezeAllSpace(s: string)
    requires AllSpace(s)
    ensures Squeeze(s) == []
    decreases |s|
  {
    if s != [] {
      SqueezeAllSpace(s[1..]);
    }
  }

  lemma {:induction false} SqueezeNoSpace(s: string)
    requires NoSpace(s)
    ensures Squeeze(s) == s
    decreases |s|
  {
    if s != [] {
      SqueezeNoSpace(s[1..]);
      assert s == [s[0]] + s[1..];
    }
  }

  /** Squeezing drops the leading whitespace. */
  lemma SqueezeSkipsLeading(s: string)
    ensures Squeeze(s) == Squeeze(s[LeadingSpaces(s)..])
  {
    var i := LeadingSpaces(s);
    assert s == s[..i] + s[i..];
    SqueezeAppend(s[..i], s[i..]);
    SqueezeAllSpace(s[..i]);
  }

  /** Squeezing keeps a first word whole. */
  lemma SqueezeWord(t: string)
    requires t != []
    ensures Squeeze(t) == t[..WordEnd(t)] + Squeeze(t[WordEnd(t)..])
  {
    var e := WordEnd(t);
    assert t == t[..e] + t[e..];
    SqueezeAppend(t[..e], t[e..]);
    SqueezeNoSpace(t[..e]);
  }

  /** Squeezing drops the leading whitespace and keeps the first word whole. */
  lemma SqueezeFirstWord(s: string)
    ensures var t := s[LeadingSpaces(s)..];
      Squeeze(s) == if t == [] then [] else t[..WordEnd(t)] + Squeeze(t[WordEnd(t)..])
  {
    SqueezeSkipsLeading(s);
    var t := s[LeadingSpaces(s)..];
    if t != [] {
      SqueezeWord(t);
    }
  }

  /** `s.split()`: the maximal runs of non-whitespace, in order. Together the
      words hold exactly the non-whitespace characters of `s`, and each word
      ends where `s` has whitespace or ends (UnwordsInjective: no other
      list of words does this). */
  function Words(s: string): (ws: seq<string>)
    ensures forall k :: 0 <= k < |ws| ==> ws[k] != [] && NoSpace(ws[k])
    ensures Concat(ws) == Squeeze(s)
    ensures Unwords(ws) == Spaced(s)
    decreases |s|
  {
    var t := s[LeadingSpaces(s)..];
    SqueezeFirstWord(s);
    SpacedSkipsLeading(s);
    if t == [] then
      []
    else
      var e := WordEnd(t);
      assert e > 0;
      var rest := Words(t[e..]);
      ConcatCons(t[..e], rest);
      SpacedWord(t);
      UnwordsCons(t[..e], rest);
      [t[..e]] + rest
  }

  /** Each word followed by one blank. */
  function Unwords(ws: seq<string>): string {
    if ws == [] then [] else ws[0] + " " + Unwords(ws[1..])
  }

  lemma UnwordsCons(w: string, ws: seq<string>)
    ensures Unwords([w] + ws) == w + " " + Unwords(ws)
  {
    assert ([w] + ws)[1..] == ws;
  }

  /** `s` without its whitespace, with one blank after the last character
      of every run of non-whitespace. */
  function Spaced(s: string): string {
    if s == [] then []
    else if IsSpaceChar(s[0]) then Spaced(s[1..])
    else if |s| == 1 || IsSpaceChar(s[1]) then [s[0], ' '] + Spaced(s[1..])
    else [s[0]] + Spaced(s[1..])
  }

  lemma {:induction false} SpacedSkipsLeading(s: string)
    ensures Spaced(s) == Spaced(s[LeadingSpaces(s)..])
    decreases |s|
  {
    if s != [] && IsSpaceChar(s[0]) {
      SpacedSkipsLeading(s[1..]);
      assert s[LeadingSpaces(s)..] == s[1..][LeadingSpaces(s[1..])..];
    } else {
      assert s[0..] == s;
    }
  }

  /** The first word comes out whole, with its blank after it. */
  lemma {:induction false} SpacedWord(t: string)
    requires t != [] && !IsSpaceChar(t[0])
    ensures Spaced(t) == t[..WordEnd(t)] + " " + Spaced(t[WordEnd(t)..])
    decreases |t|
  {
    var e := WordEnd(t);
    var r := t[1..];
    if |t| == 1 || IsSpaceChar(t[1]) {
      assert WordEnd(r) == 0;
      assert t[..1] + " " == [t[0], ' '] && t[1..] == r;
    } else {
      SpacedWord(r);
      var e1 := WordEnd(r);
      assert e == 1 + e1;
      assert t[..e] == [t[0]] + r[..e1];
      assert t[e..] == r[e1..];
      calc {
        Spaced(t);
        [t[0]] + Spaced(r);
        [t[0]] + (r[..e1] + " " + Spaced(r[e1..]));
        ([t[0]] + r[..e1]) + " " + Spaced(r[e1..]);
      }
    }
  }

  /** Lists of non-empty words without whitespace that come out the same
      with a blank after each word are the same list. */
  lemma {:induction false} UnwordsInjective(a: seq<string>, b: seq<string>)
    requires forall k :: 0 <= k < |a| ==> a[k] != [] && NoSpace(a[k])
    requires forall k :: 0 <= k < |b| ==> b[k] != [] && NoSpace(b[k])
    requires Unwords(a) == Unwords(b)
    ensures a == b
    decreases |a|
  {
    if a != [] && b != [] {
      var x, y := a[0], b[0];
      var u, v := Unwords(a[1..]), Unwords(b[1..]);
      assert x + " " + u == y + " " + v;
      FirstWordAgrees(x, y, u, v);
      assert u == (x + " " + u)[|x| + 1..];
      assert v == (y + " " + v)[|y| + 1..];
      UnwordsInjective(a[1..], b[1..]);
      assert a == [x] + a[1..] && b == [y] + b[1..];
    }
  }

  /** A shorter word and its blank cannot start a longer word. */
  lemma BlankInsideWord(y: string, v: string, x: string, u: string)
    requires NoSpace(y) && |x| < |y|
    ensures x + " " + u != y + " " + v
  {
    assert (x + " " + u)[|x|] == ' ';
    assert (y + " " + v)[|x|] == y[|x|];
  }

  /** Two words each followed by a blank: the same text means the same word. */
  lemma FirstWordAgrees(x: string, y: string, u: string, v: string)
    requires NoSpace(x) && NoSpace(y) && x + " " + u == y + " " + v
    ensures x == y
  {
    var s := x + " " + u;
    if |x| < |y| {
      BlankInsideWord(y, v, x, u);
    } else if |y| < |x| {
      BlankInsideWord(x, u, y, v);
    } else {
      assert x == s[..|x|] == y;
    }
  }

  /** A single word splits into itself. */
  lemma WordsOfWord(a: string)
    requires a != [] && NoSpace(a)
    ensures Words(a) == [a]
  {
    assert LeadingSpaces(a) == 0;
    assert a[0..] == a && a[..|a|] == a;
    WordEndAt(a, |a|);
    assert a[|a|..] == [];
    assert Words(a[|a|..]) == [];
  }

  /** Two words joined by one space split back into those two words. */
  lemma WordsOfPair(a: string, b: string)
    requires a != [] && NoSpace(a) && b != [] && NoSpace(b)
    ensures Words(a + " " + b) == [a, b]
  {
    var t := " " + b;
    assert a + " " + b == a + t;
    var ws := Words(t);
    assert ws == [b] by {
      BlankThenWord(b);
    }
    assert Words(a + t) == [a] + ws by {
      WordThenRest(a, t);
    }
  }

  /** A word followed by text that begins with a blank: the word is the
      first word, and the text after it holds the rest. */
  lemma WordThenRest(a: string, t: string)
    requires a != [] && NoSpace(a) && t != [] && IsSpaceChar(t[0])
    ensures Words(a + t) == [a] + Words(t)
  {
    var s := a + t;
    assert s[0] == a[0];
    assert LeadingSpaces(s) == 0;
    assert s[0..] == s;
    assert s[..|a|] == a;
    assert s[|a|] == t[0];
    WordEndAt(s, |a|);
    assert s[|a|..] == t;
  }

  /** One blank, then a word. */
  lemma BlankThenWord(b: string)
    requires b != [] && NoSpace(b)
    ensures Words(" " + b) == [b]
  {
    var t := " " + b;
    assert t[1..] == b;
    assert LeadingSpaces(b) == 0;
    assert LeadingSpaces(t) == 1;
    WordsOfWord(b);
    assert t[1..] == b;
    assert Words(t) == Words(b);
  }

  // ---------------------------------------------------------------------
  // `sub in s`

  predicate OccursAt(s: string, sub: string, i: nat) {
    i + |sub| <= |s| && s[i..i + |sub|] == sub
  }

  function ContainsFrom(s: string, sub: string, i: nat): (b: bool)
    requires i <= |s|
    ensures b <==> exists j :: i <= j <= |s| && OccursAt(s, sub, j)
    decreases |s| - i
  {
    if OccursAt(s, sub, i) then true
    else if i == |s| then false
    else ContainsFrom(s, sub, i + 1)
  }

  /** Python's `sub in s`: `sub` occurs somewhere in `s`. */
  function Contains(s: string, sub: string): (b: bool)
    ensures b <==> exists j :: 0 <= j <= |s| && OccursAt(s, sub, j)
  {
    ContainsFrom(s, sub, 0)
  }

  predicate Lacks(s: string, c: char) {
    forall k :: 0 <= k < |s| ==> s[k] != c
  }

  /** A word can only straddle `a + b`, or lie inside `a`, where `a` has its
      first letter; when `a` lacks that letter, the word is in `a + b` only
      if it is in `b`. */
  lemma ContainsAfter(a: string, b: string, w: string)
    requires w != [] && Lacks(a, w[0])
    ensures Contains(a + b, w) ==> Contains(b, w)
  {
    if Contains(a + b, w) {
      var s := a + b;
      var j :| 0 <= j <= |s| && OccursAt(s, w, j);
      assert s[j..j + |w|][0] == s[j];
      assert s[j..j + |w|] == b[j - |a|..j - |a| + |w|];
      assert OccursAt(b, w, j - |a|);
    }
  }

  /** Leading blanks do not reach the stripped text. */
  lemma StripBlankFirst(t: string)
    ensures Strip(" " + t) == Strip(t)
  {
    var s := " " + t;
    assert s[1..] == t;
    assert s[LeadingSpaces(s)..] == t[LeadingSpaces(t)..];
  }

  /** No proper suffix of `w` is also a prefix of it: two occurrences of
      `w` can never overlap. */
  predicate NoSelfOverlap(w: string) {
    forall d :: 0 < d < |w| ==> w[d..] != w[..|w| - d]
  }

  /** When `pre` does not contain `w` and `w` comes right after it, `w`
      occurs nowhere inside `pre`: the first occurrence is the one after. */
  lemma FirstOccurrence(pre: string, w: string, rest: string, j: nat)
    requires NoSelfOverlap(w) && !Contains(pre, w) && j < |pre|
    ensures !OccursAt(pre + w + rest, w, j)
  {
    var s := pre + w + rest;
    if OccursAt(s, w, j) {
      if j + |w| <= |pre| {
        assert s[j..j + |w|] == pre[j..j + |w|];
        assert OccursAt(pre, w, j);
      } else {
        assert s[|pre|..|pre| + |w|] == w;
        OverlapSlices(s, w, j, |pre|);
      }
    }
  }

  /** Two occurrences of `w`, at `i` and at `k` inside the first: the part
      of `w` after `k - i` is also its beginning. */
  lemma OverlapSlices(s: string, w: string, i: nat, k: nat)
    requires i < k < i + |w| && OccursAt(s, w, i) && OccursAt(s, w, k)
    ensures w[k - i..] == w[..|w| - (k - i)]
  {
    assert w[k - i..] == s[k..i + |w|];
    assert w[..|w| - (k - i)] == s[k..i + |w|];
  }
}
