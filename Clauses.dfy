/**
 * The secondary regular-expression searches the parser runs over the
 * trailing text of an ACE line (`dscp +(\w+)`, `ttl +(\w+) +(\d+)`,
 * `\((\d+) +matches\)`, `cos +\d+`, ...). Every one of them is a sequence
 * of four kinds of piece: a literal, ` +`, `\w+` and `\d+`. A pattern here
 * is that sequence; its runs are taken whole (greedily), and the groups of
 * a match are the texts of its runs, in order.
 *
 * Taking runs whole is what a backtracking regular-expression engine ends
 * up doing for these patterns, because in each of them the piece after a
 * run cannot begin with a character of that run's class (`Unambiguous`);
 * MatchAtComplete shows that greedy runs then never miss a match.
 */
module Clauses {
  import opened Wrappers
  import opened Text

  /** One piece of a pattern: literal text, ` +`, `\w+` or `\d+`. */
  datatype Atom = Lit(text: string) | Blanks | WordRun | DigitRun

  /** `c` may stand in the run `a` (never in a literal). */
  predicate InClass(c: char, a: Atom) {
    match a
    case Lit(_) => false
    case Blanks => c == ' '
    case WordRun => IsWordChar(c)
    case DigitRun => IsDigitChar(c)
  }

  /** `g` is a text the run `a` matches: non-empty, all of `a`'s class. */
  predicate Fits(g: string, a: Atom) {
    g != [] && forall k :: 0 <= k < |g| ==> InClass(g[k], a)
  }

  /** The runs of a pattern, in order: one group per run. */
  function Holes(pat: seq<Atom>): (hs: seq<Atom>)
    ensures forall k :: 0 <= k < |hs| ==> !hs[k].Lit?
  {
    if pat == [] then []
    else if pat[0].Lit? then Holes(pat[1..])
    else [pat[0]] + Holes(pat[1..])
  }

  /** The text the pattern stands for when its runs are the groups `gs`. */
  function Render(pat: seq<Atom>, gs: seq<string>): string
    requires |gs| == |Holes(pat)|
  {
    if pat == [] then []
    else if pat[0].Lit? then pat[0].text + Render(pat[1..], gs)
    else gs[0] + Render(pat[1..], gs[1..])
  }

  /** A pattern whose every match is at least one character long. */
  predicate Consumes(pat: seq<Atom>) {
    pat != [] && (pat[0].Lit? ==> pat[0].text != [])
  }

  /** After every run, the next piece cannot begin inside the run's class. */
  predicate Unambiguous(pat: seq<Atom>) {
    forall k :: 0 <= k < |pat| - 1 && !pat[k].Lit? ==> StartsOutside(pat[k + 1], pat[k])
  }

  predicate StartsOutside(next: Atom, run: Atom) {
    match next
    case Lit(t) => t != [] && !InClass(t[0], run)
    case Blanks => !run.Blanks?
    case _ => run.Blanks?
  }

  /** The end of the longest run of `a`'s class that starts at `i`. */
  function RunEnd(s: string, i: nat, a: Atom): (j: nat)
    requires i <= |s|
    ensures i <= j <= |s|
    ensures forall k :: i <= k < j ==> InClass(s[k], a)
    ensures j == |s| || !InClass(s[j], a)
    decreases |s| - i
  {
    if i < |s| && InClass(s[i], a) then RunEnd(s, i + 1, a) else i
  }

  datatype Found = Found(start: nat, end: nat, groups: seq<string>)

  /** The match of `pat` that starts at `i`, if there is one; MatchAtSound
      shows that `s[i..end]` is the pattern's text with the groups in the
      runs' places. */
  function MatchAt(s: string, i: nat, pat: seq<Atom>): (r: Option<Found>)
    requires i <= |s|
    ensures r.Some? ==> r.value.start == i && i <= r.value.end <= |s|
    ensures r.Some? ==> |r.value.groups| == |Holes(pat)|
    ensures r.Some? && Consumes(pat) ==> r.value.end > i
    decreases |pat|
  {
    if pat == [] then Some(Found(i, i, []))
    else if pat[0].Lit? then
      var t := pat[0].text;
      if OccursAt(s, t, i) then
        match MatchAt(s, i + |t|, pat[1..])
        case None => None
        case Some(f) => Some(Found(i, f.end, f.groups))
      else None
    else
      var j := RunEnd(s, i, pat[0]);
      if j == i then None
      else
        match MatchAt(s, j, pat[1..])
        case None => None
        case Some(f) => Some(Found(i, f.end, [s[i..j]] + f.groups))
  }

  /** Every group of a match fits its run, and the groups in the runs'
      places give back the matched text. */
  lemma {:induction false} MatchAtSound(s: string, i: nat, pat: seq<Atom>)
    requires i <= |s|
    ensures var r := MatchAt(s, i, pat);
      r.Some? ==>
        (forall k :: 0 <= k < |r.value.groups| ==> Fits(r.value.groups[k], Holes(pat)[k])) &&
        Render(pat, r.value.groups) == s[i..r.value.end]
    decreases |pat|, 1
  {
    if pat == [] {
    } else if pat[0].Lit? {
      SoundLiteralCase(s, i, pat);
    } else {
      SoundRunCase(s, i, pat);
    }
  }

  /** MatchAtSound for a pattern that begins with a literal. */
  lemma {:induction false} SoundLiteralCase(s: string, i: nat, pat: seq<Atom>)
    requires i <= |s| && pat != [] && pat[0].Lit?
    ensures var r := MatchAt(s, i, pat);
      r.Some? ==>
        (forall k :: 0 <= k < |r.value.groups| ==> Fits(r.value.groups[k], Holes(pat)[k])) &&
        Render(pat, r.value.groups) == s[i..r.value.end]
    decreases |pat|, 0
  {
    var t := pat[0].text;
    if OccursAt(s, t, i) && MatchAt(s, i + |t|, pat[1..]).Some? {
      var f := MatchAt(s, i + |t|, pat[1..]).value;
      MatchAtSound(s, i + |t|, pat[1..]);
      SoundAfterLiteral(s, i, pat, f);
      assert MatchAt(s, i, pat) == Some(Found(i, f.end, f.groups));
    }
  }

  /** MatchAtSound for a pattern that begins with a run. */
  lemma {:induction false} SoundRunCase(s: string, i: nat, pat: seq<Atom>)
    requires i <= |s| && pat != [] && !pat[0].Lit?
    ensures var r := MatchAt(s, i, pat);
      r.Some? ==>
        (forall k :: 0 <= k < |r.value.groups| ==> Fits(r.value.groups[k], Holes(pat)[k])) &&
        Render(pat, r.value.groups) == s[i..r.value.end]
    decreases |pat|, 0
  {
    var j := RunEnd(s, i, pat[0]);
    if j != i && MatchAt(s, j, pat[1..]).Some? {
      var f := MatchAt(s, j, pat[1..]).value;
      MatchAtSound(s, j, pat[1..]);
      SoundAfterRun(s, i, j, pat, f);
      assert MatchAt(s, i, pat) == Some(Found(i, f.end, [s[i..j]] + f.groups));
    }
  }

  /** A sound match of the rest after a literal is a sound match. */
  lemma SoundAfterLiteral(s: string, i: nat, pat: seq<Atom>, f: Found)
    requires pat != [] && pat[0].Lit? && OccursAt(s, pat[0].text, i)
    requires i + |pat[0].text| <= f.end <= |s| && |f.groups| == |Holes(pat[1..])|
    requires forall k :: 0 <= k < |f.groups| ==> Fits(f.groups[k], Holes(pat[1..])[k])
    requires Render(pat[1..], f.groups) == s[i + |pat[0].text|..f.end]
    ensures forall k :: 0 <= k < |f.groups| ==> Fits(f.groups[k], Holes(pat)[k])
    ensures Render(pat, f.groups) == s[i..f.end]
  {
    var t := pat[0].text;
    assert Holes(pat) == Holes(pat[1..]);
    assert s[i..f.end] == s[i..i + |t|] + s[i + |t|..f.end];
  }

  /** A sound match of the rest after a run is a sound match. */
  lemma SoundAfterRun(s: string, i: nat, j: nat, pat: seq<Atom>, f: Found)
    requires pat != [] && !pat[0].Lit? && i < j <= f.end <= |s|
    requires forall m :: i <= m < j ==> InClass(s[m], pat[0])
    requires |f.groups| == |Holes(pat[1..])|
    requires forall k :: 0 <= k < |f.groups| ==> Fits(f.groups[k], Holes(pat[1..])[k])
    requires Render(pat[1..], f.groups) == s[j..f.end]
    ensures var gs := [s[i..j]] + f.groups;
      (forall k :: 0 <= k < |gs| ==> Fits(gs[k], Holes(pat)[k])) &&
      Render(pat, gs) == s[i..f.end]
  {
    var gs := [s[i..j]] + f.groups;
    assert Holes(pat) == [pat[0]] + Holes(pat[1..]);
    assert Fits(s[i..j], pat[0]) by {
      RunFits(s, i, j, pat[0]);
    }
    FitsCons(s[i..j], f.groups, pat[0], Holes(pat[1..]));
    assert Render(pat, gs) == s[i..f.end] by {
      assert gs[1..] == f.groups;
      assert s[i..f.end] == s[i..j] + s[j..f.end];
    }
  }

  /** A stretch of characters of a run's class fits the run. */
  lemma RunFits(s: string, i: nat, j: nat, a: Atom)
    requires i < j <= |s|
    requires forall m :: i <= m < j ==> InClass(s[m], a)
    ensures Fits(s[i..j], a)
  {
    forall m | 0 <= m < j - i ensures InClass(s[i..j][m], a) {
      assert s[i..j][m] == s[i + m];
    }
  }

  /** Groups that fit, one more in front. */
  lemma FitsCons(g: string, gs: seq<string>, a: Atom, hs: seq<Atom>)
    requires Fits(g, a) && |gs| == |hs|
    requires forall k :: 0 <= k < |gs| ==> Fits(gs[k], hs[k])
    ensures forall k :: 0 <= k < |gs| + 1 ==> Fits(([g] + gs)[k], ([a] + hs)[k])
  {
    forall k | 0 <= k < |gs| + 1 ensures Fits(([g] + gs)[k], ([a] + hs)[k]) {
      if k > 0 {
        assert ([g] + gs)[k] == gs[k - 1] && ([a] + hs)[k] == hs[k - 1];
      }
    }
  }

  /** The leftmost match that starts at `i` or later. */
  function SearchFrom(s: string, pat: seq<Atom>, i: nat): (r: Option<Found>)
    requires i <= |s|
    ensures r.Some? ==> i <= r.value.start <= |s| && MatchAt(s, r.value.start, pat) == r
    ensures r.Some? ==> forall j :: i <= j < r.value.start ==> MatchAt(s, j, pat).None?
    ensures r.None? ==> forall j :: i <= j <= |s| ==> MatchAt(s, j, pat).None?
    decreases |s| - i
  {
    var m := MatchAt(s, i, pat);
    if m.Some? then m
    else if i == |s| then None
    else SearchFrom(s, pat, i + 1)
  }

  /** `re.search(pattern, s)`: the leftmost match, or none. */
  function Search(s: string, pat: seq<Atom>): (r: Option<Found>)
    ensures r.Some? ==> r.value.start <= |s| && MatchAt(s, r.value.start, pat) == r
    ensures r.Some? ==> forall j :: 0 <= j < r.value.start ==> MatchAt(s, j, pat).None?
    ensures r.None? ==> forall j :: 0 <= j <= |s| ==> MatchAt(s, j, pat).None?
  {
    SearchFrom(s, pat, 0)
  }

  /** No match of `pat` starts at `i` or later (before the end of `s`). */
  predicate NoMatchFrom(s: string, pat: seq<Atom>, i: nat) {
    forall j :: i <= j < |s| ==> MatchAt(s, j, pat).None?
  }

  /** `re.sub(pattern, '', s[i..])`: every match, leftmost first and not
      overlapping, removed. Nothing changes exactly when nothing matches. */
  function EraseFrom(s: string, pat: seq<Atom>, i: nat): (r: string)
    requires i <= |s| && Consumes(pat)
    ensures |r| <= |s| - i
    ensures NoMatchFrom(s, pat, i) ==> r == s[i..]
    ensures !NoMatchFrom(s, pat, i) ==> |r| < |s| - i
    decreases |s| - i
  {
    if i == |s| then []
    else
      match MatchAt(s, i, pat)
      case Some(f) =>
        assert f.end > i && !NoMatchFrom(s, pat, i);
        EraseFrom(s, pat, f.end)
      case None =>
        var rest := EraseFrom(s, pat, i + 1);
        assert s[i..] == [s[i]] + s[i + 1..];
        assert NoMatchFrom(s, pat, i) <==> NoMatchFrom(s, pat, i + 1);
        [s[i]] + rest
  }

  /** `re.sub(pattern, '', s)`. */
  function Erase(s: string, pat: seq<Atom>): (r: string)
    requires Consumes(pat)
    ensures |r| <= |s|
    ensures r == s <==> NoMatchFrom(s, pat, 0)
  {
    assert s[0..] == s;
    EraseFrom(s, pat, 0)
  }

  /** Where no match starts, `re.sub` copies the text as it is. */
  lemma {:induction false} EraseKeeps(s: string, pat: seq<Atom>, i: nat, j: nat)
    requires i <= j <= |s| && Consumes(pat)
    requires forall k :: i <= k < j ==> MatchAt(s, k, pat).None?
    ensures EraseFrom(s, pat, i) == s[i..j] + EraseFrom(s, pat, j)
    decreases j - i
  {
    if i < j {
      EraseStep(s, pat, i);
      EraseKeeps(s, pat, i + 1, j);
      SliceCons(s, i, j, EraseFrom(s, pat, i), EraseFrom(s, pat, i + 1), EraseFrom(s, pat, j));
    }
  }

  /** One step of EraseKeeps, kept apart from EraseFrom's definition. */
  lemma SliceCons(s: string, i: nat, j: nat, e0: string, e1: string, r: string)
    requires i < j <= |s|
    requires e0 == [s[i]] + e1 && e1 == s[i + 1..j] + r
    ensures e0 == s[i..j] + r
  {
    assert s[i..j] == [s[i]] + s[i + 1..j];
  }

  /** A character where no match starts is copied. */
  lemma EraseStep(s: string, pat: seq<Atom>, i: nat)
    requires i < |s| && Consumes(pat) && MatchAt(s, i, pat).None?
    ensures EraseFrom(s, pat, i) == [s[i]] + EraseFrom(s, pat, i + 1)
  {
  }

  /** `re.sub` over a text with one match, from `i` to `end`, gives the
      text on either side of it. */
  lemma EraseOneMatch(s: string, pat: seq<Atom>, i: nat, f: Found)
    requires Consumes(pat) && i <= |s| && MatchAt(s, i, pat) == Some(f)
    requires forall k :: 0 <= k < i ==> MatchAt(s, k, pat).None?
    requires NoMatchFrom(s, pat, f.end)
    ensures Erase(s, pat) == s[..i] + s[f.end..]
  {
    EraseKeeps(s, pat, 0, i);
    assert s[0..] == s && s[0..i] == s[..i];
  }

  /** A pattern that begins with the keyword `w` matches only where `w`
      occurs: none after `e` when the text from `e` on lacks `w`. */
  lemma NoKeywordNoMatch(s: string, w: string, pat: seq<Atom>, e: nat)
    requires pat != [] && pat[0] == Lit(w) && e <= |s| && !Contains(s[e..], w)
    ensures NoMatchFrom(s, pat, e)
  {
    forall j | e <= j < |s| ensures MatchAt(s, j, pat).None? {
      if OccursAt(s, w, j) {
        assert s[e..][j - e..j - e + |w|] == s[j..j + |w|];
        assert OccursAt(s[e..], w, j - e);
      }
    }
  }

  /** A run stops at the first character outside its class. */
  lemma {:induction false} RunEndAt(s: string, i: nat, a: Atom, k: nat)
    requires i <= k <= |s|
    requires forall m :: i <= m < k ==> InClass(s[m], a)
    requires k == |s| || !InClass(s[k], a)
    ensures RunEnd(s, i, a) == k
    decreases k - i
  {
    if i < k {
      RunEndAt(s, i + 1, a, k);
    }
  }

  /** Greedy runs miss nothing: if the pattern matches at `i` in any way at
      all (some groups whose text is `s[i..e]`), MatchAt finds a match there. */
  lemma {:induction false} MatchAtComplete(s: string, i: nat, pat: seq<Atom>, gs: seq<string>, e: nat)
    requires Unambiguous(pat)
    requires i <= e <= |s| && |gs| == |Holes(pat)|
    requires forall k :: 0 <= k < |gs| ==> Fits(gs[k], Holes(pat)[k])
    requires Render(pat, gs) == s[i..e]
    ensures MatchAt(s, i, pat).Some?
    decreases |pat|
  {
    if pat != [] {
      UnambiguousTail(pat);
      if pat[0].Lit? {
        var t := LiteralThenRest(s, i, pat, gs, e);
        MatchAtComplete(s, i + |t|, pat[1..], gs, e);
        LiteralStep(s, i, pat, MatchAt(s, i + |t|, pat[1..]).value);
      } else {
        var n := RunThenRest(s, i, pat, gs, e);
        if pat[1..] == [] {
          var j := RunEnd(s, i, pat[0]);
          assert MatchAt(s, j, pat[1..]) == Some(Found(j, j, []));
        } else {
          MatchAtComplete(s, i + n, pat[1..], gs[1..], e);
          RunStep(s, i, pat, n, MatchAt(s, i + n, pat[1..]).value);
        }
      }
    }
  }

  /** The match ends at `e` for good: the pattern ends in a literal, or its
      last run cannot go on past `e`. */
  predicate EndsAt(s: string, e: nat, pat: seq<Atom>) {
    pat == [] || pat[|pat| - 1].Lit? || e >= |s| || !InClass(s[e], pat[|pat| - 1])
  }

  /** A match whose last run cannot be extended is the one MatchAt finds,
      groups and end included. */
  lemma {:induction false} MatchAtExact(s: string, i: nat, pat: seq<Atom>, gs: seq<string>, e: nat)
    requires Unambiguous(pat) && EndsAt(s, e, pat)
    requires i <= e <= |s| && |gs| == |Holes(pat)|
    requires forall k :: 0 <= k < |gs| ==> Fits(gs[k], Holes(pat)[k])
    requires Render(pat, gs) == s[i..e]
    ensures MatchAt(s, i, pat) == Some(Found(i, e, gs))
    decreases |pat|, 1
  {
    if pat == [] {
      assert s[i..e] == [];
    } else if pat[0].Lit? {
      ExactAfterLiteral(s, i, pat, gs, e);
    } else {
      ExactAfterRun(s, i, pat, gs, e);
    }
  }

  /** MatchAtExact for a pattern that begins with a literal. */
  lemma {:induction false} ExactAfterLiteral(s: string, i: nat, pat: seq<Atom>, gs: seq<string>, e: nat)
    requires pat != [] && pat[0].Lit?
    requires Unambiguous(pat) && EndsAt(s, e, pat)
    requires i <= e <= |s| && |gs| == |Holes(pat)|
    requires forall k :: 0 <= k < |gs| ==> Fits(gs[k], Holes(pat)[k])
    requires Render(pat, gs) == s[i..e]
    ensures MatchAt(s, i, pat) == Some(Found(i, e, gs))
    decreases |pat|, 0
  {
    UnambiguousTail(pat);
    assert EndsAt(s, e, pat[1..]);
    var t := LiteralThenRest(s, i, pat, gs, e);
    MatchAtExact(s, i + |t|, pat[1..], gs, e);
    LiteralStep(s, i, pat, Found(i + |t|, e, gs));
  }

  /** MatchAtExact for a pattern that begins with a run. */
  lemma {:induction false} ExactAfterRun(s: string, i: nat, pat: seq<Atom>, gs: seq<string>, e: nat)
    requires pat != [] && !pat[0].Lit?
    requires Unambiguous(pat) && EndsAt(s, e, pat)
    requires i <= e <= |s| && |gs| == |Holes(pat)|
    requires forall k :: 0 <= k < |gs| ==> Fits(gs[k], Holes(pat)[k])
    requires Render(pat, gs) == s[i..e]
    ensures MatchAt(s, i, pat) == Some(Found(i, e, gs))
    decreases |pat|, 0
  {
    UnambiguousTail(pat);
    var n := RunThenRest(s, i, pat, gs, e);
    if pat[1..] == [] {
      assert pat == [pat[0]];
      LastRunExact(s, i, pat[0], gs, e);
    } else {
      assert EndsAt(s, e, pat[1..]);
      ExactAfterFirstRun(s, i, pat, gs, e, n);
    }
  }

  /** MatchAtExact for a run followed by more of the pattern, once the run
      is known to stop at `i + n`. */
  lemma {:induction false} ExactAfterFirstRun(s: string, i: nat, pat: seq<Atom>, gs: seq<string>, e: nat, n: nat)
    requires pat != [] && !pat[0].Lit? && pat[1..] != [] && gs != []
    requires Unambiguous(pat[1..]) && EndsAt(s, e, pat[1..])
    requires i + n <= e <= |s| && n > 0 && |gs[1..]| == |Holes(pat[1..])|
    requires forall k :: 0 <= k < |gs[1..]| ==> Fits(gs[1..][k], Holes(pat[1..])[k])
    requires Render(pat[1..], gs[1..]) == s[i + n..e]
    requires RunEnd(s, i, pat[0]) == i + n && s[i..i + n] == gs[0]
    ensures MatchAt(s, i, pat) == Some(Found(i, e, gs))
    decreases |pat[1..]|, 2
  {
    MatchAtExact(s, i + n, pat[1..], gs[1..], e);
    RunGroupStep(s, i, pat, n, gs, e);
  }

  /** RunStep with the groups written as one sequence. */
  lemma RunGroupStep(s: string, i: nat, pat: seq<Atom>, n: nat, gs: seq<string>, e: nat)
    requires i + n <= |s|
    requires n > 0
    requires pat != [] && !pat[0].Lit?
    requires gs != []
    requires RunEnd(s, i, pat[0]) == i + n
    requires s[i..i + n] == gs[0]
    requires MatchAt(s, i + n, pat[1..]) == Some(Found(i + n, e, gs[1..]))
    ensures MatchAt(s, i, pat) == Some(Found(i, e, gs))
  {
    RunStep(s, i, pat, n, Found(i + n, e, gs[1..]));
    assert gs == [gs[0]] + gs[1..];
  }





  /** How MatchAt goes on after a literal that is there. */
  lemma LiteralStep(s: string, i: nat, pat: seq<Atom>, f: Found)
    requires i <= |s| && pat != [] && pat[0].Lit? && OccursAt(s, pat[0].text, i)
    requires MatchAt(s, i + |pat[0].text|, pat[1..]) == Some(f)
    ensures MatchAt(s, i, pat) == Some(Found(i, f.end, f.groups))
  {
  }

  /** How MatchAt goes on after a run that stops at `i + n`. */
  lemma RunStep(s: string, i: nat, pat: seq<Atom>, n: nat, f: Found)
    requires i + n <= |s| && n > 0 && pat != [] && !pat[0].Lit?
    requires RunEnd(s, i, pat[0]) == i + n
    requires MatchAt(s, i + n, pat[1..]) == Some(f)
    ensures MatchAt(s, i, pat) == Some(Found(i, f.end, [s[i..i + n]] + f.groups))
  {
  }

  /** A pattern that begins with the literal `t` and matches `s[i..e]`: `t`
      is there, and the rest of the pattern matches after it. */
  lemma LiteralThenRest(s: string, i: nat, pat: seq<Atom>, gs: seq<string>, e: nat) returns (t: string)
    requires pat != [] && pat[0].Lit? && i <= e <= |s| && |gs| == |Holes(pat)|
    requires Render(pat, gs) == s[i..e]
    ensures t == pat[0].text && OccursAt(s, t, i) && i + |t| <= e
    ensures Holes(pat[1..]) == Holes(pat)
    ensures |gs| == |Holes(pat[1..])| && Render(pat[1..], gs) == s[i + |t|..e]
  {
    t := pat[0].text;
    assert s[i..e] == t + Render(pat[1..], gs);
    assert s[i..e][..|t|] == t;
    assert s[i..i + |t|] == t;
    assert s[i + |t|..e] == s[i..e][|t|..];
  }

  /** A pattern that is one run, matching all of `s[i..e]` and unable to go
      on: the greedy run is exactly that text. */
  lemma LastRunExact(s: string, i: nat, run: Atom, gs: seq<string>, e: nat)
    requires !run.Lit? && i <= e <= |s| && |gs| == 1 && Fits(gs[0], run)
    requires gs[0] == s[i..e] && (e >= |s| || !InClass(s[e], run))
    ensures MatchAt(s, i, [run]) == Some(Found(i, e, gs))
  {
    assert forall m :: i <= m < e ==> InClass(s[m], run) by {
      forall m | i <= m < e ensures InClass(s[m], run) {
        assert s[m] == gs[0][m - i];
      }
    }
    RunEndAt(s, i, run, e);
    assert [run][1..] == [];
    assert e > i;
    assert MatchAt(s, e, [run][1..]) == Some(Found(e, e, []));
    assert gs == [s[i..e]] + [];
  }

  /** A pattern that begins with a literal cannot match where the first
      character of that literal is not. */
  lemma NoMatchBefore(s: string, pat: seq<Atom>, i: nat)
    requires i <= |s| && pat != [] && pat[0].Lit? && pat[0].text != []
    requires forall j :: 0 <= j < i ==> s[j] != pat[0].text[0]
    ensures forall j :: 0 <= j < i ==> MatchAt(s, j, pat).None?
  {
    var t := pat[0].text;
    forall j | 0 <= j < i ensures !OccursAt(s, t, j) {
      assert j + |t| > |s| || s[j..j + |t|][0] == s[j];
    }
  }

  /** `re.search` returns the match at `i` when none starts before it. */
  lemma SearchFindsAt(s: string, pat: seq<Atom>, i: nat, f: Found)
    requires i <= |s| && MatchAt(s, i, pat) == Some(f)
    requires forall j :: 0 <= j < i ==> MatchAt(s, j, pat).None?
    ensures Search(s, pat) == Some(f)
  {
  }

  lemma UnambiguousTail(pat: seq<Atom>)
    requires pat != [] && Unambiguous(pat)
    ensures Unambiguous(pat[1..])
  {
    var rest := pat[1..];
    forall k | 0 <= k < |rest| - 1 && !rest[k].Lit?
      ensures StartsOutside(rest[k + 1], rest[k])
    {
      assert rest[k] == pat[k + 1] && rest[k + 1] == pat[k + 2];
    }
  }

  /** A pattern that begins with a run and matches `s[i..e]` through the
      groups `gs`: the greedy run is exactly the first group when more
      pieces follow, and the rest of the pattern matches after it. */
  lemma RunThenRest(s: string, i: nat, pat: seq<Atom>, gs: seq<string>, e: nat) returns (n: nat)
    requires Unambiguous(pat) && pat != [] && !pat[0].Lit?
    requires i <= e <= |s| && |gs| == |Holes(pat)|
    requires forall k :: 0 <= k < |gs| ==> Fits(gs[k], Holes(pat)[k])
    requires Render(pat, gs) == s[i..e]
    ensures n == |gs[0]| && n > 0 && i + n <= e && s[i..i + n] == gs[0]
    ensures |gs[1..]| == |Holes(pat[1..])|
    ensures forall k :: 0 <= k < |gs[1..]| ==> Fits(gs[1..][k], Holes(pat[1..])[k])
    ensures Render(pat[1..], gs[1..]) == s[i + n..e]
    ensures pat[1..] == [] ==> RunEnd(s, i, pat[0]) > i
    ensures pat[1..] != [] ==> RunEnd(s, i, pat[0]) == i + n
  {
    var g := gs[0];
    n := |g|;
    var rest, tail := pat[1..], gs[1..];
    HolesAfterRun(pat, gs);
    assert Render(pat, gs) == g + Render(rest, tail);
    SplitText(s, i, e, g, Render(rest, tail));
    RunChars(s, i, g, pat[0]);
    if rest == [] {
      assert InClass(s[i], pat[0]);
    } else {
      assert StartsOutside(rest[0], pat[0]);
      NextPieceStopsRun(s, i + n, e, pat[0], rest, tail);
      RunEndAt(s, i, pat[0], i + n);
    }
  }

  /** Text `x + y` found at `i` splits at `i + |x|`. */
  lemma SplitText(s: string, i: nat, e: nat, x: string, y: string)
    requires i <= e <= |s| && s[i..e] == x + y
    ensures i + |x| <= e && s[i..i + |x|] == x && s[i + |x|..e] == y
  {
    assert s[i..e][..|x|] == x;
    assert s[i..e][|x|..] == y;
  }

  /** The groups after the first run fit the runs after the first. */
  lemma HolesAfterRun(pat: seq<Atom>, gs: seq<string>)
    requires pat != [] && !pat[0].Lit? && |gs| == |Holes(pat)|
    requires forall k :: 0 <= k < |gs| ==> Fits(gs[k], Holes(pat)[k])
    ensures Holes(pat) == [pat[0]] + Holes(pat[1..])
    ensures Fits(gs[0], pat[0]) && |gs[1..]| == |Holes(pat[1..])|
    ensures forall k :: 0 <= k < |gs[1..]| ==> Fits(gs[1..][k], Holes(pat[1..])[k])
  {
    assert Holes(pat)[0] == pat[0];
    forall k | 0 <= k < |gs[1..]| ensures Fits(gs[1..][k], Holes(pat[1..])[k]) {
      assert gs[1..][k] == gs[k + 1] && Holes(pat[1..])[k] == Holes(pat)[k + 1];
    }
  }

  /** The text of a group lies in its run's class. */
  lemma RunChars(s: string, i: nat, g: string, a: Atom)
    requires i + |g| <= |s| && s[i..i + |g|] == g && Fits(g, a)
    ensures forall m :: i <= m < i + |g| ==> InClass(s[m], a)
  {
    forall m | i <= m < i + |g| ensures InClass(s[m], a) {
      assert s[m] == s[i..i + |g|][m - i] == g[m - i];
    }
  }


  /** Where the next piece of an unambiguous pattern begins, the run before
      it cannot go on. */
  lemma NextPieceStopsRun(s: string, p: nat, e: nat, run: Atom, rest: seq<Atom>, gs: seq<string>)
    requires p <= e <= |s| && rest != [] && StartsOutside(rest[0], run)
    requires |gs| == |Holes(rest)|
    requires forall k :: 0 <= k < |gs| ==> Fits(gs[k], Holes(rest)[k])
    requires Render(rest, gs) == s[p..e]
    ensures p < |s| && !InClass(s[p], run)
  {
    if rest[0].Lit? {
      var t := rest[0].text;
      assert Render(rest, gs) == t + Render(rest[1..], gs);
      assert s[p..e][0] == t[0];
    } else {
      assert Holes(rest)[0] == rest[0];
      assert Fits(gs[0], rest[0]);
      assert Render(rest, gs) == gs[0] + Render(rest[1..], gs[1..]);
      assert s[p..e][0] == gs[0][0];
      assert InClass(gs[0][0], rest[0]);
    }
  }

  // ---------------------------------------------------------------------
  // The patterns of show_acl.py

  /** `\((\d+) +matches\)`: group 0 is the packet count. */
  const MatchesPattern: seq<Atom> := [Lit("("), DigitRun, Blanks, Lit("matches)")]
  /** `dscp +(\w+)`: group 1 is the code point name. */
  const DscpPattern: seq<Atom> := [Lit("dscp"), Blanks, WordRun]
  /** `ttl +(\w+) +(\d+)`: group 1 is the operator, group 3 the value. */
  const TtlPattern: seq<Atom> := [Lit("ttl"), Blanks, WordRun, Blanks, DigitRun]
  /** `precedence +(\w+)`: group 1 is the precedence word. */
  const PrecedencePattern: seq<Atom> := [Lit("precedence"), Blanks, WordRun]
  /** `^(\d+) +(\d+)`, tried at the start only: groups 0 and 2 are type and code. */
  const IcmpPattern: seq<Atom> := [DigitRun, Blanks, DigitRun]
  /** `cos +(\d+)`: group 1 is the class of service. */
  const CosPattern: seq<Atom> := [Lit("cos"), Blanks, DigitRun]
  /** `vlan +(\d+)`: group 1 is the VLAN number. */
  const VlanPattern: seq<Atom> := [Lit("vlan"), Blanks, DigitRun]
  /** `protocol\-family +(\w+)`: group 1 is the family name. */
  const FamilyPattern: seq<Atom> := [Lit("protocol-family"), Blanks, WordRun]
  /** `lsap +(\w+ +\w+)`: groups 1 to 3 together are the two LSAP words. */
  const LsapPattern: seq<Atom> := [Lit("lsap"), Blanks, WordRun, Blanks, WordRun]
}
