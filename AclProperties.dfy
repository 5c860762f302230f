/**
 * What the parser promises, proved about the model: auto-numbering and its
 * wrap-around, the reading of each trailing clause, port translation, the
 * source-network text, and the behaviour of the line loop (ACE lines before
 * any header fail, unclassified lines change nothing, names stay equal to
 * their keys).
 */
module AclProperties {
  import opened Wrappers
  import opened Text
  import opened Clauses
  import opened AclTables
  import opened AclModel
  import opened AclBuild
  import opened AclParser

  // ---------------------------------------------------------------------
  // Auto-numbering

  /** The first standard or MAC ACE of a list is numbered "10". */
  lemma FirstNumberIsTen(aces: map<Digits, Ace>)
    requires aces == map[]
    ensures NextNumber(aces) == "10"
  {
    var keys := NumberingKeys(aces);
    assert keys == {"0"};
    assert SortedLast(keys) == "0";
    assert Value("0") == 0;
    CanonicalRoundTrip("10");
  }

  /** While every key has the same number of digits, sorting as text is
      sorting by value: the next number is ten more than the largest key,
      so it is a new key. */
  lemma SameWidthNumbering(aces: map<Digits, Ace>, w: nat)
    requires aces != map[] && forall k :: k in aces ==> |k| == w
    ensures NextNumber(aces) !in aces
    ensures forall k :: k in aces ==> Value(k) + 10 <= Value(NextNumber(aces))
    ensures exists k :: k in aces && Value(k) + 10 == Value(NextNumber(aces))
  {
    var keys := NumberingKeys(aces);
    var last := SortedLast(keys);
    assert keys == aces.Keys;
    forall k | k in aces ensures Value(k) <= Value(last) {
      SameWidthOrder(k, last);
    }
    assert last in aces;
  }

  /** The ten keys "10", "20", ..., "100". */
  const TenKeys: set<string> := {"10", "20", "30", "40", "50", "60", "70", "80", "90", "100"}

  /** Every one of the ten keys sorts no later than "90". */
  lemma NinetySortsLast(j: string)
    requires j in TenKeys
    ensures LexLe(j, "90")
  {
    if j == "90" {
      LexLeReflexive("90");
    } else {
      assert j[0] < '9';
    }
  }

  /** Of the ten keys, "90" sorts last. */
  lemma NinetyIsSortedLast()
    ensures IsSortedLast("90", TenKeys)
  {
    forall j | j in TenKeys ensures LexLe(j, "90") {
      NinetySortsLast(j);
    }
  }

  /** Ten more than the value of "90" is written "100". */
  lemma TenMoreThanNinety()
    ensures NatToString(Value("90") + 10) == "100"
  {
    assert Value("90") == 90 by {
      assert Value("9") == 9;
    }
    CanonicalRoundTrip("100");
  }

  /** A list with ACEs is numbered from the key of its own that sorts
      last. */
  lemma NextNumberOfKeys(aces: map<Digits, Ace>, keys: set<string>, last: string)
    requires aces.Keys == keys && IsSortedLast(last, keys)
    ensures NextNumber(aces) == NatToString(Value(last) + 10)
  {
    assert last in aces;
    SortedLastUnique(last, SortedLast(keys), keys);
  }

  /** After the keys "10" to "100", "90" sorts last, so the eleventh number
      is "100" again. */
  lemma EleventhNumberRepeats(aces: map<Digits, Ace>)
    requires aces.Keys == TenKeys
    ensures NextNumber(aces) == "100"
  {
    NinetyIsSortedLast();
    NextNumberOfKeys(aces, TenKeys, "90");
    TenMoreThanNinety();
  }

  /** So the eleventh standard ACE merges into the entry "100": the list
      keeps its ten keys, and entry "100" keeps its forwarding action and
      gains the new source network. */
  lemma EleventhStandardAceMerges(acl: Acl, forwarding: string, src: string, wildcard: Option<string>)
    requires acl.aces.Keys == TenKeys
    ensures NextNumber(acl.aces) == "100"
    ensures var r := AddStandard(acl, "100", forwarding, src, wildcard);
      r.aces.Keys == acl.aces.Keys &&
      r.aces["100"].actions == acl.aces["100"].actions &&
      SourceNetwork(src, wildcard) in r.aces["100"].matches.l3["ipv4"].sourceNetwork
  {
    EleventhNumberRepeats(acl.aces);
    var key := NextNumber(acl.aces);
    assert key == "100" && key in acl.aces;
    var r := AddStandard(acl, key, forwarding, src, wildcard);
    assert r.aces.Keys == acl.aces.Keys + {key};
    var was, now := acl.aces[key], r.aces[key];
    assert "ipv4" in now.matches.l3.Keys;
    assert SourceNetwork(src, wildcard) in now.matches.l3["ipv4"].sourceNetwork;
  }

  /** A standard line's own sequence number plays no part. */
  lemma StandardIgnoresItsNumber(st: State, a: Option<Digits>, b: Option<Digits>, forwarding: string, src: string, wildcard: Option<string>)
    requires Valid(st)
    ensures Step(st, Standard(a, forwarding, src, wildcard)) == Step(st, Standard(b, forwarding, src, wildcard))
  {
  }

  // ---------------------------------------------------------------------
  // Source networks

  /** The source-network text splits back into the address and the mask it
      was built from: the wildcard bits, "0.0.0.0" for a host, or nothing
      for `any`. */
  lemma SourceNetworkSplits(src: string, wildcard: Option<string>)
    requires src != [] && NoSpace(src)
    requires wildcard.Some? ==> NoSpace(wildcard.value)
    ensures Words(SourceNetwork(src, wildcard)) ==
      if Truthy(wildcard) then [src, wildcard.value]
      else if src == "any" then ["any"]
      else [src, "0.0.0.0"]
  {
    if Truthy(wildcard) {
      WordsOfPair(src, wildcard.value);
    } else if src == "any" {
      WordsOfWord(src);
    } else {
      assert NoSpace("0.0.0.0");
      WordsOfPair(src, "0.0.0.0");
    }
  }

  // ---------------------------------------------------------------------
  // Trailing clauses

  predicate AllWord(s: string) {
    forall k :: 0 <= k < |s| ==> IsWordChar(s[k])
  }

  /** Rendering a pattern that starts with a literal. */
  lemma RenderLit(t: string, rest: seq<Atom>, gs: seq<string>)
    requires |gs| == |Holes(rest)|
    ensures Holes([Lit(t)] + rest) == Holes(rest)
    ensures Render([Lit(t)] + rest, gs) == t + Render(rest, gs)
  {
    assert ([Lit(t)] + rest)[1..] == rest;
  }

  /** Rendering a pattern that starts with a run. */
  lemma RenderRun(a: Atom, rest: seq<Atom>, g: string, gs: seq<string>)
    requires !a.Lit? && |gs| == |Holes(rest)|
    ensures Holes([a] + rest) == [a] + Holes(rest)
    ensures Render([a] + rest, [g] + gs) == g + Render(rest, gs)
  {
    assert ([a] + rest)[1..] == rest;
    assert ([g] + gs)[1..] == gs;
  }

  /** A keyword, blanks and one run. */
  lemma RenderKeywordRun(t: string, run: Atom, b: string, w: string)
    requires !run.Lit?
    ensures Holes([Lit(t), Blanks, run]) == [Blanks, run]
    ensures Render([Lit(t), Blanks, run], [b, w]) == t + b + w
  {
    RenderRun(run, [], w, []);
    RenderRun(Blanks, [run], b, [w]);
    RenderLit(t, [Blanks, run], [b, w]);
    assert [Lit(t)] + ([Blanks] + [run]) == [Lit(t), Blanks, run];
    assert [b] + [w] == [b, w];
  }

  /** A clause whose pattern matches at `i`, and nowhere before it, is read
      from exactly that match. */
  lemma ClauseFound(left: string, word: string, pat: seq<Atom>, i: nat, gs: seq<string>, e: nat, at: nat)
    requires Unambiguous(pat)
    requires i <= e <= |left| && |gs| == |Holes(pat)|
    requires forall k :: 0 <= k < |gs| ==> Fits(gs[k], Holes(pat)[k])
    requires Render(pat, gs) == left[i..e] && EndsAt(left, e, pat)
    requires forall j :: 0 <= j < i ==> MatchAt(left, j, pat).None?
    requires OccursAt(left, word, at)
    ensures Clause(left, word, pat) == Ok(Some(gs))
  {
    MatchAtExact(left, i, pat, gs, e);
    SearchFindsAt(left, pat, i, Found(i, e, gs));
    assert Contains(left, word);
  }

  /** A pattern that begins with the keyword `w` has no match inside text
      that does not contain `w`, when `w` comes right after that text. */
  lemma NoMatchInside(pre: string, w: string, rest: string, pat: seq<Atom>)
    requires pat != [] && pat[0] == Lit(w) && NoSelfOverlap(w) && !Contains(pre, w)
    ensures forall j :: 0 <= j < |pre| ==> MatchAt(pre + w + rest, j, pat).None?
  {
    forall j | 0 <= j < |pre| ensures MatchAt(pre + w + rest, j, pat).None? {
      FirstOccurrence(pre, w, rest, j);
    }
  }

  /** A clause that begins with its keyword, read from text where the
      keyword first occurs right after `pre` and the match starts there. */
  lemma KeywordClauseRead(left: string, pre: string, kw: string, rest: string, pat: seq<Atom>,
                          gs: seq<string>, e: nat)
    requires Unambiguous(pat) && pat != [] && pat[0] == Lit(kw)
    requires NoSelfOverlap(kw) && !Contains(pre, kw) && left == pre + kw + rest
    requires |gs| == |Holes(pat)| && forall k :: 0 <= k < |gs| ==> Fits(gs[k], Holes(pat)[k])
    requires |pre| + |kw| <= e <= |left| && Render(pat, gs) == left[|pre|..e] && EndsAt(left, e, pat)
    ensures Clause(left, kw, pat) == Ok(Some(gs))
  {
    NoMatchInside(pre, kw, rest, pat);
    assert left[|pre|..|pre| + |kw|] == kw;
    ClauseFound(left, kw, pat, |pre|, gs, e, |pre|);
  }

  /** `kw W`, the keyword first occurring right after `pre`, gives the word W. */
  lemma KeywordWordRead(left: string, pre: string, kw: string, w: string, tail: string)
    requires kw != [] && NoSelfOverlap(kw) && !Contains(pre, kw) && w != [] && AllWord(w)
    requires tail == [] || !IsWordChar(tail[0])
    requires left == pre + kw + " " + w + tail
    ensures Clause(left, kw, [Lit(kw), Blanks, WordRun]) == Ok(Some([" ", w]))
  {
    var e := |pre| + |kw| + 1 + |w|;
    RenderKeywordRun(kw, WordRun, " ", w);
    assert left[|pre|..e] == kw + " " + w;
    assert left == pre + kw + (" " + w + tail);
    KeywordClauseRead(left, pre, kw, " " + w + tail, [Lit(kw), Blanks, WordRun], [" ", w], e);
  }

  /** A keyword whose first letter does not come back cannot overlap itself. */
  lemma FreshFirstLetter(w: string)
    requires w != [] && forall d :: 0 < d < |w| ==> w[d] != w[0]
    ensures NoSelfOverlap(w)
  {
    forall d | 0 < d < |w| ensures w[d..] != w[..|w| - d] {
      assert w[d..][0] == w[d] && w[..|w| - d][0] == w[0];
    }
  }

  /** None of the l3 keywords overlaps itself. */
  lemma L3KeywordsDoNotOverlap()
    ensures NoSelfOverlap("dscp") && NoSelfOverlap("ttl") && NoSelfOverlap("precedence")
  {
    FreshFirstLetter("dscp");
    FreshFirstLetter("precedence");
    var t := "ttl";
    forall d | 0 < d < |t| ensures t[d..] != t[..|t| - d] {
      if d == 1 {
        assert t[1..][1] != t[..2][1];
      } else {
        assert t[2..][0] != t[..1][0];
      }
    }
  }

  /** `(N matches)` after text without a parenthesis gives N packets. */
  lemma MatchedPacketsRead(pre: string, digits: string, tail: string)
    requires Lacks(pre, '(') && IsDigits(digits)
    ensures MatchedPackets(pre + "(" + digits + " matches)" + tail) == Ok(Some(Value(digits)))
  {
    var left := pre + "(" + digits + " matches)" + tail;
    var gs := [digits, " "];
    assert Clause(left, " matches", MatchesPattern) == Ok(Some(gs)) by {
      NoMatchBefore(left, MatchesPattern, |pre|);
      var i := |pre|;
      var e := i + 1 + |digits| + 9;
      MatchesRender(digits);
      assert left[i..e] == "(" + digits + " matches)";
      assert left[i + 1 + |digits|..i + 1 + |digits| + 8] == " matches";
      ClauseFound(left, " matches", MatchesPattern, i, gs, e, i + 1 + |digits|);
    }
  }

  /** The text of one `(N matches)` match. */
  lemma MatchesRender(digits: string)
    requires IsDigits(digits)
    ensures Render(MatchesPattern, [digits, " "]) == "(" + digits + " matches)"
  {
    var tail := [Lit("matches)")];
    RenderLit("matches)", [], []);
    assert [Lit("matches)")] + [] == tail;
    RenderRun(Blanks, tail, " ", []);
    assert [Blanks] + tail == [Blanks, Lit("matches)")] && [" "] + [] == [" "];
    RenderRun(DigitRun, [Blanks, Lit("matches)")], digits, [" "]);
    assert [DigitRun] + [Blanks, Lit("matches)")] == [DigitRun, Blanks, Lit("matches)")];
    assert [digits] + [" "] == [digits, " "];
    RenderLit("(", [DigitRun, Blanks, Lit("matches)")], [digits, " "]);
    assert [Lit("(")] + [DigitRun, Blanks, Lit("matches)")] == MatchesPattern;
    assert "(" + (digits + (" " + ("matches)" + []))) == "(" + digits + " matches)";
  }

  /** `dscp W` after text that does not contain `dscp` gives the word W. */
  lemma DscpRead(pre: string, w: string, tail: string)
    requires !Contains(pre, "dscp") && w != [] && AllWord(w)
    requires tail == [] || !IsWordChar(tail[0])
    ensures Dscp(pre + "dscp " + w + tail) == Ok(Some(w))
  {
    var left := pre + "dscp " + w + tail;
    var gs := [" ", w];
    assert Clause(left, "dscp", DscpPattern) == Ok(Some(gs)) by {
      L3KeywordsDoNotOverlap();
      assert left == pre + "dscp" + " " + w + tail;
      KeywordWordRead(left, pre, "dscp", w, tail);
    }
  }

  /** A keyword, blanks, a run, blanks and a run. */
  lemma RenderKeywordTwoRuns(w: string, r1: Atom, r2: Atom, a: string, b: string)
    requires !r1.Lit? && !r2.Lit?
    ensures Holes([Lit(w), Blanks, r1, Blanks, r2]) == [Blanks, r1, Blanks, r2]
    ensures Render([Lit(w), Blanks, r1, Blanks, r2], [" ", a, " ", b]) == w + " " + a + " " + b
  {
    RenderRun(r2, [], b, []);
    RenderRun(Blanks, [r2], " ", [b]);
    RenderRun(r1, [Blanks, r2], a, [" ", b]);
    RenderRun(Blanks, [r1, Blanks, r2], " ", [a, " ", b]);
    RenderLit(w, [Blanks, r1, Blanks, r2], [" ", a, " ", b]);
    assert w + (" " + (a + (" " + (b + [])))) == w + " " + a + " " + b;
  }

  /** `ttl OP N` after text that does not contain `ttl` gives the operator and N. */
  lemma TtlRead(pre: string, op: string, digits: string, tail: string)
    requires !Contains(pre, "ttl") && op != [] && AllWord(op) && IsDigits(digits)
    requires tail == [] || !IsDigitChar(tail[0])
    ensures Ttl(pre + "ttl " + op + " " + digits + tail) == Ok(Some((op, Value(digits))))
  {
    var left := pre + "ttl " + op + " " + digits + tail;
    assert Clause(left, "ttl", TtlPattern) == Ok(Some([" ", op, " ", digits])) by {
      L3KeywordsDoNotOverlap();
      assert left == pre + "ttl" + " " + op + " " + digits + tail;
      KeywordWordNumberRead(left, pre, "ttl", op, digits, tail);
    }
  }

  /** `kw W N`, the keyword first occurring right after `pre`, gives W and N. */
  lemma KeywordWordNumberRead(left: string, pre: string, kw: string, op: string, digits: string, tail: string)
    requires kw != [] && NoSelfOverlap(kw) && !Contains(pre, kw)
    requires op != [] && AllWord(op) && IsDigits(digits)
    requires tail == [] || !IsDigitChar(tail[0])
    requires left == pre + kw + " " + op + " " + digits + tail
    ensures Clause(left, kw, [Lit(kw), Blanks, WordRun, Blanks, DigitRun]) == Ok(Some([" ", op, " ", digits]))
  {
    var e := |pre| + |kw| + 1 + |op| + 1 + |digits|;
    RenderKeywordTwoRuns(kw, WordRun, DigitRun, op, digits);
    assert left[|pre|..e] == kw + " " + op + " " + digits;
    assert left == pre + kw + (" " + op + " " + digits + tail);
    KeywordClauseRead(left, pre, kw, " " + op + " " + digits + tail,
                      [Lit(kw), Blanks, WordRun, Blanks, DigitRun], [" ", op, " ", digits], e);
  }

  /** `precedence W` after text that does not contain `precedence` gives the word W. */
  lemma PrecedenceRead(pre: string, w: string, tail: string)
    requires !Contains(pre, "precedence") && w != [] && AllWord(w)
    requires tail == [] || !IsWordChar(tail[0])
    ensures Precedence(pre + "precedence " + w + tail) == Ok(Some(w))
  {
    var left := pre + "precedence " + w + tail;
    var gs := [" ", w];
    assert Clause(left, "precedence", PrecedencePattern) == Ok(Some(gs)) by {
      L3KeywordsDoNotOverlap();
      assert left == pre + "precedence" + " " + w + tail;
      KeywordWordRead(left, pre, "precedence", w, tail);
    }
  }

  /** Text missing one letter of `w` does not contain `w`. */
  lemma LacksLetter(s: string, w: string, k: nat)
    requires k < |w| && Lacks(s, w[k])
    ensures !Contains(s, w)
  {
    forall j | 0 <= j <= |s| ensures !OccursAt(s, w, j) {
      if j + |w| <= |s| {
        assert s[j..j + |w|][k] == s[j + k];
      }
    }
  }

  /** `precedence W ttl OP N`, the order in which the device prints the
      two clauses, gives the precedence word. */
  lemma PrecedenceBeforeTtl(left: string, w: string, op: string, digits: string)
    requires left == " precedence " + w + " ttl " + op + " " + digits
    requires w != [] && AllWord(w)
    ensures Precedence(left) == Ok(Some(w))
  {
    assert left == " " + "precedence " + w + (" ttl " + op + " " + digits);
    assert Lacks(" ", 'p');
    LacksLetter(" ", "precedence", 0);
    PrecedenceRead(" ", w, " ttl " + op + " " + digits);
  }

  /** The same text gives the ttl operator and value, as long as the
      precedence word does not itself spell `ttl`. */
  lemma TtlAfterPrecedence(left: string, w: string, op: string, digits: string)
    requires left == " precedence " + w + " ttl " + op + " " + digits
    requires !Contains(" precedence " + w + " ", "ttl")
    requires op != [] && AllWord(op) && IsDigits(digits)
    ensures Ttl(left) == Ok(Some((op, Value(digits))))
  {
    assert left == " precedence " + w + " " + "ttl " + op + " " + digits + "";
    TtlRead(" precedence " + w + " ", op, digits, "");
  }

  /** The trailing text of `20 permit tcp host 10.16.2.2 eq www telnet 443
      any precedence network ttl eq 255` gives the precedence `network`. */
  lemma PrecedenceNetworkExample()
    ensures Precedence(" precedence network ttl eq 255") == Ok(Some("network"))
  {
    assert AllWord("network");
    PrecedenceBeforeTtl(" precedence network ttl eq 255", "network", "eq", "255");
  }

  /** `network` has a `t` but no `l`: the text before the ttl clause does
      not spell `ttl`. */
  lemma NetworkIsNotTtl()
    ensures " precedence network ttl eq 255" == " precedence " + "network" + " ttl " + "eq" + " " + "255"
    ensures !Contains(" precedence " + "network" + " ", "ttl")
  {
    assert Lacks(" precedence " + "network" + " ", 'l');
    LacksLetter(" precedence " + "network" + " ", "ttl", 2);
  }

  /** The same text gives `eq` and 255 for the ttl: the `t` of `network`
      does not hide the `ttl` clause. */
  lemma TtlEqExample()
    ensures Ttl(" precedence network ttl eq 255") == Ok(Some(("eq", Value("255"))))
  {
    NetworkIsNotTtl();
    assert AllWord("eq") && IsDigits("255");
    TtlAfterPrecedence(" precedence network ttl eq 255", "network", "eq", "255");
  }

  /** A decimal precedence sets only `precedence_code`: the name table is
      never hit. A named precedence sets only `precedence`. */
  lemma PrecedenceStored(l3: L3, left: string, w: string)
    requires Precedence(left) == Ok(Some(w))
    ensures var r := L3Clauses(l3, left);
      r.Ok? ==>
        if IsDigits(w) then r.value.precedenceCode == Some(Value(w)) && r.value.precedence == l3.precedence
        else r.value.precedence == Some(w) && r.value.precedenceCode == l3.precedenceCode
  {
    NumericPrecedenceHasNoName(w);
  }

  /** An extended line ending in `precedence W ttl OP N` stores, in the l3
      entry of its protocol, the precedence W (as `precedence_code` when W
      is a number) and the ttl operator and value, whatever was there. */
  lemma ExtendedPrecedenceTtlStored(acl: Acl, line: Shape, w: string, op: string, digits: string)
    requires line.Extended? && line.left == Some(" precedence " + w + " ttl " + op + " " + digits)
    requires w != [] && AllWord(w) && !Contains(" precedence " + w + " ", "ttl")
    requires op != [] && AllWord(op) && IsDigits(digits)
    requires AddExtended(acl, line).Ok?
    ensures var l3 := AddExtended(acl, line).value.aces[line.sequence].matches.l3[ProtocolName(line.protocol)];
      (if IsDigits(w) then l3.precedenceCode == Some(Value(w)) else l3.precedence == Some(w)) &&
      l3.ttlOperator == Some(op) && l3.ttl == Some(Value(digits))
  {
    var left := LeftText(line.left);
    PrecedenceBeforeTtl(left, w, op, digits);
    TtlAfterPrecedence(left, w, op, digits);
  }

  /** An icmp entry's trailing text that begins with two numbers gives the
      type and the code. */
  lemma IcmpTypeCodeRead(left: string, t: string, c: string, tail: string)
    requires IsDigits(t) && IsDigits(c) && (tail == [] || !IsDigitChar(tail[0]))
    requires Strip(left) == t + " " + c + tail
    ensures IcmpTypeCode(left) == Some((Value(t), Value(c)))
  {
    IcmpMatch(Strip(left), t, c, tail);
  }

  /** Two numbers with blanks between them, at the start of a text, are
      the icmp type and code match. */
  lemma IcmpMatch(s: string, t: string, c: string, tail: string)
    requires IsDigits(t) && IsDigits(c) && (tail == [] || !IsDigitChar(tail[0]))
    requires s == t + " " + c + tail
    ensures MatchAt(s, 0, IcmpPattern) == Some(Found(0, |t| + 1 + |c|, [t, " ", c]))
  {
    var gs, e := [t, " ", c], |t| + 1 + |c|;
    assert Render(IcmpPattern, gs) == s[0..e] by {
      IcmpRender(t, c);
      assert s[0..e] == t + " " + c;
    }
    IcmpGroupsFit(t, c);
    assert EndsAt(s, e, IcmpPattern) by {
      assert e < |s| ==> s[e] == tail[0];
    }
    MatchAtExact(s, 0, IcmpPattern, gs, e);
  }

  /** Two numbers and a blank fit the runs of the icmp pattern. */
  lemma IcmpGroupsFit(t: string, c: string)
    requires IsDigits(t) && IsDigits(c)
    ensures |Holes(IcmpPattern)| == 3
    ensures forall k :: 0 <= k < 3 ==> Fits([t, " ", c][k], Holes(IcmpPattern)[k])
  {
    assert Holes(IcmpPattern) == [DigitRun, Blanks, DigitRun] by {
      RenderRun(DigitRun, [], c, []);
      RenderRun(Blanks, [DigitRun], " ", [c]);
      RenderRun(DigitRun, [Blanks, DigitRun], t, [" ", c]);
    }
    assert Fits(t, DigitRun) && Fits(" ", Blanks) && Fits(c, DigitRun);
  }

  /** The text of one icmp type and code match. */
  lemma IcmpRender(t: string, c: string)
    ensures Render(IcmpPattern, [t, " ", c]) == t + " " + c
  {
    RenderRun(DigitRun, [], c, []);
    RenderRun(Blanks, [DigitRun], " ", [c]);
    RenderRun(DigitRun, [Blanks, DigitRun], t, [" ", c]);
    assert t + (" " + (c + [])) == t + " " + c;
  }

  // ---------------------------------------------------------------------
  // Ports

  /** A source port with an operator other than `range` is kept as text,
      even when it is a number or a known name. */
  lemma SourcePortKeptAsText(l4: L4, op: string, port: string)
    requires l4.sourcePort.None? && op != "" && port != "" && !Contains(op, "range")
    ensures SourcePort(l4, Some(PortClause(op, port))) ==
      Ok(l4.(sourcePort := Some(PortMatch(None, Some(PortOperator(op, Str(port)))))))
  {
  }

  /** A source `range A B` translates both ends. */
  lemma SourceRangeTranslated(l4: L4, a: string, b: string)
    requires l4.sourcePort.None? && a != [] && NoSpace(a) && b != [] && NoSpace(b)
    ensures SourcePort(l4, Some(PortClause("range", a + " " + b))) ==
      Ok(l4.(sourcePort := Some(PortMatch(Some(PortRange(PortToken(a), PortToken(b))), None))))
  {
    WordsOfPair(a, b);
    assert OccursAt("range", "range", 0);
  }

  /** A source `range` with one port fails. */
  lemma SourceRangeOfOneFails(l4: L4, a: string)
    requires a != [] && NoSpace(a)
    ensures SourcePort(l4, Some(PortClause("range", a))) == Err(MissingPortToken)
  {
    WordsOfWord(a);
    assert OccursAt("range", "range", 0);
  }

  /** One destination port is translated and kept with its operator. */
  lemma DestinationPortOfOne(l4: L4, op: string, port: string)
    requires l4.destinationPort.None? && op != "" && port != [] && NoSpace(port)
    ensures DestinationPort(l4, Some(PortClause(op, port))) ==
      Ok(l4.(destinationPort := Some(PortMatch(None, Some(PortOperator(op, PortToken(port)))))))
  {
    WordsOfWord(port);
  }

  /** Two destination ports become a range of the two, translated, whatever
      the operator: `eq www telnet` is stored as the range 80 to 23. */
  lemma DestinationPortOfTwo(l4: L4, op: string, a: string, b: string)
    requires l4.destinationPort.None? && op != "" && a != [] && NoSpace(a) && b != [] && NoSpace(b)
    ensures DestinationPort(l4, Some(PortClause(op, a + " " + b))) ==
      Ok(l4.(destinationPort := Some(PortMatch(Some(PortRange(PortToken(a), PortToken(b))), None))))
  {
    WordsOfPair(a, b);
  }

  // ---------------------------------------------------------------------
  // MAC clauses

  /** A text that is exactly one match of a clause is found, and erasing
      the clause leaves nothing. */
  lemma ClauseTakenWhole(word: string, pat: seq<Atom>, gs: seq<string>)
    requires word != [] && pat != [] && pat[0] == Lit(word) && Unambiguous(pat)
    requires |gs| == |Holes(pat)| && forall k :: 0 <= k < |gs| ==> Fits(gs[k], Holes(pat)[k])
    ensures TakeClause(Render(pat, gs), word, pat) == Ok((Some(gs), ""))
  {
    var s := Render(pat, gs);
    assert s == word + Render(pat[1..], gs);
    assert s[0..|s|] == s;
    MatchAtExact(s, 0, pat, gs, |s|);
    assert OccursAt(s, word, 0);
    SearchFindsAt(s, pat, 0, Found(0, |s|, gs));
    assert Clause(s, word, pat) == Ok(Some(gs));
    assert EraseFrom(s, pat, |s|) == [];
    assert Erase(s, pat) == [];
  }

  /** A clause with one match, from `i` to `e`, is read from that match and
      taken out: the text on either side of it is what remains. */
  lemma ClauseTakenOut(left: string, word: string, pat: seq<Atom>, i: nat, gs: seq<string>, e: nat, at: nat)
    requires Unambiguous(pat) && Consumes(pat)
    requires i <= e <= |left| && |gs| == |Holes(pat)|
    requires forall k :: 0 <= k < |gs| ==> Fits(gs[k], Holes(pat)[k])
    requires Render(pat, gs) == left[i..e] && EndsAt(left, e, pat)
    requires forall j :: 0 <= j < i ==> MatchAt(left, j, pat).None?
    requires NoMatchFrom(left, pat, e)
    requires OccursAt(left, word, at)
    ensures TakeClause(left, word, pat) == Ok((Some(gs), left[..i] + left[e..]))
  {
    ClauseFound(left, word, pat, i, gs, e, at);
    MatchAtExact(left, i, pat, gs, e);
    EraseOneMatch(left, pat, i, Found(i, e, gs));
  }

  /** `KW N` with text on either side, the text before lacking the
      keyword's first letter and the text after lacking the keyword: the
      number N, and the text on either side joined. */
  lemma NumberTakenOut(left: string, pre: string, kw: string, pat: seq<Atom>, n: string, rest: string)
    requires left == pre + kw + " " + n + rest
    requires kw != [] && pat == [Lit(kw), Blanks, DigitRun]
    requires NoSelfOverlap(kw) && !Contains(pre, kw) && IsDigits(n)
    requires (rest == [] || !IsDigitChar(rest[0])) && !Contains(rest, kw)
    ensures Holes(pat) == [Blanks, DigitRun] &&
      TakeNumber(left, kw, pat) == Ok((Some(Value(n)), pre + rest))
  {
    var i := |pre|;
    var e := i + |kw| + 1 + |n|;
    var gs := [" ", n];
    RenderKeywordRun(kw, DigitRun, " ", n);
    assert left[i..e] == kw + " " + n;
    assert left[i..i + |kw|] == kw;
    assert left[..i] == pre && left[e..] == rest;
    assert left == pre + kw + (" " + n + rest);
    NoMatchInside(pre, kw, " " + n + rest, pat);
    NoKeywordNoMatch(left, kw, pat, e);
    ClauseTakenOut(left, kw, pat, i, gs, e, i);
  }

  /** `cos N` is taken out whole, as the number N. */
  lemma CosTaken(digits: string)
    requires IsDigits(digits)
    ensures TakeNumber("cos " + digits, "cos", CosPattern) == Ok((Some(Value(digits)), ""))
  {
    RenderKeywordRun("cos", DigitRun, " ", digits);
    assert "cos" + " " + digits == "cos " + digits;
    ClauseTakenWhole("cos", CosPattern, [" ", digits]);
  }

  /** `vlan N` is taken out whole, as the number N. */
  lemma VlanTaken(digits: string)
    requires IsDigits(digits)
    ensures TakeNumber("vlan " + digits, "vlan", VlanPattern) == Ok((Some(Value(digits)), ""))
  {
    RenderKeywordRun("vlan", DigitRun, " ", digits);
    assert "vlan" + " " + digits == "vlan " + digits;
    ClauseTakenWhole("vlan", VlanPattern, [" ", digits]);
  }

  /** A clause taken out whole yields the text of its groups after the
      keyword's blanks. */
  lemma WordsTakenWhole(left: string, word: string, pat: seq<Atom>, gs: seq<string>)
    requires Consumes(pat) && |Holes(pat)| >= 2
    requires TakeClause(left, word, pat) == Ok((Some(gs), ""))
    ensures TakeWords(left, word, pat) == Ok((Some(Concat(gs[1..])), ""))
  {
  }

  /** `protocol-family W` is taken out whole, as the one word W. */
  lemma FamilyTaken(w: string)
    requires w != [] && AllWord(w)
    ensures TakeWords("protocol-family " + w, "protocol-family", FamilyPattern) == Ok((Some(w), ""))
  {
    var gs := [" ", w];
    var left := "protocol-family " + w;
    assert TakeClause(left, "protocol-family", FamilyPattern) == Ok((Some(gs), "")) by {
      RenderKeywordRun("protocol-family", WordRun, " ", w);
      assert "protocol-family" + " " + w == left;
      ClauseTakenWhole("protocol-family", FamilyPattern, gs);
    }
    WordsTakenWhole(left, "protocol-family", FamilyPattern, gs);
    assert Concat(gs[1..]) == w by {
      assert gs[1..] == [w] + [];
      ConcatCons(w, []);
    }
  }

  /** The text of one `lsap` match. */
  lemma LsapRender(a: string, b: string)
    ensures Render(LsapPattern, [" ", a, " ", b]) == "lsap " + a + " " + b
  {
    RenderKeywordTwoRuns("lsap", WordRun, WordRun, a, b);
    assert "lsap" + " " + a + " " + b == "lsap " + a + " " + b;
  }

  /** The two words of an `lsap` match, with the blank between them. */
  lemma LsapWords(a: string, b: string)
    ensures Concat([a, " ", b]) == a + " " + b
  {
    ConcatCons(b, []);
    ConcatCons(" ", [b]);
    ConcatCons(a, [" ", b]);
    assert [b] + [] == [b] && [" "] + [b] == [" ", b] && [a] + [" ", b] == [a, " ", b];
  }

  /** `lsap A B` is taken out whole, as the two words with the blank
      between them. */
  lemma LsapTaken(a: string, b: string)
    requires a != [] && AllWord(a) && b != [] && AllWord(b)
    ensures TakeWords("lsap " + a + " " + b, "lsap", LsapPattern) == Ok((Some(a + " " + b), ""))
  {
    var gs := [" ", a, " ", b];
    var left := "lsap " + a + " " + b;
    assert TakeClause(left, "lsap", LsapPattern) == Ok((Some(gs), "")) by {
      LsapRender(a, b);
      ClauseTakenWhole("lsap", LsapPattern, gs);
    }
    WordsTakenWhole(left, "lsap", LsapPattern, gs);
    assert gs[1..] == [a, " ", b];
    LsapWords(a, b);
  }

  /** `cos N` alone sets `cos` to N, unless it is set already, and leaves
      no ether type. */
  lemma CosRead(eth: Eth, digits: string)
    requires IsDigits(digits)
    ensures MacClauses(eth, "cos " + digits) == Ok(eth.(cos := eth.cos.OrElse(Some(Value(digits)))))
  {
    CosTaken(digits);
    EmptyTakesNothing();
    assert Strip("") == "";
  }

  /** `vlan N` alone, as in `deny any any vlan 10`: `vlan` is set to N
      unless it is set already, and no ether type is left. */
  lemma VlanRead(eth: Eth, digits: string)
    requires IsDigits(digits)
    ensures MacClauses(eth, "vlan " + digits) == Ok(eth.(vlan := eth.vlan.OrElse(Some(Value(digits)))))
  {
    assert Lacks("vlan " + digits, 'c');
    LacksLetter("vlan " + digits, "cos", 0);
    VlanTaken(digits);
    EmptyTakesNothing();
    MacSteps(eth, "vlan " + digits, None, "vlan " + digits, Some(Value(digits)), "", None, "", None, "");
    assert Strip("") == "";
  }

  /** The four clauses one after another, each given by what it takes out
      of the text the one before leaves. */
  lemma MacSteps(eth: Eth, left: string, c: Option<nat>, l1: string, v: Option<nat>, l2: string,
                 f: Option<string>, l3: string, ls: Option<string>, l4: string)
    requires TakeNumber(left, "cos", CosPattern) == Ok((c, l1))
    requires TakeNumber(l1, "vlan", VlanPattern) == Ok((v, l2))
    requires TakeWords(l2, "protocol-family", FamilyPattern) == Ok((f, l3))
    requires TakeWords(l3, "lsap", LsapPattern) == Ok((ls, l4))
    ensures var e := eth.(cos := eth.cos.OrElse(c), vlan := eth.vlan.OrElse(v),
                          protocolFamily := eth.protocolFamily.OrElse(f), lsap := eth.lsap.OrElse(ls));
      MacClauses(eth, left) == Ok(if Strip(l4) != "" then e.(etherType := Some(Strip(l4))) else e)
  {
  }

  /** `vlan N` followed by text with none of the four keywords: `vlan` is
      set to N unless it is set already, and the text after the clause,
      stripped, is the ether type. */
  lemma VlanThenEtherType(eth: Eth, n: string, t: string)
    requires IsDigits(n)
    requires !Contains(t, "cos") && !Contains(t, "vlan")
    requires !Contains(t, "protocol-family") && !Contains(t, "lsap")
    ensures var e := eth.(vlan := eth.vlan.OrElse(Some(Value(n))));
      MacClauses(eth, "vlan " + n + " " + t) ==
        Ok(if Strip(t) != "" then e.(etherType := Some(Strip(t))) else e)
  {
    var left := "vlan " + n + " " + t;
    var after := " " + t;
    NoCosBeforeVlan(n, t);
    VlanTakenFirst(n, t);
    NoWordClauses(t);
    MacSteps(eth, left, None, left, Some(Value(n)), after, None, after, None, after);
    StripBlankFirst(t);
  }

  /** A new MAC ACE whose trailing text is `vlan N T` stores the VLAN N
      and, when T is not blank, the ether type T, and no class of service. */
  lemma MacVlanStored(acl: Acl, key: Digits, forwarding: string, src: string, dst: string, n: string, t: string)
    requires key !in acl.aces && IsDigits(n)
    requires !Contains(t, "cos") && !Contains(t, "vlan")
    requires !Contains(t, "protocol-family") && !Contains(t, "lsap")
    ensures AddMac(acl, key, forwarding, src, dst, Some("vlan " + n + " " + t)).Ok?
    ensures var r := AddMac(acl, key, forwarding, src, dst, Some("vlan " + n + " " + t));
      r.Ok? && var eth := r.value.aces[key].matches.l2.value;
      eth.vlan == Some(Value(n)) && eth.cos.None? &&
      eth.etherType == (if Strip(t) != "" then Some(Strip(t)) else None)
  {
    var eth := OpenEth(None, Strip(src), Strip(dst));
    VlanThenEtherType(eth, n, t);
  }

  /** A blank and text with neither word keyword holds neither word clause. */
  lemma NoWordClauses(t: string)
    requires !Contains(t, "protocol-family") && !Contains(t, "lsap")
    ensures TakeWords(" " + t, "protocol-family", FamilyPattern) == Ok((None, " " + t))
    ensures TakeWords(" " + t, "lsap", LsapPattern) == Ok((None, " " + t))
  {
    ContainsAfter(" ", t, "protocol-family");
    ContainsAfter(" ", t, "lsap");
  }

  /** `vlan N T` has no `cos` when T has none. */
  lemma NoCosBeforeVlan(n: string, t: string)
    requires IsDigits(n) && !Contains(t, "cos")
    ensures TakeNumber("vlan " + n + " " + t, "cos", CosPattern) == Ok((None, "vlan " + n + " " + t))
  {
    assert Lacks("vlan " + n + " ", 'c');
    ContainsAfter("vlan " + n + " ", t, "cos");
  }

  /** `vlan N T` gives N and leaves ` T` when T has no `vlan`. */
  lemma VlanTakenFirst(n: string, t: string)
    requires IsDigits(n) && !Contains(t, "vlan")
    ensures TakeNumber("vlan " + n + " " + t, "vlan", VlanPattern) == Ok((Some(Value(n)), " " + t))
  {
    var left := "vlan " + n + " " + t;
    assert left == "" + "vlan" + " " + n + (" " + t);
    assert " " + t == "" + (" " + t);
    ContainsAfter(" ", t, "vlan");
    MacNumberKeywordsDoNotOverlap();
    LacksLetter("", "vlan", 0);
    NumberTakenOut(left, "", "vlan", VlanPattern, n, " " + t);
  }

  /** `cos N vlan M`: both numbers, each set unless it is set already, and
      no ether type. */
  lemma CosThenVlan(eth: Eth, c: string, v: string)
    requires IsDigits(c) && IsDigits(v)
    ensures MacClauses(eth, "cos " + c + " vlan " + v) ==
      Ok(eth.(cos := eth.cos.OrElse(Some(Value(c))), vlan := eth.vlan.OrElse(Some(Value(v)))))
  {
    var left := "cos " + c + " vlan " + v;
    CosTakenFirst(c, v);
    VlanTakenSecond(v);
    BlankTakesNothing();
    MacSteps(eth, left, Some(Value(c)), " vlan " + v, Some(Value(v)), " ", None, " ", None, " ");
  }

  /** A lone blank holds neither word clause and strips to nothing. */
  lemma BlankTakesNothing()
    ensures TakeWords(" ", "protocol-family", FamilyPattern) == Ok((None, " "))
    ensures TakeWords(" ", "lsap", LsapPattern) == Ok((None, " "))
    ensures Strip(" ") == ""
  {
    assert Lacks(" ", 'p') && Lacks(" ", 'l');
    LacksLetter(" ", "protocol-family", 0);
    LacksLetter(" ", "lsap", 0);
    assert AllSpace(" ");
  }

  /** `cos N vlan M` gives N and leaves ` vlan M`. */
  lemma CosTakenFirst(c: string, v: string)
    requires IsDigits(c) && IsDigits(v)
    ensures TakeNumber("cos " + c + " vlan " + v, "cos", CosPattern) == Ok((Some(Value(c)), " vlan " + v))
  {
    var left, rest := "cos " + c + " vlan " + v, " vlan " + v;
    assert "cos " == "cos" + " ";
    assert left == "" + "cos" + " " + c + rest;
    assert rest == "" + rest && rest[0] == ' ';
    NoCosInVlan(v);
    MacNumberKeywordsDoNotOverlap();
    LacksLetter("", "cos", 0);
    NumberTakenOut(left, "", "cos", CosPattern, c, rest);
  }

  /** ` vlan M` has no `c`, so no `cos`. */
  lemma NoCosInVlan(v: string)
    requires IsDigits(v)
    ensures !Contains(" vlan " + v, "cos")
  {
    assert Lacks(" vlan " + v, 'c');
    LacksLetter(" vlan " + v, "cos", 0);
  }

  /** ` vlan M` gives M and leaves the blank before it. */
  lemma VlanTakenSecond(v: string)
    requires IsDigits(v)
    ensures TakeNumber(" vlan " + v, "vlan", VlanPattern) == Ok((Some(Value(v)), " "))
  {
    var left := " vlan " + v;
    assert left == " " + "vlan" + " " + v + "";
    assert " " == " " + "";
    assert Lacks(" ", 'v') && Lacks("", 'v');
    LacksLetter("", "vlan", 0);
    LacksLetter(" ", "vlan", 0);
    MacNumberKeywordsDoNotOverlap();
    NumberTakenOut(left, " ", "vlan", VlanPattern, v, "");
  }

  /** Neither `cos` nor `vlan` overlaps itself. */
  lemma MacNumberKeywordsDoNotOverlap()
    ensures NoSelfOverlap("cos") && NoSelfOverlap("vlan")
  {
    FreshFirstLetter("cos");
    FreshFirstLetter("vlan");
  }

  /** Once the text is used up, the later clauses find nothing. */
  lemma EmptyTakesNothing()
    ensures TakeNumber("", "vlan", VlanPattern) == Ok((None, ""))
    ensures TakeWords("", "protocol-family", FamilyPattern) == Ok((None, ""))
    ensures TakeWords("", "lsap", LsapPattern) == Ok((None, ""))
  {
    LacksLetter("", "vlan", 0);
    LacksLetter("", "protocol-family", 0);
    LacksLetter("", "lsap", 0);
  }

  /** Trailing text with none of the four keywords is, stripped, the ether
      type (and no ether type when it is blank). */
  lemma EtherTypeIsTheRest(eth: Eth, left: string)
    requires !Contains(left, "cos") && !Contains(left, "vlan")
    requires !Contains(left, "protocol-family") && !Contains(left, "lsap")
    ensures MacClauses(eth, left) ==
      Ok(if Strip(left) != "" then eth.(etherType := Some(Strip(left))) else eth)
  {
  }

  // ---------------------------------------------------------------------
  // The line loop

  predicate IsAce(line: Shape) {
    line.Standard? || line.Extended? || line.Mac?
  }

  /** An ACE line with no header before it fails, whatever unclassified
      lines come first. */
  lemma {:induction false} AceBeforeHeaderFails(st: State, lines: seq<Shape>, k: nat)
    requires Valid(st) && st.cursor.None?
    requires k < |lines| && IsAce(lines[k])
    requires forall j :: 0 <= j < k ==> lines[j].Other?
    ensures Run(st, lines) == Err(NoOpenAcl)
    decreases k
  {
    if k > 0 {
      AceBeforeHeaderFails(st, lines[1..], k - 1);
    }
  }

  /** The lines that are not unclassified. */
  function Classified(lines: seq<Shape>): (r: seq<Shape>)
    ensures |r| <= |lines|
    ensures forall j :: 0 <= j < |r| ==> !r[j].Other?
  {
    if lines == [] then []
    else if lines[0].Other? then Classified(lines[1..])
    else [lines[0]] + Classified(lines[1..])
  }

  /** Unclassified lines change nothing. */
  lemma {:induction false} OtherLinesIgnored(st: State, lines: seq<Shape>)
    requires Valid(st)
    ensures Run(st, lines) == Run(st, Classified(lines))
    decreases |lines|
  {
    if lines != [] {
      if lines[0].Other? {
        OtherLinesIgnored(st, lines[1..]);
      } else {
        var rest := Classified(lines[1..]);
        assert ([lines[0]] + rest)[1..] == rest;
        match Step(st, lines[0])
        case Ok(next) => OtherLinesIgnored(next, lines[1..]);
        case Err(_) =>
      }
    }
  }

  /** Every list is stored under its own name and every ACE under its own
      number. */
  predicate WellNamed(acls: map<string, Acl>) {
    forall n :: n in acls ==> acls[n].name == n && NamedByKey(acls[n].aces)
  }

  predicate NamedByKey(aces: map<Digits, Ace>) {
    forall k :: k in aces ==> aces[k].name == k
  }

  /** Each kind of ACE line stores its entry under its own number. */
  lemma StandardKeepsNames(acl: Acl, key: Digits, forwarding: string, src: string, wildcard: Option<string>)
    requires NamedByKey(acl.aces)
    ensures NamedByKey(AddStandard(acl, key, forwarding, src, wildcard).aces)
  {
    var r := AddStandard(acl, key, forwarding, src, wildcard);
    forall k | k in r.aces ensures r.aces[k].name == k {
      if k != key {
        assert k in acl.aces;
      }
    }
  }

  lemma ExtendedKeepsNames(acl: Acl, line: Shape)
    requires line.Extended? && NamedByKey(acl.aces)
    ensures AddExtended(acl, line).Ok? ==> NamedByKey(AddExtended(acl, line).value.aces)
  {
    var r := AddExtended(acl, line);
    if r.Ok? {
      forall k | k in r.value.aces ensures r.value.aces[k].name == k {
        if k != line.sequence {
          assert k in acl.aces;
        }
      }
    }
  }

  lemma MacKeepsNames(acl: Acl, key: Digits, forwarding: string, src: string, dst: string, left: Option<string>)
    requires NamedByKey(acl.aces)
    ensures AddMac(acl, key, forwarding, src, dst, left).Ok? ==> NamedByKey(AddMac(acl, key, forwarding, src, dst, left).value.aces)
  {
    var r := AddMac(acl, key, forwarding, src, dst, left);
    if r.Ok? {
      forall k | k in r.value.aces ensures r.value.aces[k].name == k {
        if k != key {
          assert k in acl.aces;
        }
      }
    }
  }

  lemma AceKeepsNames(acl: Acl, line: Shape)
    requires IsAce(line) && NamedByKey(acl.aces)
    ensures AddAce(acl, line).Ok? ==>
      AddAce(acl, line).value.name == acl.name && NamedByKey(AddAce(acl, line).value.aces)
  {
    match line
    case Standard(_, forwarding, src, wildcard) =>
      StandardKeepsNames(acl, NextNumber(acl.aces), forwarding, src, wildcard);
    case Extended(_, _, _, _, _, _, _, _) =>
      ExtendedKeepsNames(acl, line);
    case Mac(forwarding, src, dst, left) =>
      MacKeepsNames(acl, NextNumber(acl.aces), forwarding, src, dst, left);
  }

  /** Storing a well-named list under its own name keeps every name equal
      to its key. */
  lemma StoreKeepsNames(acls: map<string, Acl>, name: string, acl: Acl)
    requires WellNamed(acls) && acl.name == name && NamedByKey(acl.aces)
    ensures WellNamed(acls[name := acl])
  {
  }

  /** A header keeps every name equal to its key. */
  lemma HeaderKeepsNames(st: State, line: Shape)
    requires Valid(st) && WellNamed(st.acls) && line.Header?
    ensures WellNamed(Step(st, line).value.acls)
  {
    var a := OpenAcl(st.acls, line.kind, line.name, line.perUser);
    var acls := st.acls[line.name := a];
    assert Step(st, line) == Ok(State(acls, Some(line.name)));
    assert a.name == line.name && NamedByKey(a.aces);
    StoreKeepsNames(st.acls, line.name, a);
  }

  /** One ACE line under the cursor: the list under the cursor is
      replaced by the updated one, or the failure is passed on. */
  lemma StepOfAce(st: State, line: Shape)
    requires Valid(st) && IsAce(line) && st.cursor.Some?
    ensures var r := AddAce(st.acls[st.cursor.value], line);
      Step(st, line) == if r.Ok? then Ok(State(st.acls[st.cursor.value := r.value], st.cursor)) else Err(r.error)
  {
    match line
    case Standard(_, _, _, _) =>
    case Extended(_, _, _, _, _, _, _, _) =>
    case Mac(_, _, _, _) =>
  }

  /** An ACE line keeps every name equal to its key. */
  lemma AceLineKeepsNames(st: State, line: Shape)
    requires Valid(st) && WellNamed(st.acls) && IsAce(line) && st.cursor.Some?
    ensures Step(st, line).Ok? ==> WellNamed(Step(st, line).value.acls)
  {
    var name := st.cursor.value;
    var acl := st.acls[name];
    AceKeepsNames(acl, line);
    StepOfAce(st, line);
    var r := AddAce(acl, line);
    if r.Ok? {
      StoreKeepsNames(st.acls, name, r.value);
    }
  }

  /** One line keeps every name equal to its key. */
  lemma StepKeepsNames(st: State, line: Shape)
    requires Valid(st) && WellNamed(st.acls)
    ensures Step(st, line).Ok? ==> WellNamed(Step(st, line).value.acls)
  {
    if line.Header? {
      HeaderKeepsNames(st, line);
    } else if IsAce(line) && st.cursor.Some? {
      AceLineKeepsNames(st, line);
    }
  }

  /** Names stay equal to their keys over a whole run. */
  lemma {:induction false} RunKeepsNames(st: State, lines: seq<Shape>)
    requires Valid(st) && WellNamed(st.acls)
    ensures Run(st, lines).Ok? ==> WellNamed(Run(st, lines).value.acls)
    decreases |lines|
  {
    if lines != [] {
      StepKeepsNames(st, lines[0]);
      if Step(st, lines[0]).Ok? {
        RunKeepsNames(Step(st, lines[0]).value, lines[1..]);
      }
    }
  }

  /** A header that names a list already stored reopens it with its ACEs. */
  lemma RepeatedHeaderKeepsAces(st: State, kind: HeaderKind, name: string, perUser: Option<string>)
    requires Valid(st) && name in st.acls
    ensures var r := Step(st, Header(kind, name, perUser));
      r.Ok? && r.value.acls[name].aces == st.acls[name].aces &&
      r.value.acls[name].aclType == AclType(kind) &&
      (r.value.acls[name].perUser <==> st.acls[name].perUser || Truthy(perUser))
  {
  }
}
