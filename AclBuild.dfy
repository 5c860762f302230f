/**
 * How one line of `show access-lists` output changes the access list that
 * is open: the header rules, the standard, extended and MAC ACE rules of
 * `ShowAccessLists.cli`, and the helpers they use (the source-network text,
 * the trailing-clause searches, port translation).
 *
 * The source reaches into nested dictionaries with `setdefault`, which
 * keeps a value that is already there; `OrElse` and the `Open...` functions
 * below are that. A plain assignment overwrites.
 */
module AclBuild {
  import opened Wrappers
  import opened Text
  import opened Clauses
  import opened AclTables
  import opened AclModel

  // ---------------------------------------------------------------------
  // Headers

  /** The `type` a header sets, by header form. */
  function AclType(kind: HeaderKind): (t: string)
    ensures t == "ipv4-acl-type" <==> kind in {StandardIp, ExtendedIp, IpAccessListExtended}
    ensures t == "ipv6-acl-type" <==> kind == Ipv6
    ensures t == "eth-acl-type" <==> kind == ExtendedMac
  {
    match kind
    case StandardIp => "ipv4-acl-type"
    case ExtendedIp => "ipv4-acl-type"
    case IpAccessListExtended => "ipv4-acl-type"
    case Ipv6 => "ipv6-acl-type"
    case ExtendedMac => "eth-acl-type"
  }

  /** Python truthiness of an optional group: present and not empty. */
  predicate Truthy(g: Option<string>) {
    g.Some? && g.value != ""
  }

  /** The entry a header opens: the one already stored under `name`, or a
      new one; `name` and `type` are assigned, and `per_user` is set to true
      when the parenthesised suffix is there and not empty. */
  function OpenAcl(acls: map<string, Acl>, kind: HeaderKind, name: string, perUser: Option<string>): (a: Acl)
    ensures a.name == name && a.aclType == AclType(kind)
    ensures a.perUser <==> Truthy(perUser) || (name in acls && acls[name].perUser)
    ensures a.aces == if name in acls then acls[name].aces else map[]
  {
    var existing := if name in acls then acls[name] else Acl(name, AclType(kind), false, map[]);
    existing.(name := name, aclType := AclType(kind), perUser := existing.perUser || Truthy(perUser))
  }

  // ---------------------------------------------------------------------
  // Entries shared by every ACE rule

  /** `aces.setdefault(key, {})`, its `name` assigned and the forwarding
      action set if it is not there yet. */
  function OpenAce(aces: map<Digits, Ace>, key: Digits, forwarding: string): (a: Ace)
    ensures a.name == key
    ensures key in aces ==>
      a.actions == aces[key].actions && a.matches == aces[key].matches && a.matchedPackets == aces[key].matchedPackets
    ensures key !in aces ==>
      a.actions == Actions(forwarding, None) && a.matches == Matches(None, map[], map[]) && a.matchedPackets.None?
  {
    if key in aces then aces[key].(name := key)
    else Ace(key, Actions(forwarding, None), Matches(None, map[], map[]), None)
  }

  /** `l3.setdefault(protocol, {})` with `protocol` assigned. */
  function OpenL3(l3: map<string, L3>, protocol: string): (e: L3)
    ensures e.protocol == protocol
    ensures protocol in l3 ==> e.(protocol := l3[protocol].protocol) == l3[protocol]
    ensures protocol !in l3 ==>
      e.sourceNetwork == {} && e.destinationNetwork == {} && e.dscp.None? && e.ttlOperator.None? &&
      e.ttl.None? && e.precedence.None? && e.precedenceCode.None?
  {
    var entry := if protocol in l3 then l3[protocol] else L3(protocol, {}, {}, None, None, None, None, None);
    entry.(protocol := protocol)
  }

  /** `l4.setdefault(protocol, {})`; `established` is always assigned after. */
  function OpenL4(l4: map<string, L4>, protocol: string): (e: L4)
    ensures protocol in l4 ==> e == l4[protocol]
    ensures protocol !in l4 ==>
      e.icmpType.None? && e.icmpCode.None? && !e.established && e.sourcePort.None? && e.destinationPort.None?
  {
    if protocol in l4 then l4[protocol] else L4(None, None, false, None, None)
  }

  /** The `logging` action of an extended or MAC line. */
  function Logging(left: string): (l: string)
    ensures l == "log-syslog" <==> Contains(left, "log")
    ensures l == "log-none" <==> !Contains(left, "log")
  {
    if Contains(left, "log") then "log-syslog" else "log-none"
  }

  // ---------------------------------------------------------------------
  // Standard ACEs

  /** The source-network text of a standard ACE. */
  function SourceNetwork(src: string, wildcard: Option<string>): (n: string)
    ensures |src| <= |n| && n[..|src|] == src
    ensures n == src <==> !Truthy(wildcard) && src == "any"
  {
    if Truthy(wildcard) then src + " " + wildcard.value
    else if src == "any" then src
    else src + " " + "0.0.0.0"
  }

  /** A standard ACE stored under `key`: forwarding set if the entry is new,
      protocol "ipv4", and the source network added to the ipv4 entry. A
      key that is already there is merged into, and every other entry of
      the list is left as it was. */
  function AddStandard(acl: Acl, key: Digits, forwarding: string, src: string, wildcard: Option<string>): (r: Acl)
    ensures r.name == acl.name && r.aclType == acl.aclType && r.perUser == acl.perUser
    ensures r.aces.Keys == acl.aces.Keys + {key}
    ensures forall k :: k in acl.aces && k != key ==> r.aces[k] == acl.aces[k]
    ensures key !in acl.aces ==>
      r.aces[key] == Ace(key, Actions(forwarding, None),
                         Matches(None, map["ipv4" := L3("ipv4", {SourceNetwork(src, wildcard)}, {}, None, None, None, None, None)], map[]),
                         None)
    ensures key in acl.aces ==> (
      var was, now := acl.aces[key], r.aces[key];
      now.name == key && now.actions == was.actions && now.matchedPackets == was.matchedPackets &&
      now.matches.l2 == was.matches.l2 && now.matches.l4 == was.matches.l4 &&
      now.matches.l3.Keys == was.matches.l3.Keys + {"ipv4"} &&
      (forall p :: p in was.matches.l3 && p != "ipv4" ==> now.matches.l3[p] == was.matches.l3[p]) &&
      now.matches.l3["ipv4"].protocol == "ipv4" &&
      now.matches.l3["ipv4"].sourceNetwork ==
        (if "ipv4" in was.matches.l3 then was.matches.l3["ipv4"].sourceNetwork else {}) + {SourceNetwork(src, wildcard)})
    ensures key in acl.aces && "ipv4" in acl.aces[key].matches.l3 ==>
      r.aces[key].matches.l3["ipv4"].(sourceNetwork := {}) ==
      acl.aces[key].matches.l3["ipv4"].(protocol := "ipv4", sourceNetwork := {})
  {
    var ace := OpenAce(acl.aces, key, forwarding);
    var l3 := OpenL3(ace.matches.l3, "ipv4");
    var l3' := l3.(sourceNetwork := l3.sourceNetwork + {SourceNetwork(src, wildcard)});
    assert key !in acl.aces ==> l3'.sourceNetwork == {SourceNetwork(src, wildcard)};
    assert key !in acl.aces ==> ace.matches.l3["ipv4" := l3'] == map["ipv4" := l3'];
    acl.(aces := acl.aces[key := ace.(matches := ace.matches.(l3 := ace.matches.l3["ipv4" := l3']))])
  }

  // ---------------------------------------------------------------------
  // Trailing clauses

  /** `str(group['left'])`: an absent group reads as "None". */
  function LeftText(left: Option<string>): (t: string)
    ensures left.Some? ==> t == left.value
    ensures left.None? ==> t == "None"
  {
    if left.Some? then left.value else "None"
  }

  /** `re.search(pattern, left).groups()` behind the test `word in left`:
      nothing when the word is missing, a failure when the word is there
      but the search finds nothing. */
  function Clause(left: string, word: string, pat: seq<Atom>): (r: Result<Option<seq<string>>>)
    ensures !Contains(left, word) ==> r == Ok(None)
    ensures Contains(left, word) && r.Ok? ==> r.value.Some?
    ensures r.Ok? && r.value.Some? ==>
      |r.value.value| == |Holes(pat)| && forall k :: 0 <= k < |r.value.value| ==> Fits(r.value.value[k], Holes(pat)[k])
    ensures r.Err? ==> r.error == ClauseNotFound(word)
  {
    if !Contains(left, word) then Ok(None)
    else
      match Search(left, pat)
      case None => Err(ClauseNotFound(word))
      case Some(f) =>
        MatchAtSound(left, f.start, pat);
        Ok(Some(f.groups))
  }

  /** `(N matches)`, looked for when the text contains " matches". */
  function MatchedPackets(left: string): (r: Result<Option<nat>>)
    ensures !Contains(left, " matches") ==> r == Ok(None)
    ensures Contains(left, " matches") && r.Ok? ==> r.value.Some?
    ensures r.Err? ==> r.error == ClauseNotFound(" matches")
  {
    var g :- Clause(left, " matches", MatchesPattern);
    assert Holes(MatchesPattern) == [DigitRun, Blanks];
    Ok(if g.Some? then Some(Value(g.value[0])) else None)
  }

  /** `dscp +(\w+)`: the word after `dscp`. */
  function Dscp(left: string): (r: Result<Option<string>>)
    ensures !Contains(left, "dscp") ==> r == Ok(None)
    ensures Contains(left, "dscp") && r.Ok? ==> r.value.Some? && Fits(r.value.value, WordRun)
    ensures r.Err? ==> r.error == ClauseNotFound("dscp")
  {
    var g :- Clause(left, "dscp", DscpPattern);
    assert Holes(DscpPattern) == [Blanks, WordRun];
    Ok(if g.Some? then Some(g.value[1]) else None)
  }

  /** `ttl +(\w+) +(\d+)`: the operator word and the value. */
  function Ttl(left: string): (r: Result<Option<(string, nat)>>)
    ensures !Contains(left, "ttl") ==> r == Ok(None)
    ensures Contains(left, "ttl") && r.Ok? ==> r.value.Some? && Fits(r.value.value.0, WordRun)
    ensures r.Err? ==> r.error == ClauseNotFound("ttl")
  {
    var g :- Clause(left, "ttl", TtlPattern);
    assert Holes(TtlPattern) == [Blanks, WordRun, Blanks, DigitRun];
    Ok(if g.Some? then Some((g.value[1], Value(g.value[3]))) else None)
  }

  /** `precedence +(\w+)`: the precedence word. */
  function Precedence(left: string): (r: Result<Option<string>>)
    ensures !Contains(left, "precedence") ==> r == Ok(None)
    ensures Contains(left, "precedence") && r.Ok? ==> r.value.Some? && Fits(r.value.value, WordRun)
    ensures r.Err? ==> r.error == ClauseNotFound("precedence")
  {
    var g :- Clause(left, "precedence", PrecedencePattern);
    assert Holes(PrecedencePattern) == [Blanks, WordRun];
    Ok(if g.Some? then Some(g.value[1]) else None)
  }

  /** The l3 clauses of an extended line: `dscp` set if not there yet,
      `ttl` assigned, and a precedence word assigned to `precedence_code`
      when it is decimal (with `precedence` from PRECED_MAP, looked up with
      the word itself) and to `precedence` otherwise. */
  function L3Clauses(l3: L3, left: string): (r: Result<L3>)
    ensures r.Ok? <==> Dscp(left).Ok? && Ttl(left).Ok? && Precedence(left).Ok?
    ensures r.Ok? ==> L3ClausesStored(l3, r.value, left)
  {
    NumericPrecedenceHasNoName(if Precedence(left).Ok? && Precedence(left).value.Some? then Precedence(left).value.value else "");
    var dscp :- Dscp(left);
    var l3 := l3.(dscp := l3.dscp.OrElse(dscp));
    var ttl :- Ttl(left);
    var l3 := if ttl.Some? then l3.(ttlOperator := Some(ttl.value.0), ttl := Some(ttl.value.1)) else l3;
    var prec :- Precedence(left);
    if prec.None? then Ok(l3)
    else if IsDigits(prec.value) then
      var l3 := l3.(precedenceCode := Some(Value(prec.value)));
      Ok(l3.(precedence := PrecedenceLookup(StrKey(prec.value), l3.precedence)))
    else Ok(l3.(precedence := Some(prec.value)))
  }

  /** `PRECED_MAP[key]`, or `current` when the lookup raises and the
      exception is swallowed. */
  function PrecedenceLookup(key: PyKey, current: Option<string>): Option<string> {
    if key in PRECED_MAP then Some(PRECED_MAP[key]) else current
  }

  /** What the l3 clauses store when entry `was` becomes `now`: every search
      succeeds; `dscp` is set only if it is not there yet; `ttl` and its
      operator are assigned when the clause is there; a decimal precedence
      goes to `precedence_code` only (the name lookup never hits) and a
      named one to `precedence` only; nothing else changes. */
  predicate L3ClausesStored(was: L3, now: L3, left: string) {
    Dscp(left).Ok? && Ttl(left).Ok? && Precedence(left).Ok? &&
    now.protocol == was.protocol && now.sourceNetwork == was.sourceNetwork &&
    now.destinationNetwork == was.destinationNetwork &&
    now.dscp == was.dscp.OrElse(Dscp(left).value) &&
    (match Ttl(left).value
     case None => now.ttlOperator == was.ttlOperator && now.ttl == was.ttl
     case Some(t) => now.ttlOperator == Some(t.0) && now.ttl == Some(t.1)) &&
    (match Precedence(left).value
     case None => now.precedence == was.precedence && now.precedenceCode == was.precedenceCode
     case Some(w) =>
       if IsDigits(w) then now.precedenceCode == Some(Value(w)) && now.precedence == was.precedence
       else now.precedence == Some(w) && now.precedenceCode == was.precedenceCode)
  }

  /** `^(\d+) +(\d+)` on the stripped text: an icmp type and code. */
  function IcmpTypeCode(left: string): (r: Option<(nat, nat)>)
    ensures Strip(left) == [] || !IsDigitChar(Strip(left)[0]) ==> r.None?
  {
    match MatchAt(Strip(left), 0, IcmpPattern)
    case None => None
    case Some(f) =>
      MatchAtSound(Strip(left), 0, IcmpPattern);
      assert Holes(IcmpPattern) == [DigitRun, Blanks, DigitRun];
      Some((Value(f.groups[0]), Value(f.groups[2])))
  }

  // ---------------------------------------------------------------------
  // Ports

  /** `setdefault('operator', ...)` on a port entry: an operator already
      there is kept, and the range is left alone. */
  function MergeOperator(m: Option<PortMatch>, o: PortOperator): (pm: PortMatch)
    ensures pm.range == (if m.Some? then m.value.range else None)
    ensures m.Some? && m.value.operator.Some? ==> pm.operator == m.value.operator
    ensures m.None? || m.value.operator.None? ==> pm.operator == Some(o)
  {
    var pm := m.GetOr(PortMatch(None, None));
    pm.(operator := pm.operator.OrElse(Some(o)))
  }

  /** `setdefault('range', ...)` on a port entry: a range already there is
      kept, and the operator is left alone. */
  function MergeRange(m: Option<PortMatch>, r: PortRange): (pm: PortMatch)
    ensures pm.operator == (if m.Some? then m.value.operator else None)
    ensures m.Some? && m.value.range.Some? ==> pm.range == m.value.range
    ensures m.None? || m.value.range.None? ==> pm.range == Some(r)
  {
    var pm := m.GetOr(PortMatch(None, None));
    pm.(range := pm.range.OrElse(Some(r)))
  }

  /** The source-port clause: an operator other than `range` keeps the port
      text as it is; `range` translates the first two words of the port
      text and fails when there are fewer. */
  function SourcePort(l4: L4, clause: Option<PortClause>): (r: Result<L4>)
    ensures r.Ok? ==> r.value.(sourcePort := l4.sourcePort) == l4
  {
    if clause.None? || clause.value.port == "" || clause.value.operator == "" then Ok(l4)
    else
      var PortClause(op, port) := clause.value;
      if !Contains(op, "range") then
        Ok(l4.(sourcePort := Some(MergeOperator(l4.sourcePort, PortOperator(op, Str(port))))))
      else
        var ws := Words(port);
        if |ws| < 2 then Err(MissingPortToken)
        else Ok(l4.(sourcePort := Some(MergeRange(l4.sourcePort, PortRange(PortToken(ws[0]), PortToken(ws[1]))))))
  }

  /** The destination-port clause: a port text of one word is translated
      and kept with its operator, whatever the operator; otherwise the first
      two words become a range, again whatever the operator. */
  function DestinationPort(l4: L4, clause: Option<PortClause>): (r: Result<L4>)
    ensures r.Ok? ==> r.value.(destinationPort := l4.destinationPort) == l4
  {
    if clause.None? || clause.value.operator == "" then Ok(l4)
    else
      var PortClause(op, port) := clause.value;
      var ws := Words(port);
      if |ws| == 1 then
        Ok(l4.(destinationPort := Some(MergeOperator(l4.destinationPort, PortOperator(op, PortToken(port))))))
      else if |ws| < 2 then Err(MissingPortToken)
      else Ok(l4.(destinationPort := Some(MergeRange(l4.destinationPort, PortRange(PortToken(ws[0]), PortToken(ws[1]))))))
  }

  /** The source-port clause looks at no other field of the l4 entry. */
  lemma SourcePortReadsOnlyItsField(a: L4, b: L4, clause: Option<PortClause>)
    requires a.sourcePort == b.sourcePort
    ensures SourcePort(a, clause).Ok? == SourcePort(b, clause).Ok?
    ensures SourcePort(a, clause).Ok? ==> SourcePort(a, clause).value.sourcePort == SourcePort(b, clause).value.sourcePort
  {
  }

  /** The destination-port clause looks at no other field of the l4 entry. */
  lemma DestinationPortReadsOnlyItsField(a: L4, b: L4, clause: Option<PortClause>)
    requires a.destinationPort == b.destinationPort
    ensures DestinationPort(a, clause).Ok? == DestinationPort(b, clause).Ok?
    ensures DestinationPort(a, clause).Ok? ==>
      DestinationPort(a, clause).value.destinationPort == DestinationPort(b, clause).value.destinationPort
  {
  }

  // ---------------------------------------------------------------------
  // Extended (IPv4 and IPv6) ACEs

  /** The l3/l4 key of an extended ACE: "ip" is renamed "ipv4". */
  function ProtocolName(protocol: string): (p: string)
    ensures protocol == "ip" ==> p == "ipv4"
    ensures protocol != "ip" ==> p == protocol
    ensures p != "ip"
  {
    if protocol == "ip" then "ipv4" else protocol
  }

  /** An extended or IPv6 ACE, stored under its own sequence number. The
      failures come in the order the source meets them. */
  function AddExtended(acl: Acl, line: Shape): (r: Result<Acl>)
    requires line.Extended?
    ensures line.src == "" ==> r == Err(MissingSrc)
    ensures Contains(LeftText(line.left), "options") ==> r.Err?
    ensures line.src != "" ==> (r.Ok? <==> ExtendedAce(OpenAce(acl.aces, line.sequence, line.forwarding), line).Ok?)
    ensures r.Ok? ==> line.sequence in r.value.aces && r.value == acl.(aces := acl.aces[line.sequence := r.value.aces[line.sequence]])
    ensures r.Ok? ==> ExtendedStored(OpenAce(acl.aces, line.sequence, line.forwarding), r.value.aces[line.sequence], line)
    ensures r.Ok? ==> (
      var ace, left, p := r.value.aces[line.sequence], LeftText(line.left), ProtocolName(line.protocol);
      ace.name == line.sequence &&
      ace.actions.forwarding == (if line.sequence in acl.aces then acl.aces[line.sequence].actions.forwarding else line.forwarding) &&
      ace.actions.logging == Some(Logging(left)) &&
      p in ace.matches.l3 && ace.matches.l3[p].protocol == p &&
      Strip(line.src) in ace.matches.l3[p].sourceNetwork &&
      Strip(line.dst) in ace.matches.l3[p].destinationNetwork &&
      p in ace.matches.l4 && (ace.matches.l4[p].established <==> Contains(left, "established")))
  {
    if line.src == "" then Err(MissingSrc)
    else
      var ace :- ExtendedAce(OpenAce(acl.aces, line.sequence, line.forwarding), line);
      Ok(acl.(aces := acl.aces[line.sequence := ace]))
  }

  /** How an extended line turns entry `was` into `now`: every search of its
      trailing text succeeds; the logging action is assigned and the
      forwarding action kept; the packet count is set only if there is none
      yet; the l2 entry and the l3 and l4 entries of every other protocol
      are left alone; and the protocol's own l3 and l4 entries become what
      ExtendedL3 and ExtendedL4 make of the ones already there. */
  predicate ExtendedStored(was: Ace, now: Ace, line: Shape)
    requires line.Extended?
  {
    var left, p := LeftText(line.left), ProtocolName(line.protocol);
    var l3 := ExtendedL3(was.matches.l3, p, Strip(line.src), Strip(line.dst), left);
    var l4 := ExtendedL4(was.matches.l4, p, left, line.srcPort, line.dstPort);
    MatchedPackets(left).Ok? && l3.Ok? && l4.Ok? &&
    now.name == was.name && now.actions == was.actions.(logging := Some(Logging(left))) &&
    now.matchedPackets == was.matchedPackets.OrElse(MatchedPackets(left).value) &&
    now.matches == Matches(was.matches.l2, was.matches.l3[p := l3.value], was.matches.l4[p := l4.value])
  }

  /** The ACE of an extended line once its clauses are read. */
  function ExtendedAce(ace: Ace, line: Shape): (r: Result<Ace>)
    requires line.Extended?
    ensures Contains(LeftText(line.left), "options") ==> r.Err?
    ensures var left, p := LeftText(line.left), ProtocolName(line.protocol);
      r.Ok? <==> MatchedPackets(left).Ok? && ExtendedL3(ace.matches.l3, p, Strip(line.src), Strip(line.dst), left).Ok? &&
                 ExtendedL4(ace.matches.l4, p, left, line.srcPort, line.dstPort).Ok?
    ensures r.Ok? ==> ExtendedStored(ace, r.value, line)
  {
    var p, left := ProtocolName(line.protocol), LeftText(line.left);
    var packets :- MatchedPackets(left);
    var l3 :- ExtendedL3(ace.matches.l3, p, Strip(line.src), Strip(line.dst), left);
    var l4 :- ExtendedL4(ace.matches.l4, p, left, line.srcPort, line.dstPort);
    Ok(ace.(actions := ace.actions.(logging := Some(Logging(left))),
            matchedPackets := ace.matchedPackets.OrElse(packets),
            matches := ace.matches.(l3 := ace.matches.l3[p := l3], l4 := ace.matches.l4[p := l4])))
  }

  /** The l3 entry of an extended ACE: the source and destination networks
      added, then the `dscp`, `ttl` and `precedence` clauses. */
  function ExtendedL3(l3s: map<string, L3>, p: string, src: string, dst: string, left: string): (r: Result<L3>)
    ensures r.Ok? <==> Dscp(left).Ok? && Ttl(left).Ok? && Precedence(left).Ok?
    ensures r.Ok? ==> r.value.protocol == p && src in r.value.sourceNetwork && dst in r.value.destinationNetwork
    ensures r.Ok? ==> var was := OpenL3(l3s, p);
      L3ClausesStored(was.(sourceNetwork := was.sourceNetwork + {src}, destinationNetwork := was.destinationNetwork + {dst}), r.value, left)
  {
    var l3 := OpenL3(l3s, p);
    L3Clauses(l3.(sourceNetwork := l3.sourceNetwork + {src}, destinationNetwork := l3.destinationNetwork + {dst}), left)
  }

  /** The l4 entry of an extended ACE: the misspelled `options` search, then
      `established`, the port clauses, and an icmp type and code. */
  function ExtendedL4(l4s: map<string, L4>, p: string, left: string, srcPort: Option<PortClause>, dstPort: Option<PortClause>): (r: Result<L4>)
    ensures Contains(left, "options") ==> r == Err(MisspelledSearch)
    ensures !Contains(left, "options") ==>
      (r.Ok? <==> SourcePort(OpenL4(l4s, p), srcPort).Ok? && DestinationPort(OpenL4(l4s, p), dstPort).Ok?)
    ensures r.Ok? ==> (r.value.established <==> Contains(left, "established"))
    ensures r.Ok? ==> SourcePort(OpenL4(l4s, p), srcPort).Ok? && DestinationPort(OpenL4(l4s, p), dstPort).Ok?
    ensures r.Ok? ==>
      r.value.sourcePort == SourcePort(OpenL4(l4s, p), srcPort).value.sourcePort &&
      r.value.destinationPort == DestinationPort(OpenL4(l4s, p), dstPort).value.destinationPort
    ensures r.Ok? ==> var icmp := if p == "icmp" then IcmpTypeCode(left) else None;
      if icmp.Some? then r.value.icmpType == Some(icmp.value.0) && r.value.icmpCode == Some(icmp.value.1)
      else r.value.icmpType == OpenL4(l4s, p).icmpType && r.value.icmpCode == OpenL4(l4s, p).icmpCode
  {
    if Contains(left, "options") then Err(MisspelledSearch)
    else
      var l4 := OpenL4(l4s, p).(established := Contains(left, "established"));
      SourcePortReadsOnlyItsField(l4, OpenL4(l4s, p), srcPort);
      var l4 :- SourcePort(l4, srcPort);
      DestinationPortReadsOnlyItsField(l4, OpenL4(l4s, p), dstPort);
      var l4 :- DestinationPort(l4, dstPort);
      var icmp := if p == "icmp" then IcmpTypeCode(left) else None;
      Ok(if icmp.Some? then l4.(icmpType := Some(icmp.value.0), icmpCode := Some(icmp.value.1)) else l4)
  }

  // ---------------------------------------------------------------------
  // MAC ACEs

  /** One MAC clause: its groups, and the text with every match of its
      pattern removed (unchanged when the keyword is missing). */
  function TakeClause(left: string, word: string, pat: seq<Atom>): (r: Result<(Option<seq<string>>, string)>)
    requires Consumes(pat)
    ensures r.Ok? ==> |r.value.1| <= |left|
    ensures r.Ok? && r.value.0.None? ==> r.value.1 == left
    ensures r.Ok? && r.value.0.Some? ==> r.value.1 == Erase(left, pat)
    ensures r.Ok? && r.value.0.Some? ==>
      |r.value.0.value| == |Holes(pat)| && forall k :: 0 <= k < |r.value.0.value| ==> Fits(r.value.0.value[k], Holes(pat)[k])
  {
    var g :- Clause(left, word, pat);
    Ok((g, if g.Some? then Erase(left, pat) else left))
  }

  /** `l2.setdefault('eth', {})` with the two addresses assigned: an entry
      already there keeps its other fields. */
  function OpenEth(l2: Option<Eth>, src: string, dst: string): (e: Eth)
    ensures e.sourceMac == src && e.destinationMac == dst
    ensures l2.Some? ==> e.(sourceMac := l2.value.sourceMac, destinationMac := l2.value.destinationMac) == l2.value
    ensures l2.None? ==> e.etherType.None? && e.cos.None? && e.vlan.None? && e.protocolFamily.None? && e.lsap.None?
  {
    l2.GetOr(Eth(dst, src, None, None, None, None, None)).(destinationMac := dst, sourceMac := src)
  }

  /** A MAC ACE under `key`, with its source and destination addresses
      assigned and the clauses of its trailing text applied. */
  function AddMac(acl: Acl, key: Digits, forwarding: string, src: string, dst: string, left: Option<string>): (r: Result<Acl>)
    ensures var was := OpenAce(acl.aces, key, forwarding);
      r.Ok? <==> MacClauses(OpenEth(was.matches.l2, Strip(src), Strip(dst)), LeftText(left)).Ok?
    ensures r.Ok? ==>
      r.value.name == acl.name && r.value.aclType == acl.aclType && r.value.perUser == acl.perUser &&
      r.value.aces.Keys == acl.aces.Keys + {key} &&
      forall k :: k in acl.aces && k != key ==> r.value.aces[k] == acl.aces[k]
    ensures r.Ok? ==> (
      var ace, was := r.value.aces[key], OpenAce(acl.aces, key, forwarding);
      ace.name == key &&
      ace.actions.forwarding == (if key in acl.aces then acl.aces[key].actions.forwarding else forwarding) &&
      ace.actions.logging == Some(Logging(LeftText(left))) &&
      ace.matchedPackets == was.matchedPackets &&
      ace.matches.l3 == was.matches.l3 && ace.matches.l4 == was.matches.l4 &&
      ace.matches.l2 == Some(MacClauses(OpenEth(was.matches.l2, Strip(src), Strip(dst)), LeftText(left)).value))
    ensures r.Ok? ==> (
      var ace := r.value.aces[key];
      ace.matches.l2.Some? && ace.matches.l2.value.sourceMac == Strip(src) &&
      ace.matches.l2.value.destinationMac == Strip(dst))
  {
    var text := LeftText(left);
    var ace := OpenAce(acl.aces, key, forwarding);
    var eth :- MacClauses(OpenEth(ace.matches.l2, Strip(src), Strip(dst)), text);
    var ace := ace.(actions := ace.actions.(logging := Some(Logging(text))),
                    matches := ace.matches.(l2 := Some(eth)));
    Ok(acl.(aces := acl.aces[key := ace]))
  }

  /** `cos +(\d+)` or `vlan +(\d+)`: the number, and the text without it. */
  function TakeNumber(left: string, word: string, pat: seq<Atom>): (r: Result<(Option<nat>, string)>)
    requires Consumes(pat) && Holes(pat) == [Blanks, DigitRun]
    ensures r.Ok? ==> |r.value.1| <= |left|
  {
    var g :- TakeClause(left, word, pat);
    Ok((if g.0.Some? then Some(Value(g.0.value[1])) else None, g.1))
  }

  /** `protocol-family +(\w+)` or `lsap +(\w+ +\w+)`: the text of the groups
      after the keyword's blanks, and the text without the clause. */
  function TakeWords(left: string, word: string, pat: seq<Atom>): (r: Result<(Option<string>, string)>)
    requires Consumes(pat) && |Holes(pat)| >= 2
    ensures r.Ok? ==> |r.value.1| <= |left|
  {
    var g :- TakeClause(left, word, pat);
    Ok((if g.0.Some? then Some(Concat(g.0.value[1..])) else None, g.1))
  }

  /** The clauses of a MAC line's trailing text: `cos`, `vlan`,
      `protocol-family` and `lsap` taken out one after another, each set if
      not there yet, and what remains, stripped, assigned to `ether_type`
      when it is not empty. */
  function MacClauses(eth: Eth, left: string): (r: Result<Eth>)
    ensures r.Err? ==> r.error in {ClauseNotFound("cos"), ClauseNotFound("vlan"), ClauseNotFound("protocol-family"), ClauseNotFound("lsap")}
    ensures r.Ok? ==> r.value.sourceMac == eth.sourceMac && r.value.destinationMac == eth.destinationMac
    ensures r.Ok? ==> (r.value.cos.Some? <==> eth.cos.Some? || Contains(left, "cos"))
    ensures r.Ok? ==>
      (eth.cos.Some? ==> r.value.cos == eth.cos) && (eth.vlan.Some? ==> r.value.vlan == eth.vlan) &&
      (eth.protocolFamily.Some? ==> r.value.protocolFamily == eth.protocolFamily) &&
      (eth.lsap.Some? ==> r.value.lsap == eth.lsap)
    ensures r.Ok? && r.value.etherType != eth.etherType ==>
      r.value.etherType.Some? && r.value.etherType.value != [] && !IsSpaceChar(r.value.etherType.value[0])
  {
    var (cos, left) :- TakeNumber(left, "cos", CosPattern);
    var (vlan, left) :- TakeNumber(left, "vlan", VlanPattern);
    var (family, left) :- TakeWords(left, "protocol-family", FamilyPattern);
    var (lsap, left) :- TakeWords(left, "lsap", LsapPattern);
    var rest := Strip(left);
    var eth := eth.(cos := eth.cos.OrElse(cos), vlan := eth.vlan.OrElse(vlan),
                    protocolFamily := eth.protocolFamily.OrElse(family), lsap := eth.lsap.OrElse(lsap));
    Ok(if rest != "" then eth.(etherType := Some(rest)) else eth)
  }
}
