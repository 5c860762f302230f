# show access-lists (IOS-XE) in Dafny

This project models the parser of the IOS-XE `show access-lists` command
(`ShowAccessLists.cli`). It also models the three lookup tables the parser uses:
- `OPER_MAP`, port names to port numbers;
- `PRECED_MAP`, precedence numbers to names;
- `OPT_MAP`, IP option names to numbers.

The parser reads the command output line by line:
- A header line (`Extended IP access list NAME`, `Standard IP access list NAME`,
  `ip access-list extended NAME`, `IPv6 access list NAME`,
  `Extended MAC access list NAME`) opens an access list, or reopens it.
- Each later ACE line (access-control entry) goes into the list that was opened last.
- Standard and MAC ACEs are numbered ten past the key that sorts last *as text*.
  A MAC line carries no number. A standard line may print one; it is captured
  and then ignored.
- Extended and IPv6 ACEs are stored under their own sequence number.
- The trailing text of an ACE is searched for clauses: `(N matches)`, `dscp`,
  `ttl`, `precedence`, `options`, `established`, ports, icmp type and code,
  `cos`, `vlan`, `protocol-family`, `lsap`, and the ether type.
- Python exceptions end the parse. The model has one `Failure` value for each:
  - `NoOpenAcl`: an ACE line before any header.
  - `MissingSrc`: an extended line with no source.
  - `ClauseNotFound`: a keyword that is present but whose search finds nothing.
  - `MisspelledSearch`: any `options` clause, because the source calls `re.sealrch`.
  - `MissingPortToken`: a source `range` with fewer than two words, or a blank
    destination port text under any operator.

Modules:
- `Wrappers`: `Option`.
- `Text`: decimal text, `str.strip`, `str.split`, text order and `sorted(...)[-1]`.
- `Clauses`: the clause regular expressions as sequences of literal, ` +`, `\w+`
  and `\d+` pieces, with `re.search` and `re.sub`.
- `AclTables`: the three tables and port-token translation.
- `AclModel`: the result dictionary as datatypes, plus the classified forms of a line.
- `AclBuild`: how one line changes one access list.
- `AclParser`: the loop, as the method `Parse`. It is proved equal to a fold of
  `Step` over the lines.
- `AclProperties`: the promised behaviour, proved about the model.

Auto-numbering follows the code as written, including its text order. After the
keys "10", "20", …, "100", the key that sorts last is "90", so the next number is
"100" again. An eleventh standard ACE is therefore merged into entry "100".

## Model

| member | source | states |
|---|---|---|
| AclBuild.AclType | src/genie/libs/parser/iosxe/show_acl.py:322-334 | The three IPv4 header forms, and only they, give `ipv4-acl-type`; the IPv6 header gives `ipv6-acl-type`; the MAC header gives `eth-acl-type`. |
| AclBuild.OpenAcl | src/genie/libs/parser/iosxe/show_acl.py:338-344 | A header assigns `name` and `type`. `per_user` is true exactly when the suffix is non-empty or the stored list already had it. The ACEs of a stored list are kept; a new list has none. |
| AclProperties.RepeatedHeaderKeepsAces | src/genie/libs/parser/iosxe/show_acl.py:340-344 | A header naming a stored list reopens it. Its ACEs are unchanged, its type is the new header's, and `per_user` only ever turns on. |
| AclParser.Step | src/genie/libs/parser/iosxe/show_acl.py:336-358 | One classified line keeps the cursor valid. An unclassified line changes nothing. A header always succeeds and moves the cursor to its list. An ACE with no open list fails with `NoOpenAcl`. A successful ACE line changes only the list under the cursor. |
| AclParser.Run | src/genie/libs/parser/iosxe/show_acl.py:311-312 | Folding the lines from a valid state ends, when it succeeds, in a valid state. |
| AclParser.ApplyLine | src/genie/libs/parser/iosxe/show_acl.py:336-602 | The loop body for one line computes exactly `Step`, with the next number found by `NextSequence`. |
| AclParser.Parse | src/genie/libs/parser/iosxe/show_acl.py:311-604 | The loop returns the fold of `Step` over the stripped, classified lines: the dictionary of lists, or the first failure. |
| AclParser.NumberingKeys | src/genie/libs/parser/iosxe/show_acl.py:356 | The keys that are sorted are never empty and all decimal: `{'0'}` stands in when there are no ACEs. |
| AclParser.NextNumber | src/genie/libs/parser/iosxe/show_acl.py:356 | The next standard or MAC number is canonical decimal text. |
| AclParser.NextSequence | src/genie/libs/parser/iosxe/show_acl.py:555-557 | One pass over the keys, followed by adding ten, gives exactly `NextNumber`. |
| Text.LastInSortedOrder | src/genie/libs/parser/iosxe/show_acl.py:356 | The key found is `sorted(keys)[-1]`: a key that every other key precedes or equals as text. |
| Text.SortedLast | src/genie/libs/parser/iosxe/show_acl.py:356 | Every non-empty set of keys has a last key in text order. |
| Text.SortedLastUnique | src/genie/libs/parser/iosxe/show_acl.py:356 | A set has at most one last key in text order. |
| Text.SameWidthOrder | src/genie/libs/parser/iosxe/show_acl.py:356 | For decimal texts of one width, text order and numeric order agree, in both directions. |
| Text.CanonicalRoundTrip | src/genie/libs/parser/iosxe/show_acl.py:356-357 | `str(int(s)) == s` for canonical decimal text. |
| AclProperties.FirstNumberIsTen | src/genie/libs/parser/iosxe/show_acl.py:356 | The first standard or MAC ACE of a list is numbered "10". |
| AclProperties.SameWidthNumbering | src/genie/libs/parser/iosxe/show_acl.py:356 | While all keys have one width, the next number is a new key, ten more than the largest. |
| AclProperties.NinetySortsLast | src/genie/libs/parser/iosxe/show_acl.py:356 | Each of "10", …, "100" sorts no later than "90" as text. |
| AclProperties.NinetyIsSortedLast | src/genie/libs/parser/iosxe/show_acl.py:356 | Of "10", …, "100", "90" is `sorted(keys)[-1]`. |
| AclProperties.NextNumberOfKeys | src/genie/libs/parser/iosxe/show_acl.py:356 | The next number is ten past whichever key sorts last. |
| AclProperties.EleventhNumberRepeats | src/genie/libs/parser/iosxe/show_acl.py:356 | With the keys "10" to "100", the next number is "100", a key that already exists. |
| AclProperties.EleventhStandardAceMerges | src/genie/libs/parser/iosxe/show_acl.py:356-380 | The eleventh standard ACE adds no key. Entry "100" keeps its actions and gains the new source network. |
| AclBuild.AddStandard | src/genie/libs/parser/iosxe/show_acl.py:356-380 | The list gains the key and nothing else in it changes. A new entry is exactly its name, the forwarding action, and an `ipv4` l3 entry whose only source network is `SourceNetwork(src, wildcard)`. An existing entry keeps its actions, counters, l2 and l4 and its other l3 entries. Its `ipv4` entry gets protocol `ipv4` and keeps its other fields. Its source networks grow by exactly the new one. |
| AclProperties.StandardIgnoresItsNumber | src/genie/libs/parser/iosxe/show_acl.py:356-358 | The number printed on a standard line plays no part in the result. |
| AclProperties.SourceNetworkSplits | src/genie/libs/parser/iosxe/show_acl.py:369-375 | The source-network text splits back into the address and the wildcard bits; into `0.0.0.0` for a host; and into `any` alone for `any`. |
| AclBuild.Logging | src/genie/libs/parser/iosxe/show_acl.py:420 | `log-syslog` exactly when the trailing text contains `log`, and `log-none` exactly when it does not. |
| AclBuild.ProtocolName | src/genie/libs/parser/iosxe/show_acl.py:403-404 | `ip` becomes `ipv4`; any other protocol is kept; the key is never `ip`. |
| AclBuild.AddExtended | src/genie/libs/parser/iosxe/show_acl.py:400-548 | An empty source fails with `MissingSrc`, and any `options` clause fails. Otherwise the result succeeds exactly when `ExtendedAce` does on the opened entry. On success the list equals the old one with only the entry under the line's own sequence number replaced. That entry is `ExtendedStored`: counters from `(N matches)` when present; the protocol's l3 entry holds both networks and the dscp/ttl/precedence clauses; its l4 entry holds `established`, the ports and the icmp type and code. Its forwarding action is the first one stored, and its logging follows `log`. |
| AclBuild.ExtendedAce | src/genie/libs/parser/iosxe/show_acl.py:415-548 | `options` fails. Otherwise the line succeeds exactly when the matches search, the l3 clauses and the l4 clauses all succeed. The new entry is `ExtendedStored` from the old one: name and forwarding kept; logging from `log`; counters kept or set from the search; l3 and l4 of other protocols kept; this protocol's l3 and l4 as `ExtendedL3` and `ExtendedL4` give them. |
| AclBuild.ExtendedL3 | src/genie/libs/parser/iosxe/show_acl.py:428-454 | Succeeds exactly when the dscp, ttl and precedence searches do. The entry has the protocol, contains both networks, and is `L3ClausesStored` from the opened entry with the two networks added. |
| AclBuild.L3Clauses | src/genie/libs/parser/iosxe/show_acl.py:437-454 | Succeeds exactly when the three searches do. The result is `L3ClausesStored`: protocol and networks kept; `dscp` set only if unset; `ttl_operator` and `ttl` overwritten when `ttl` is present; a numeric precedence overwrites only `precedence_code`, a named one only `precedence`. |
| AclBuild.ExtendedL4 | src/genie/libs/parser/iosxe/show_acl.py:457-547 | A text with `options` always fails, because the search function is misspelled. Otherwise it succeeds exactly when the two port clauses do. `established` is set exactly when the word is present. The ports are the ones the port clauses give. For `icmp` with `T C` at the start of the stripped text, the type and code are T and C; otherwise they are kept. |
| AclBuild.Clause | src/genie/libs/parser/iosxe/show_acl.py:423-426 | No keyword means nothing is read. A keyword whose search succeeds gives one group per run, each fitting its run. A keyword whose search fails gives `ClauseNotFound` for that keyword. |
| AclProperties.ClauseFound | src/genie/libs/parser/iosxe/show_acl.py:423-426 | A clause whose pattern matches at a position, and nowhere before it, is read from exactly that match. |
| AclProperties.MatchedPacketsRead | src/genie/libs/parser/iosxe/show_acl.py:423-426 | `(N matches)` after text with no parenthesis gives N matched packets. |
| AclProperties.DscpRead | src/genie/libs/parser/iosxe/show_acl.py:437-438 | `dscp W` after text that does not contain `dscp` gives the word W. |
| AclProperties.TtlRead | src/genie/libs/parser/iosxe/show_acl.py:440-443 | `ttl OP N` after text that does not contain `ttl` gives the operator OP and the value N. |
| AclProperties.PrecedenceRead | src/genie/libs/parser/iosxe/show_acl.py:445-446 | `precedence W` after text that does not contain `precedence` gives the word W. |
| AclProperties.PrecedenceStored | src/genie/libs/parser/iosxe/show_acl.py:445-454 | A decimal precedence sets only `precedence_code`, because the name lookup never hits. A named precedence sets only `precedence`. |
| AclTables.NumericPrecedenceHasNoName | src/genie/libs/parser/iosxe/show_acl.py:447-452 | The precedence word, a string, is never a key of the integer-keyed `PRECED_MAP`. |
| AclBuild.SourcePort | src/genie/libs/parser/iosxe/show_acl.py:473-500 | The source-port clause changes only the source port of the l4 entry. |
| AclBuild.DestinationPort | src/genie/libs/parser/iosxe/show_acl.py:502-540 | The destination-port clause changes only the destination port of the l4 entry. |
| AclProperties.SourcePortKeptAsText | src/genie/libs/parser/iosxe/show_acl.py:474-479 | A source port under any operator except `range` is kept as text, untranslated. |
| AclProperties.SourceRangeTranslated | src/genie/libs/parser/iosxe/show_acl.py:480-500 | `range A B` on the source side is stored as a range of the two translated tokens. |
| AclProperties.SourceRangeOfOneFails | src/genie/libs/parser/iosxe/show_acl.py:480-482 | A source `range` with one port fails with `MissingPortToken`. |
| AclProperties.DestinationPortOfOne | src/genie/libs/parser/iosxe/show_acl.py:503-517 | One destination port is translated and kept with its operator. |
| AclProperties.DestinationPortOfTwo | src/genie/libs/parser/iosxe/show_acl.py:518-540 | Two destination ports become a range of the two translated tokens, whatever the operator. |
| AclTables.PortTokenTranslates | src/genie/libs/parser/iosxe/show_acl.py:483-496 | Decimal text `str(n)` translates to n, and a known port name to its number in `OPER_MAP`. |
| AclTables.UnknownPortTokenKept | src/genie/libs/parser/iosxe/show_acl.py:484-488 | A token that is neither decimal nor a known name is kept unchanged, and the parse goes on. |
| AclTables.PortNamesAreNotNumbers | src/genie/libs/parser/iosxe/show_acl.py:161-226 | No name in `OPER_MAP` is decimal text, so the `isdigit` test never shadows a name. |
| AclTables.TcpNameStartsWithLetter | src/genie/libs/parser/iosxe/show_acl.py:162-197 | Every TCP port name starts with a lower-case letter. |
| AclTables.UdpNameStartsWithLetter | src/genie/libs/parser/iosxe/show_acl.py:198-225 | Every UDP port name starts with a lower-case letter. |
| AclProperties.IcmpTypeCodeRead | src/genie/libs/parser/iosxe/show_acl.py:543-547 | Stripped trailing text that begins `T C` gives the icmp type T and code C. |
| AclProperties.IcmpMatch | src/genie/libs/parser/iosxe/show_acl.py:544 | `^(\d+) +(\d+)` matches two numbers at the start of the text, with exactly those groups. |
| AclBuild.AddMac | src/genie/libs/parser/iosxe/show_acl.py:555-602 | Succeeds exactly when `MacClauses` does on the opened l2 entry with the stripped addresses. The list gains the key and nothing else changes. The entry has its name, its first forwarding action, logging iff `log`, unchanged counters, l3 and l4. Its l2 is exactly the `MacClauses` result, so it holds the stripped source and destination MAC addresses. |
| AclBuild.MacClauses | src/genie/libs/parser/iosxe/show_acl.py:577-602 | Fails only with a `ClauseNotFound` for one of the four keywords. On success the MAC addresses are kept, and every field already set stays set as it was. `cos` is set exactly when it was already set or the text contains `cos`. A changed ether type is non-empty stripped text. |
| AclBuild.TakeClause | src/genie/libs/parser/iosxe/show_acl.py:577-599 | A missing keyword leaves the text as it was. A clause that is found gives groups that fit its runs, and leaves the text with every match of the pattern erased, which is never longer. `ClauseTakenOut` gives that text for a single match. |
| AclBuild.TakeNumber | src/genie/libs/parser/iosxe/show_acl.py:577-587 | Taking out `cos` or `vlan` never lengthens the text. |
| AclBuild.TakeWords | src/genie/libs/parser/iosxe/show_acl.py:589-599 | Taking out `protocol-family` or `lsap` never lengthens the text. |
| AclProperties.ClauseTakenWhole | src/genie/libs/parser/iosxe/show_acl.py:577-599 | A text that is exactly one clause is found whole, and erasing the clause leaves nothing. |
| AclProperties.CosTaken | src/genie/libs/parser/iosxe/show_acl.py:577-581 | `cos N` is taken out whole as the number N. |
| AclProperties.VlanTaken | src/genie/libs/parser/iosxe/show_acl.py:583-587 | `vlan N` is taken out whole as the number N. |
| AclProperties.FamilyTaken | src/genie/libs/parser/iosxe/show_acl.py:589-593 | `protocol-family W` is taken out whole as the word W. |
| AclProperties.LsapTaken | src/genie/libs/parser/iosxe/show_acl.py:595-599 | `lsap A B` is taken out whole as `A B`. |
| AclProperties.CosRead | src/genie/libs/parser/iosxe/show_acl.py:577-602 | `cos N` alone sets `cos` unless it is already set, and leaves no ether type. |
| AclProperties.EmptyTakesNothing | src/genie/libs/parser/iosxe/show_acl.py:583-599 | Once the text is used up, the later clauses find nothing and change nothing. |
| AclProperties.EtherTypeIsTheRest | src/genie/libs/parser/iosxe/show_acl.py:600-602 | Trailing text with none of the four keywords, stripped, is the ether type. Blank text sets none. |
| AclProperties.AceBeforeHeaderFails | src/genie/libs/parser/iosxe/show_acl.py:353-356 | An ACE line before any header fails with `NoOpenAcl`, whatever unclassified lines come first. |
| AclProperties.OtherLinesIgnored | src/genie/libs/parser/iosxe/show_acl.py:311-604 | Removing the unclassified lines does not change the result. |
| AclProperties.StepOfAce | src/genie/libs/parser/iosxe/show_acl.py:400-401 | An ACE line replaces the list under the cursor by the updated list, or passes the failure on. |
| AclProperties.StandardKeepsNames | src/genie/libs/parser/iosxe/show_acl.py:357-358 | A standard ACE keeps every entry's name equal to its key. |
| AclProperties.ExtendedKeepsNames | src/genie/libs/parser/iosxe/show_acl.py:400-401 | An extended ACE keeps every entry's name equal to its key. |
| AclProperties.MacKeepsNames | src/genie/libs/parser/iosxe/show_acl.py:556-557 | A MAC ACE keeps every entry's name equal to its key. |
| AclProperties.HeaderKeepsNames | src/genie/libs/parser/iosxe/show_acl.py:340-341 | A header keeps every list's name equal to its key. |
| AclProperties.StepKeepsNames | src/genie/libs/parser/iosxe/show_acl.py:336-602 | One line keeps every list and entry named by its own key. |
| AclProperties.RunKeepsNames | src/genie/libs/parser/iosxe/show_acl.py:311-604 | The whole parse keeps every list and entry named by its own key. |
| Clauses.MatchAt | src/genie/libs/parser/iosxe/show_acl.py:426 | A match starts where it was asked to, lies within the text, has one group per run, and is non-empty for a pattern that consumes input. |
| Clauses.MatchAtSound | src/genie/libs/parser/iosxe/show_acl.py:426 | Every group of a match fits its run. Putting the groups in the runs' places gives back the matched text. |
| Clauses.MatchAtComplete | src/genie/libs/parser/iosxe/show_acl.py:426 | Taking runs whole misses no match of these patterns. |
| Clauses.MatchAtExact | src/genie/libs/parser/iosxe/show_acl.py:441 | A match whose last run cannot go on is exactly the one found, groups and end included. |
| Clauses.Search | src/genie/libs/parser/iosxe/show_acl.py:438 | `re.search` gives the leftmost match, and gives none only when no position matches. |
| Clauses.Erase | src/genie/libs/parser/iosxe/show_acl.py:581 | `re.sub(p, '', s)` never lengthens the text, and leaves it unchanged exactly when nothing matches. `EraseOneMatch` gives the exact result for a single match. |
| Text.Strip | src/genie/libs/parser/iosxe/show_acl.py:312 | The stripped line is the line without blanks at either end, and is empty exactly when the line is blank. |
| Text.Words | src/genie/libs/parser/iosxe/show_acl.py:481-482 | `split()` gives non-empty words without blanks. Concatenated, they hold the line's non-blank characters. Each followed by one blank, they give the line with every run of blanks made one blank after a word (`Spaced`), so `UnwordsInjective` fixes the split. |
| AclTables.PortToken | src/genie/libs/parser/iosxe/show_acl.py:483-496 | A token becomes a number exactly when it is decimal or a known name. Otherwise it is kept as the same text. |
| AclTables.WwwIsPort80 | src/genie/libs/parser/iosxe/show_acl.py:197 | `www`, a TCP-only name, is port 80. |
| AclTables.DomainIsPort53 | src/genie/libs/parser/iosxe/show_acl.py:161-226 | `domain`, in both halves of the table, is port 53 either way. |
| AclTables.TcpOnlyPort | src/genie/libs/parser/iosxe/show_acl.py:161-226 | A TCP name that the UDP half lacks keeps its TCP number in the merged table. |
| AclTables.UdpPort | src/genie/libs/parser/iosxe/show_acl.py:161-226 | A UDP name keeps its UDP number in the merged table. |
| AclTables.PrecedenceTableCoversEightValues | src/genie/libs/parser/iosxe/show_acl.py:151-159 | `PRECED_MAP` is keyed by the ints 0 to 7, each present: 7 is `network` and 0 is `routine`. |
| AclTables.OptionNumbersAreBytes | src/genie/libs/parser/iosxe/show_acl.py:123-149 | Every IP option number fits in one byte; `record-route` is 7 and `router-alert` is 148. |
| AclBuild.SourceNetwork | src/genie/libs/parser/iosxe/show_acl.py:369-375 | The source text comes first. The result is the source alone exactly when there are no wildcard bits and the source is `any`. |
| AclBuild.LeftText | src/genie/libs/parser/iosxe/show_acl.py:415 | `str(group['left'])`: the trailing text, or `None` when there is none. |
| AclBuild.MatchedPackets | src/genie/libs/parser/iosxe/show_acl.py:423-426 | No ` matches` reads nothing. A ` matches` gives a count, or `ClauseNotFound` when its search fails. |
| AclBuild.Dscp | src/genie/libs/parser/iosxe/show_acl.py:437-438 | No `dscp` reads nothing. A `dscp` gives a word, or `ClauseNotFound` when its search fails. |
| AclBuild.Ttl | src/genie/libs/parser/iosxe/show_acl.py:440-443 | No `ttl` reads nothing. A `ttl` gives an operator word and a value, or `ClauseNotFound` when its search fails. |
| AclBuild.Precedence | src/genie/libs/parser/iosxe/show_acl.py:445-446 | No `precedence` reads nothing. A `precedence` gives a word, or `ClauseNotFound` when its search fails. |
| AclBuild.IcmpTypeCode | src/genie/libs/parser/iosxe/show_acl.py:543-547 | Stripped text that is empty or does not start with a digit gives no type and code. |
| AclBuild.OpenAce | src/genie/libs/parser/iosxe/show_acl.py:400-401 | `setdefault`: the entry has the key as its name. An existing entry keeps its actions, matches and counters. A new one has just the forwarding action and empty matches. |
| AclBuild.OpenL3 | src/genie/libs/parser/iosxe/show_acl.py:428-431 | `setdefault` then the protocol assignment: an existing entry keeps every other field; a new one is empty apart from the protocol. |
| AclBuild.OpenL4 | src/genie/libs/parser/iosxe/show_acl.py:457-458 | `setdefault`: an existing entry is kept as it is; a new one is empty. |
| AclBuild.MergeOperator | src/genie/libs/parser/iosxe/show_acl.py:475-479 | The first operator and port stored win; the range is untouched. |
| AclBuild.MergeRange | src/genie/libs/parser/iosxe/show_acl.py:497-500 | The first lower and upper ports stored win; the operator is untouched. |
| AclBuild.SourcePortReadsOnlyItsField | src/genie/libs/parser/iosxe/show_acl.py:473-500 | The source-port clause reads no field of the l4 entry but the source port. |
| AclBuild.DestinationPortReadsOnlyItsField | src/genie/libs/parser/iosxe/show_acl.py:502-540 | The destination-port clause reads no field of the l4 entry but the destination port. |
| AclBuild.OpenEth | src/genie/libs/parser/iosxe/show_acl.py:572-575 | The two addresses are assigned. An existing l2 entry keeps every other field; a new one has none set. |
| AclParser.AddAce | src/genie/libs/parser/iosxe/show_acl.py:356-602 | Header and unclassified lines change nothing, and a standard ACE always succeeds. An ACE keeps the list's name, type and `per_user`, and adds at most one key. |
| AclProperties.PrecedenceBeforeTtl | src/genie/libs/parser/iosxe/show_acl.py:445-446 | In `precedence W ttl OP N`, the precedence search gives W. |
| AclProperties.TtlAfterPrecedence | src/genie/libs/parser/iosxe/show_acl.py:440-443 | In `precedence W ttl OP N`, the ttl search gives OP and N. |
| AclProperties.PrecedenceNetworkExample | src/genie/libs/parser/iosxe/show_acl.py:388 | The trailing text of the sample line `... precedence network ttl eq 255` gives the precedence `network`. |
| AclProperties.TtlEqExample | src/genie/libs/parser/iosxe/show_acl.py:388 | The same text gives the ttl operator `eq` and the value 255. |
| AclProperties.ExtendedPrecedenceTtlStored | src/genie/libs/parser/iosxe/show_acl.py:440-454 | An extended line ending in `precedence W ttl OP N` stores W (as `precedence_code` when decimal), OP and N in its protocol's l3 entry. |
| AclProperties.ClauseTakenOut | src/genie/libs/parser/iosxe/show_acl.py:577-599 | A clause matched at one place, and nowhere else, is read from that match and cut out of the text, leaving what came before and after it. |
| AclProperties.NumberTakenOut | src/genie/libs/parser/iosxe/show_acl.py:577-587 | `kw N` inside a text with no other `kw` gives N and leaves the text before and after the clause. |
| AclProperties.VlanRead | src/genie/libs/parser/iosxe/show_acl.py:583-587 | `vlan N` alone, as in `deny any any vlan 10`, sets `vlan` to N unless it is set already, and sets no ether type. |
| AclProperties.VlanThenEtherType | src/genie/libs/parser/iosxe/show_acl.py:583-602 | `vlan N T`, with T free of the four keywords, sets `vlan` unless it is already set, and T stripped, when not blank, is the ether type. |
| AclProperties.CosThenVlan | src/genie/libs/parser/iosxe/show_acl.py:577-602 | `cos N vlan M` sets both numbers, each unless already set, and no ether type: the `cos` erase leaves the `vlan` clause to be read. |
| AclProperties.MacVlanStored | src/genie/libs/parser/iosxe/show_acl.py:555-602 | A new MAC ACE with trailing `vlan N T` stores vlan N, no class of service, and the ether type T when T is not blank. |
| AclProperties.VlanTakenFirst | src/genie/libs/parser/iosxe/show_acl.py:583-587 | `vlan N T` gives N and leaves ` T`. |
| AclProperties.CosTakenFirst | src/genie/libs/parser/iosxe/show_acl.py:577-581 | `cos N vlan M` gives N and leaves ` vlan M`. |
| AclProperties.VlanTakenSecond | src/genie/libs/parser/iosxe/show_acl.py:583-587 | ` vlan M` gives M and leaves a blank. |
| AclProperties.NoCosBeforeVlan | src/genie/libs/parser/iosxe/show_acl.py:577-581 | `vlan N T` has no `cos` clause when T has none, and is left as it was. |
| AclProperties.KeywordWordRead | src/genie/libs/parser/iosxe/show_acl.py:437-446 | A keyword followed by one word, at the first place the keyword occurs, gives that word. |
| AclProperties.KeywordWordNumberRead | src/genie/libs/parser/iosxe/show_acl.py:440-443 | A keyword followed by a word and a number, at the first place the keyword occurs, gives both. |
| Clauses.EraseKeeps | src/genie/libs/parser/iosxe/show_acl.py:581 | Where no match starts, the text is copied unchanged. |
| Clauses.EraseOneMatch | src/genie/libs/parser/iosxe/show_acl.py:581 | With exactly one match, `re.sub` removes that match and keeps the text around it. |
| Clauses.NoKeywordNoMatch | src/genie/libs/parser/iosxe/show_acl.py:577-599 | Text without a pattern's keyword holds no match of it. |
| Text.UnwordsInjective | src/genie/libs/parser/iosxe/show_acl.py:481-482 | Two splits into blank-free non-empty words that read the same are equal. |
| Text.SpacedWord | src/genie/libs/parser/iosxe/show_acl.py:481-482 | A text that starts with a word reads as that word, one blank, and the rest. |
| Text.ContainsAfter | src/genie/libs/parser/iosxe/show_acl.py:577-599 | A keyword whose first letter is missing from a prefix occurs in the text only after that prefix. |
| Text.StripBlankFirst | src/genie/libs/parser/iosxe/show_acl.py:600 | A leading blank does not change the stripped text. |

## Left out

- Running the command on a device, and the `output` argument, are not modelled. The model starts from the output lines.
- `splitlines()` is not modelled: `Parse` takes the lines already split.
- The header and ACE regular expressions that classify a line are a parameter, `classify`. Each line is stripped before `classify` sees it. The shapes it may return are in `AclModel.Shape`. The clause searches on the trailing text are modelled in full.
- Character classes are ASCII only. `\w`, `\d`, `isdigit` and `strip` accept more characters in Python.
- The dictionary schema the parser class inherits is not modelled. A value of the wrong type, such as a named destination port that `OPER_MAP` does not know, is stored as the source stores it.
- `OPT_MAP`'s `any-options` entry is a random number in the source and is left out. The table is never read, because every `options` clause fails at the misspelled search before the lookup.
- Dictionary insertion order is not modelled: the result is a map.
- The source updates nested dictionaries in place through aliases (`acl_dict`, `seq_dict`). The model rebuilds the changed values, so aliasing itself is not captured; only the final contents are.
- AclBuild.SourcePort: its contract states only the frame (and SourcePortReadsOnlyItsField what it reads). The operator and range cases are stated by SourcePortKeptAsText, SourceRangeTranslated and SourceRangeOfOneFails.
- AclBuild.DestinationPort: its contract states only the frame (and DestinationPortReadsOnlyItsField what it reads). The one-port and two-port cases are stated by DestinationPortOfOne and DestinationPortOfTwo.
- AclBuild.MacClauses: its contract gives the failures, the fields kept, when `cos` is set and the form of the ether type, but not the value read for each field on every text. Those values are stated for the shapes `cos N`, `vlan N`, `vlan N T`, `cos N vlan M` and keyword-free text by CosRead, VlanRead, VlanThenEtherType, CosThenVlan and EtherTypeIsTheRest, and clause by clause by ClauseTakenOut and NumberTakenOut.
- AclBuild.TakeNumber: its contract bounds only the remaining text. The number read and the exact text left are stated by NumberTakenOut, CosTaken and VlanTaken.
- AclBuild.TakeWords: its contract bounds only the remaining text. The words read are stated by FamilyTaken, LsapTaken and WordsTakenWhole, and the text left by ClauseTakenOut.
- AclBuild.IcmpTypeCode: its contract states only when nothing is read. The type and code read are stated by IcmpTypeCodeRead.
- Clauses.Erase: its contract bounds the result and says when it is unchanged. The exact result is stated by EraseOneMatch for one match, and by EraseKeeps for the stretches where no match starts.
