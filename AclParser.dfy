/**
 * The line loop of `ShowAccessLists.cli`: every line is stripped and
 * classified; a header opens (or reopens) an access list and makes it the
 * cursor, every ACE line goes into the list under the cursor, and any
 * other line changes nothing. Standard and MAC ACEs are numbered from the
 * keys already there.
 *
 * `Parse` is the loop itself; `Run` folds `Step` over the classified lines
 * and is what `Parse` is proved to compute.
 */
module AclParser {
  import opened Wrappers
  import opened Text
  import opened AclModel
  import opened AclBuild

  // ---------------------------------------------------------------------
  // Auto-numbering

  /** The keys `sorted` sees: the ACE keys, or the one key "0" when the list
      has no `aces` yet. */
  function NumberingKeys(aces: map<Digits, Ace>): (keys: set<string>)
    ensures keys != {} && forall k :: k in keys ==> IsDigits(k)
  {
    if |aces| == 0 then {"0"} else aces.Keys
  }

  /** `str(int(sorted(keys)[-1]) + 10)`: ten more than the value of the key
      that sorts last as text. */
  ghost function NextNumber(aces: map<Digits, Ace>): (key: Digits)
    ensures IsCanonical(key)
  {
    var last := SortedLast(NumberingKeys(aces));
    NatToString(Value(last) + 10)
  }

  /** The key of the next standard or MAC ACE, computed as the source does:
      find the last key in sorted order, then add ten to its value. */
  method NextSequence(aces: map<Digits, Ace>) returns (key: Digits)
    ensures key == NextNumber(aces)
  {
    var keys := NumberingKeys(aces);
    var last := LastInSortedOrder(keys);
    SortedLastUnique(last, SortedLast(keys), keys);
    key := NatToString(Value(last) + 10);
  }

  // ---------------------------------------------------------------------
  // One line at a time

  /** The result so far and the cursor: the name of the list `acl_dict`
      refers to, or none before the first header. */
  datatype State = State(acls: map<string, Acl>, cursor: Option<string>)

  /** The cursor always names a stored list. */
  predicate Valid(st: State) {
    st.cursor.Some? ==> st.cursor.value in st.acls
  }

  const Start := State(map[], None)

  /** The list under the cursor after one ACE line; any other line leaves
      it as it is. An ACE line never removes an entry and adds at most one. */
  ghost function AddAce(acl: Acl, line: Shape): (r: Result<Acl>)
    ensures line.Header? || line.Other? ==> r == Ok(acl)
    ensures line.Standard? ==> r.Ok?
    ensures r.Ok? ==> r.value.name == acl.name && r.value.aclType == acl.aclType && r.value.perUser == acl.perUser
    ensures r.Ok? ==> acl.aces.Keys <= r.value.aces.Keys && |r.value.aces.Keys - acl.aces.Keys| <= 1
  {
    match line
    case Header(_, _, _) => Ok(acl)
    case Other => Ok(acl)
    case Standard(_, forwarding, src, wildcard) => Ok(AddStandard(acl, NextNumber(acl.aces), forwarding, src, wildcard))
    case Extended(_, _, _, _, _, _, _, _) => AddExtended(acl, line)
    case Mac(forwarding, src, dst, left) => AddMac(acl, NextNumber(acl.aces), forwarding, src, dst, left)
  }

  /** One classified line. */
  ghost function Step(st: State, line: Shape): (r: Result<State>)
    requires Valid(st)
    ensures r.Ok? ==> Valid(r.value)
    ensures line.Other? ==> r == Ok(st)
    ensures line.Header? ==> r.Ok? && r.value.cursor == Some(line.name)
    ensures !line.Header? && !line.Other? && st.cursor.None? ==> r == Err(NoOpenAcl)
    ensures r.Ok? && !line.Header? && !line.Other? ==>
      st.cursor.Some? && st.cursor.value in r.value.acls &&
      r.value == State(st.acls[st.cursor.value := r.value.acls[st.cursor.value]], st.cursor)
  {
    match line
    case Other => Ok(st)
    case Header(kind, name, perUser) =>
      Ok(State(st.acls[name := OpenAcl(st.acls, kind, name, perUser)], Some(name)))
    case _ =>
      if st.cursor.None? then Err(NoOpenAcl)
      else
        var name := st.cursor.value;
        var acl :- AddAce(st.acls[name], line);
        Ok(State(st.acls[name := acl], st.cursor))
  }

  /** The lines from `st` on, stopping at the first failure. */
  ghost function Run(st: State, lines: seq<Shape>): (r: Result<State>)
    requires Valid(st)
    ensures r.Ok? ==> Valid(r.value)
    decreases |lines|
  {
    if lines == [] then Ok(st)
    else
      var next :- Step(st, lines[0]);
      Run(next, lines[1..])
  }

  /** Every line stripped, then classified. */
  function Classify(lines: seq<string>, classify: string -> Shape): (shapes: seq<Shape>)
    ensures |shapes| == |lines|
    ensures forall i :: 0 <= i < |lines| ==> shapes[i] == classify(Strip(lines[i]))
  {
    seq(|lines|, i requires 0 <= i < |lines| => classify(Strip(lines[i])))
  }

  /** What `cli` returns for these lines: the lists, or the failure. */
  ghost function ParseSpec(lines: seq<string>, classify: string -> Shape): Result<map<string, Acl>> {
    var st :- Run(Start, Classify(lines, classify));
    Ok(st.acls)
  }

  /** The body of the loop of `cli` for one classified line: `acls` is
      `ret_dict` and `cursor` the name of `acl_dict`. */
  method ApplyLine(acls: map<string, Acl>, cursor: Option<string>, line: Shape)
    returns (r: Result<State>)
    requires Valid(State(acls, cursor))
    ensures r == Step(State(acls, cursor), line)
  {
    match line {
      case Other =>
        r := Ok(State(acls, cursor));
      case Header(kind, name, perUser) =>
        r := Ok(State(acls[name := OpenAcl(acls, kind, name, perUser)], Some(name)));
      case Standard(_, forwarding, src, wildcard) =>
        if cursor.None? {
          return Err(NoOpenAcl);
        }
        var acl := acls[cursor.value];
        var key := NextSequence(acl.aces);
        r := Ok(State(acls[cursor.value := AddStandard(acl, key, forwarding, src, wildcard)], cursor));
      case Extended(_, _, _, _, _, _, _, _) =>
        if cursor.None? {
          return Err(NoOpenAcl);
        }
        var updated := AddExtended(acls[cursor.value], line);
        if updated.Err? {
          return Err(updated.error);
        }
        r := Ok(State(acls[cursor.value := updated.value], cursor));
      case Mac(forwarding, src, dst, left) =>
        if cursor.None? {
          return Err(NoOpenAcl);
        }
        var acl := acls[cursor.value];
        var key := NextSequence(acl.aces);
        var updated := AddMac(acl, key, forwarding, src, dst, left);
        if updated.Err? {
          return Err(updated.error);
        }
        r := Ok(State(acls[cursor.value := updated.value], cursor));
    }
  }

  /** The loop of `cli` over the output lines. */
  method Parse(lines: seq<string>, classify: string -> Shape) returns (r: Result<map<string, Acl>>)
    ensures r == ParseSpec(lines, classify)
  {
    var acls: map<string, Acl> := map[];
    var cursor: Option<string> := None;
    ghost var shapes := Classify(lines, classify);
    var i := 0;
    while i < |lines|
      invariant 0 <= i <= |lines| && Valid(State(acls, cursor))
      invariant Run(Start, shapes) == Run(State(acls, cursor), shapes[i..])
    {
      var line := classify(Strip(lines[i]));
      assert shapes[i..][0] == line && shapes[i..][1..] == shapes[i + 1..];
      var next := ApplyLine(acls, cursor, line);
      if next.Err? {
        return Err(next.error);
      }
      acls, cursor := next.value.acls, next.value.cursor;
      i := i + 1;
    }
    assert shapes[i..] == [];
    return Ok(acls);
  }
}
