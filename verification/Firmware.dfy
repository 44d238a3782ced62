// Choosing a firmware version: which manifest entries are offered, in what order, and which one a typed
// selection picks.
module Firmware {
  import opened Wrappers
  import opened Versions

  /** A parseable manifest entry: its position in the manifest and its version. */
  datatype Candidate = Candidate(index: nat, version: Version)

  datatype SelectionError = NoVersions | NoValidVersions | InvalidSelection | OutOfRange

  datatype Row = Row(text: string, recommended: bool, current: bool)

  const USIZE_MAX: nat := 0xFFFF_FFFF_FFFF_FFFF

  predicate Parseable(versions: seq<string>, i: nat) {
    i < |versions| && Parse(versions[i]).Ok?
  }

  function VersionAt(versions: seq<string>, i: nat): Version
    requires Parseable(versions, i)
  {
    Parse(versions[i]).value
  }

  function Candidates(versions: seq<string>, from: nat): seq<Candidate>
    requires from <= |versions|
    decreases |versions| - from
  {
    if from == |versions| then []
    else
      (if Parseable(versions, from) then [Candidate(from, VersionAt(versions, from))] else []) +
      Candidates(versions, from + 1)
  }

  /** Before the first entry that is not newer. */
  function Insert(c: Candidate, sorted: seq<Candidate>): seq<Candidate> {
    if sorted == [] || !Newer(sorted[0].version, c.version) then [c] + sorted
    else [sorted[0]] + Insert(c, sorted[1..])
  }

  /** The stable sort, newest first, which compares versions only. */
  function Sort(cs: seq<Candidate>): seq<Candidate> {
    if cs == [] then [] else Insert(cs[0], Sort(cs[1..]))
  }

  function Offered(versions: seq<string>): seq<Candidate> {
    Sort(Candidates(versions, 0))
  }

  // ---------- What the order is ----------

  /** Newer first; of equal versions, the one the manifest names first. */
  predicate Precedes(a: Candidate, b: Candidate) {
    Newer(a.version, b.version) || (a.version == b.version && a.index < b.index)
  }

  ghost predicate Ordered(cs: seq<Candidate>) {
    forall i, j :: 0 <= i < j < |cs| ==> Precedes(cs[i], cs[j])
  }

  lemma {:induction false} InsertKeeps(c: Candidate, sorted: seq<Candidate>)
    requires Ordered(sorted) && forall x :: x in sorted ==> c.index < x.index
    ensures Ordered(Insert(c, sorted)) && multiset(Insert(c, sorted)) == multiset{c} + multiset(sorted)
    ensures forall x :: x in Insert(c, sorted) <==> x == c || x in sorted
  {
    if sorted == [] {
    } else if !Newer(sorted[0].version, c.version) {
      forall j | 0 <= j < |sorted| ensures Precedes(c, sorted[j]) {
        assert sorted[j] in sorted && (j > 0 ==> Precedes(sorted[0], sorted[j]));
        NewerIsNumeric(sorted[0].version, c.version);
        NewerIsNumeric(c.version, sorted[j].version);
        NewerIsNumeric(sorted[0].version, sorted[j].version);
      }
    } else {
      var rest := sorted[1..];
      assert sorted == [sorted[0]] + rest;
      InsertKeeps(c, rest);
      forall x | x in Insert(c, rest) ensures Precedes(sorted[0], x) {
        if x != c {
          var j :| 0 <= j < |rest| && rest[j] == x;
          assert Precedes(sorted[0], sorted[j + 1]);
        }
      }
    }
  }

  predicate Ascending(cs: seq<Candidate>) {
    forall i, j :: 0 <= i < j < |cs| ==> cs[i].index < cs[j].index
  }

  lemma {:induction false} SortKeeps(cs: seq<Candidate>)
    requires Ascending(cs)
    ensures Ordered(Sort(cs)) && multiset(Sort(cs)) == multiset(cs)
    ensures forall x :: x in Sort(cs) <==> x in cs
  {
    if cs != [] {
      SortKeeps(cs[1..]);
      assert cs == [cs[0]] + cs[1..];
      InsertKeeps(cs[0], Sort(cs[1..]));
    }
  }

  predicate IsCandidate(versions: seq<string>, c: Candidate) {
    Parseable(versions, c.index) && c.version == VersionAt(versions, c.index)
  }

  lemma CandidatesFirst(versions: seq<string>, from: nat)
    requires from <= |versions|
    ensures from == |versions| ==> Candidates(versions, from) == []
    ensures from < |versions| && !Parseable(versions, from) ==>
              Candidates(versions, from) == Candidates(versions, from + 1)
    ensures from < |versions| && Parseable(versions, from) ==>
              Candidates(versions, from) ==
              [Candidate(from, VersionAt(versions, from))] + Candidates(versions, from + 1)
  {
    hide Parse;
    if from < |versions| { assert [] + Candidates(versions, from + 1) == Candidates(versions, from + 1); }
  }

  lemma AscendingCons(c: Candidate, cs: seq<Candidate>)
    requires Ascending(cs) && forall x :: x in cs ==> c.index < x.index
    ensures Ascending([c] + cs)
  {
    assert forall i :: 0 <= i < |cs| ==> cs[i] in cs;
  }

  lemma AscendingNone()
    ensures Ascending([])
  {
  }

  lemma {:induction false} CandidatesAre(versions: seq<string>, from: nat)
    requires from <= |versions|
    ensures Ascending(Candidates(versions, from))
    ensures forall c :: c in Candidates(versions, from) <==> from <= c.index && IsCandidate(versions, c)
    decreases |versions| - from
  {
    hide Candidates, Ascending, Parse, VersionAt;
    CandidatesFirst(versions, from);
    if from < |versions| {
      CandidatesAre(versions, from + 1);
      if Parseable(versions, from) {
        AscendingCons(Candidate(from, VersionAt(versions, from)), Candidates(versions, from + 1));
      }
    } else {
      AscendingNone();
    }
  }

  /** The rows offered are a permutation of the parseable entries, newest first, equal versions in manifest
      order. */
  lemma OfferedIsSortedPermutation(versions: seq<string>)
    ensures Ordered(Offered(versions)) && multiset(Offered(versions)) == multiset(Candidates(versions, 0))
    ensures forall c :: c in Offered(versions) <==>
                          Parseable(versions, c.index) && c.version == VersionAt(versions, c.index)
  {
    CandidatesAre(versions, 0);
    SortKeeps(Candidates(versions, 0));
  }

  // ---------- Which entry a selection picks ----------

  /** The entries that come before entry `i`: the newer ones, and those named earlier with the same version. */
  ghost function Ahead(versions: seq<string>, i: nat): set<nat>
    requires Parseable(versions, i)
  {
    set j | 0 <= j < |versions| && Parseable(versions, j) &&
            Precedes(Candidate(j, VersionAt(versions, j)), Candidate(i, VersionAt(versions, i)))
  }

  /** Which entries those are, by version and position in the manifest. */
  lemma AheadIs(versions: seq<string>, i: nat, j: nat)
    requires Parseable(versions, i)
    ensures j in Ahead(versions, i) <==>
            && Parseable(versions, j)
            && (Newer(VersionAt(versions, j), VersionAt(versions, i)) ||
                (VersionAt(versions, j) == VersionAt(versions, i) && j < i))
  {
    hide Parse;
  }

  function Indices(cs: seq<Candidate>): set<nat> {
    set c | c in cs :: c.index
  }

  lemma {:induction false} DistinctIndices(cs: seq<Candidate>)
    requires forall i, j :: 0 <= i < j < |cs| ==> cs[i].index != cs[j].index
    ensures |Indices(cs)| == |cs|
  {
    if cs == [] {
      assert Indices(cs) == {};
    } else {
      var n := |cs| - 1;
      DistinctIndices(cs[..n]);
      assert Indices(cs) == Indices(cs[..n]) + {cs[n].index};
    }
  }

  lemma PrecedesIsStrict(a: Candidate, b: Candidate)
    ensures !(Precedes(a, b) && Precedes(b, a)) && !Precedes(a, a)
  {
    NewerIsNumeric(a.version, b.version);
    NewerIsNumeric(b.version, a.version);
  }

  lemma IndicesDiffer(versions: seq<string>, i: nat, j: nat)
    requires i < j < |Offered(versions)|
    ensures Offered(versions)[i].index != Offered(versions)[j].index
  {
    OfferedIsSortedPermutation(versions);
    var rows := Offered(versions);
    assert Precedes(rows[i], rows[j]) && rows[i] in rows && rows[j] in rows;
    PrecedesIsStrict(rows[i], rows[j]);
  }

  lemma EarlierRowsAreAhead(versions: seq<string>, p: nat, j: nat)
    requires p < |Offered(versions)| && Parseable(versions, Offered(versions)[p].index)
    requires j in Indices(Offered(versions)[..p])
    ensures j in Ahead(versions, Offered(versions)[p].index)
  {
    hide Offered, Precedes, Parse;
    OfferedIsSortedPermutation(versions);
    var rows := Offered(versions);
    var q :| 0 <= q < p && rows[q].index == j;
    assert Precedes(rows[q], rows[p]) && rows[q] in rows && rows[p] in rows;
    assert Candidate(j, VersionAt(versions, j)) == rows[q];
  }

  lemma AheadIsInEarlierRow(versions: seq<string>, p: nat, j: nat)
    requires p < |Offered(versions)| && Parseable(versions, Offered(versions)[p].index)
    requires j in Ahead(versions, Offered(versions)[p].index)
    ensures j in Indices(Offered(versions)[..p])
  {
    hide Offered, Precedes, Parse;
    OfferedIsSortedPermutation(versions);
    var rows := Offered(versions);
    assert rows[p] in rows;
    var c := Candidate(j, VersionAt(versions, j));
    assert c in rows && Precedes(c, rows[p]);
    var q :| 0 <= q < |rows| && rows[q] == c;
    PrecedesIsStrict(rows[q], rows[p]);
    assert rows[..p][q] == c;
  }

  /** Row `p` shows the entry that has exactly `p` entries ahead of it. */
  lemma RowPosition(versions: seq<string>, p: nat)
    requires p < |Offered(versions)|
    ensures var i := Offered(versions)[p].index;
            Parseable(versions, i) && |Ahead(versions, i)| == p
  {
    hide Offered, Ahead, Parseable;
    OfferedIsSortedPermutation(versions);
    var rows := Offered(versions);
    assert rows[p] in rows;
    var i := rows[p].index;
    forall a, b | 0 <= a < b < p ensures rows[..p][a].index != rows[..p][b].index {
      IndicesDiffer(versions, a, b);
    }
    DistinctIndices(rows[..p]);
    forall j | j in Indices(rows[..p]) ensures j in Ahead(versions, i) {
      EarlierRowsAreAhead(versions, p, j);
    }
    forall j | j in Ahead(versions, i) ensures j in Indices(rows[..p]) {
      AheadIsInEarlierRow(versions, p, j);
    }
    assert Ahead(versions, i) == Indices(rows[..p]);
  }

  // ---------- The selection ----------

  /** The characters with the Unicode property White_Space. */
  predicate IsSpace(c: char) {
    var n := c as int;
    0x09 <= n <= 0x0D || n == 0x20 || n == 0x85 || n == 0xA0 || n == 0x1680 || 0x2000 <= n <= 0x200A ||
    n == 0x2028 || n == 0x2029 || n == 0x202F || n == 0x205F || n == 0x3000
  }

  function TrimStart(s: string): string {
    if s != "" && IsSpace(s[0]) then TrimStart(s[1..]) else s
  }

  function TrimEnd(s: string): string {
    if s != "" && IsSpace(s[|s| - 1]) then TrimEnd(s[..|s| - 1]) else s
  }

  /** The row number typed, 1 when nothing was. */
  function Typed(line: string): Option<nat> {
    var trimmed := TrimEnd(TrimStart(line));
    if trimmed == "" then Some(1) else ParseUnsigned(trimmed, USIZE_MAX)
  }

  function Select(versions: seq<string>, line: string): Result<nat, SelectionError> {
    var rows := Offered(versions);
    if versions == [] then Err(NoVersions)
    else if rows == [] then Err(NoValidVersions)
    else
      match Typed(line)
      case None => Err(InvalidSelection)
      case Some(k) => if k < 1 || k > |rows| then Err(OutOfRange) else Ok(rows[k - 1].index)
  }

  lemma NonEmpty(versions: seq<string>, i: nat)
    requires Parseable(versions, i)
    ensures versions != []
  {
  }

  /** Entry `i` is chosen exactly when it is parseable and the number typed is one more than the entries ahead
      of it: selection k is the k-th newest. */
  lemma SelectIff(versions: seq<string>, line: string, i: nat)
    ensures Select(versions, line) == Ok(i) <==>
            Parseable(versions, i) && Typed(line) == Some(|Ahead(versions, i)| + 1)
  {
    hide Offered, Typed, Ahead, Parseable, VersionAt;
    var rows := Offered(versions);
    if Select(versions, line) == Ok(i) {
      RowPosition(versions, Typed(line).value - 1);
    }
    if Parseable(versions, i) && Typed(line) == Some(|Ahead(versions, i)| + 1) {
      OfferedIsSortedPermutation(versions);
      var c := Candidate(i, VersionAt(versions, i));
      assert c in rows;
      var p :| 0 <= p < |rows| && rows[p] == c;
      RowPosition(versions, p);
      NonEmpty(versions, i);
    }
  }

  ghost function ParseableEntries(versions: seq<string>): set<nat> {
    set i | 0 <= i < |versions| && Parseable(versions, i)
  }

  lemma InRange(versions: seq<string>, i: nat)
    requires Parseable(versions, i)
    ensures i < |versions|
  {
  }

  /** There are as many rows as parseable entries. */
  lemma RowCount(versions: seq<string>)
    ensures |Offered(versions)| == |ParseableEntries(versions)|
  {
    hide Offered, Parseable, VersionAt;
    OfferedIsSortedPermutation(versions);
    var rows := Offered(versions);
    forall i, j | 0 <= i < j < |rows| ensures rows[i].index != rows[j].index { IndicesDiffer(versions, i, j); }
    DistinctIndices(rows);
    forall i ensures i in Indices(rows) <==> i in ParseableEntries(versions) {
      if i in ParseableEntries(versions) { assert Candidate(i, VersionAt(versions, i)) in rows; }
      if i in Indices(rows) { InRange(versions, i); }
    }
    assert Indices(rows) == ParseableEntries(versions);
  }

  /** When a selection is refused, and for which reason. */
  lemma SelectRefusals(versions: seq<string>, line: string)
    ensures Select(versions, line) == Err(NoVersions) <==> versions == []
    ensures Select(versions, line) == Err(NoValidVersions) <==> versions != [] && forall i :: !Parseable(versions, i)
    ensures Select(versions, line) == Err(InvalidSelection) <==>
            (exists i :: Parseable(versions, i)) && Typed(line) == None
    ensures Select(versions, line) == Err(OutOfRange) <==>
            (exists i :: Parseable(versions, i)) && Typed(line).Some? &&
            !(1 <= Typed(line).value <= |ParseableEntries(versions)|)
    ensures Typed(line) == Some(1) ==> (Select(versions, line).Ok? <==> exists i :: Parseable(versions, i))
  {
    hide Parseable, VersionAt, Typed, Offered, ParseableEntries;
    OfferedIsSortedPermutation(versions);
    RowCount(versions);
    var rows := Offered(versions);
    if rows != [] {
      assert rows[0] in rows;
      NonEmpty(versions, rows[0].index);
    }
    forall i | Parseable(versions, i) ensures rows != [] && versions != [] {
      assert Candidate(i, VersionAt(versions, i)) in rows;
      NonEmpty(versions, i);
    }
  }

  /** What counts as typed: nothing but white space is 1, and otherwise exactly the numerals of k are k. */
  lemma TypedIff(line: string, k: nat)
    ensures Typed(line) == Some(k) <==>
            var trimmed := TrimEnd(TrimStart(line));
            if trimmed == "" then k == 1 else k <= 0xFFFF_FFFF_FFFF_FFFF && IsNumeral(trimmed, k)
  {
    ParseUnsignedIff(TrimEnd(TrimStart(line)), USIZE_MAX, k);
  }

  /** The 25 characters with the property White_Space of the Unicode standard. */
  lemma SpaceIff(c: char)
    ensures IsSpace(c) <==>
            c as int in {0x09, 0x0A, 0x0B, 0x0C, 0x0D, 0x20, 0x85, 0xA0, 0x1680,
                         0x2000, 0x2001, 0x2002, 0x2003, 0x2004, 0x2005, 0x2006, 0x2007, 0x2008, 0x2009, 0x200A,
                         0x2028, 0x2029, 0x202F, 0x205F, 0x3000}
  {
  }

  predicate AllSpace(s: string) {
    forall i :: 0 <= i < |s| ==> IsSpace(s[i])
  }

  lemma {:induction false} TrimStartIs(s: string) returns (before: string)
    ensures AllSpace(before) && s == before + TrimStart(s)
    ensures TrimStart(s) != "" ==> !IsSpace(TrimStart(s)[0])
  {
    before := "";
    if s != "" && IsSpace(s[0]) {
      before := TrimStartIs(s[1..]);
      before := [s[0]] + before;
    }
  }

  lemma {:induction false} TrimEndIs(s: string) returns (after: string)
    ensures AllSpace(after) && s == TrimEnd(s) + after
    ensures TrimEnd(s) != "" ==> !IsSpace(TrimEnd(s)[|TrimEnd(s)| - 1])
  {
    after := "";
    if s != "" && IsSpace(s[|s| - 1]) {
      after := TrimEndIs(s[..|s| - 1]);
      after := after + [s[|s| - 1]];
    }
  }

  /** What trimming leaves: the line without the white space around it. */
  lemma {:induction false} TrimIs(line: string)
    ensures var t := TrimEnd(TrimStart(line));
            && (t != "" ==> !IsSpace(t[0]) && !IsSpace(t[|t| - 1]))
            && exists before, after :: line == before + t + after && AllSpace(before) && AllSpace(after)
  {
    var before := TrimStartIs(line);
    var after := TrimEndIs(TrimStart(line));
    var t := TrimEnd(TrimStart(line));
    assert line == before + t + after;
    if t != "" { assert t[0] == TrimStart(line)[0]; }
  }

  lemma {:induction false} TrimStartDrops(before: string, s: string)
    requires AllSpace(before)
    ensures TrimStart(before + s) == TrimStart(s)
  {
    if before == "" {
      assert before + s == s;
    } else {
      TrimStartDrops(before[1..], s);
      assert (before + s)[1..] == before[1..] + s;
    }
  }

  lemma {:induction false} TrimEndDrops(s: string, after: string)
    requires AllSpace(after)
    ensures TrimEnd(s + after) == TrimEnd(s)
  {
    if after == "" {
      assert s + after == s;
    } else {
      TrimEndDrops(s, after[..|after| - 1]);
      assert (s + after)[..|s + after| - 1] == s + after[..|after| - 1];
    }
  }

  lemma TrimNothing(t: string)
    ensures t == "" || !IsSpace(t[0]) ==> TrimStart(t) == t
    ensures t == "" || !IsSpace(t[|t| - 1]) ==> TrimEnd(t) == t
  {
  }

  /** The white space around a text does not change what is left, and nothing else is left of white space. */
  lemma TrimDrops(before: string, t: string, after: string)
    requires AllSpace(before) && AllSpace(after)
    ensures t == "" || (!IsSpace(t[0]) && !IsSpace(t[|t| - 1])) ==> TrimEnd(TrimStart(before + t + after)) == t
  {
    hide TrimStart, TrimEnd;
    TrimNothing(t);
    if t == "" {
      TrimStartDrops(before + t + after, "");
      TrimNothing("");
      assert before + t + after + "" == before + t + after;
    } else if !IsSpace(t[0]) && !IsSpace(t[|t| - 1]) {
      TrimStartDrops(before, t + after);
      TrimNothing(t + after);
      TrimEndDrops(t, after);
      assert before + t + after == before + (t + after);
    }
  }

  /** A numeral typed is that number, and an empty line is 1, with any white space around and with the line's end. */
  lemma TypedLine(before: string, k: nat, after: string)
    requires AllSpace(before) && AllSpace(after) && k <= 0xFFFF_FFFF_FFFF_FFFF
    ensures Typed(before + Decimal(k) + after) == Some(k) && Typed(before + "" + after) == Some(1)
    ensures Typed(Decimal(k) + "\n") == Typed(Decimal(k) + "\r\n") == Some(k)
    ensures Typed("\n") == Typed("\r\n") == Typed("") == Some(1)
  {
    hide TrimStart, TrimEnd, Decimal, IsNumeral, ParseUnsigned;
    DecimalIsNumeral(k);
    ParseUnsignedIff(Decimal(k), USIZE_MAX, k);
    TrimDrops(before, Decimal(k), after);
    TrimDrops(before, "", after);
    TrimDrops("", Decimal(k), "\n");
    TrimDrops("", Decimal(k), "\r\n");
    TrimDrops("", "", "\n");
    TrimDrops("", "", "\r\n");
    TrimDrops("", "", "");
    assert "" + Decimal(k) + "\n" == Decimal(k) + "\n" && "" + Decimal(k) + "\r\n" == Decimal(k) + "\r\n";
    assert "" + "" + "\n" == "\n" && "" + "" + "\r\n" == "\r\n" && "" + "" + "" == "";
  }

  function UpdateAvailable(versions: seq<string>, current: Version): bool {
    exists i :: 0 <= i < |versions| && Parseable(versions, i) && Newer(VersionAt(versions, i), current)
  }

  /** An update is announced exactly when pressing return would choose something newer than what is installed. */
  lemma UpdateIsTheDefault(versions: seq<string>, current: Version)
    ensures UpdateAvailable(versions, current) <==>
            exists i :: Select(versions, "") == Ok(i) && Parseable(versions, i) &&
                        Newer(VersionAt(versions, i), current)
  {
    hide Offered, VersionAt, Parseable;
    OfferedIsSortedPermutation(versions);
    var rows := Offered(versions);
    assert Typed("") == Some(1);
    if UpdateAvailable(versions, current) {
      var i :| 0 <= i < |versions| && Parseable(versions, i) && Newer(VersionAt(versions, i), current);
      var c := Candidate(i, VersionAt(versions, i));
      assert c in rows;
      assert rows[0] in rows;
      var p :| 0 <= p < |rows| && rows[p] == c;
      assert p > 0 ==> Precedes(rows[0], rows[p]);
      NewerIsNumeric(rows[0].version, c.version);
      NewerIsNumeric(c.version, current);
      NewerIsNumeric(rows[0].version, current);
      NonEmpty(versions, i);
      assert Select(versions, "") == Ok(rows[0].index);
    }
    if exists i :: Select(versions, "") == Ok(i) && Parseable(versions, i) && Newer(VersionAt(versions, i), current) {
      var i :| Select(versions, "") == Ok(i) && Parseable(versions, i) && Newer(VersionAt(versions, i), current);
      InRange(versions, i);
    }
  }

  // ---------- What is shown ----------

  function RowOf(versions: seq<string>, current: Version, rows: seq<Candidate>, p: nat): Row
    requires p < |rows| && rows[p].index < |versions|
  {
    Row(versions[rows[p].index], rows[p].version == rows[0].version, rows[p].version == current)
  }

  /** Exactly the entries that no parseable entry is newer than are marked as recommended. */
  lemma RecommendedIff(versions: seq<string>, current: Version, p: nat)
    requires p < |Offered(versions)|
    ensures Offered(versions)[p].index < |versions|
    ensures RowOf(versions, current, Offered(versions), p).recommended <==>
            forall i :: Parseable(versions, i) ==> !Newer(VersionAt(versions, i), Offered(versions)[p].version)
  {
    hide Offered, VersionAt;
    OfferedIsSortedPermutation(versions);
    var rows := Offered(versions);
    assert rows[0] in rows && rows[p] in rows;
    assert p > 0 ==> Precedes(rows[0], rows[p]);
    NewerIsNumeric(rows[0].version, rows[p].version);
    forall i | Parseable(versions, i) ensures !Newer(VersionAt(versions, i), rows[0].version) {
      var c := Candidate(i, VersionAt(versions, i));
      assert c in rows;
      var q :| 0 <= q < |rows| && rows[q] == c;
      assert q > 0 ==> Precedes(rows[0], rows[q]);
      NewerIsNumeric(c.version, rows[0].version);
      NewerIsNumeric(rows[0].version, c.version);
    }
  }

  lemma NothingOffered()
    ensures Offered([]) == []
  {
  }

  method ShowRows(versions: seq<string>, current: Version, rows: seq<Candidate>) returns (shown: seq<Row>)
    requires forall c :: c in rows ==> c.index < |versions|
    ensures |shown| == |rows|
    ensures forall p :: 0 <= p < |shown| ==> rows[p].index < |versions| && shown[p] == RowOf(versions, current, rows, p)
  {
    shown := [];
    for p := 0 to |rows|
      invariant |shown| == p
      invariant forall q :: 0 <= q < p ==> rows[q].index < |versions| && shown[q] == RowOf(versions, current, rows, q)
    {
      assert rows[p] in rows;
      var version := rows[p].version;
      shown := shown + [Row(versions[rows[p].index], version == rows[0].version, version == current)];
    }
  }

  /** The prompt: filters and sorts the manifest, shows the rows and resolves the line typed. */
  method SelectFirmwareVersion(versions: seq<string>, current: Version, line: string)
      returns (shown: seq<Row>, result: Result<nat, SelectionError>)
    ensures result == Select(versions, line)
    ensures |shown| == |Offered(versions)|
    ensures forall p :: 0 <= p < |shown| ==>
              Offered(versions)[p].index < |versions| && shown[p] == RowOf(versions, current, Offered(versions), p)
    ensures forall p :: 0 <= p < |shown| ==>
              var i := Offered(versions)[p].index;
              && Parseable(versions, i)
              && shown[p].text == versions[i]
              && (shown[p].recommended <==> VersionAt(versions, i) == Offered(versions)[0].version)
              && (shown[p].current <==> Parse(versions[i]) == Ok(current))
  {
    hide Sort, Candidates, Parse, Ordered, ParseUnsigned;
    shown := [];
    OfferedIsSortedPermutation(versions);
    if versions == [] {
      NothingOffered();
      return shown, Err(NoVersions);
    }
    var indexed := Sort(Candidates(versions, 0));
    if indexed == [] {
      return shown, Err(NoValidVersions);
    }
    shown := ShowRows(versions, current, indexed);
    var trimmed := TrimEnd(TrimStart(line));
    var selection := Some(1);
    if trimmed != "" {
      selection := ParseUnsigned(trimmed, USIZE_MAX);
    }
    if selection.None? {
      return shown, Err(InvalidSelection);
    }
    if selection.value < 1 || selection.value > |indexed| {
      return shown, Err(OutOfRange);
    }
    result := Ok(indexed[selection.value - 1].index);
  }
}
