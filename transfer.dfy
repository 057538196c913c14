/**
  The ledger's CSV file, as rows of text fields: the rows the toolbox writes when it
  saves the ledger, and the row-by-row reconstruction it performs when it loads one.
  File dialogs, file handles and CSV quoting are not modelled; a file is its rows.
*/
module Transfer {
  import opened Results
  import opened Catalog
  import opened PenaltyLedger

  type Row = seq<string>

  const Header: Row := ["Name", "Incident", "Penalty Points"]

  /** The incident column of a per-participant summary row. */
  const TotalLabel: string := "Total Penalty Points"

  /** A participant name that is never written to the file. */
  const Reserved: string := "player"

  // ---------------------------------------------------------------------------
  // Integers as text: `str(n)` for the writer and `int(s)` for the reader

  predicate IsDigit(c: char) {
    '0' <= c <= '9'
  }

  function DigitChar(d: nat): (c: char)
    requires d < 10
    ensures IsDigit(c) && DigitValue(c) == d
  {
    ('0' as int + d) as char
  }

  function DigitValue(c: char): nat
    requires IsDigit(c)
  {
    c as int - '0' as int
  }

  /** `str(n)` for a non-negative integer: its decimal digits, without leading zeros. */
  function NatToString(n: nat): (s: string)
    ensures |s| >= 1 && forall k :: 0 <= k < |s| ==> IsDigit(s[k])
    ensures |s| > 1 ==> s[0] != '0'
  {
    if n < 10 then [DigitChar(n)] else NatToString(n / 10) + [DigitChar(n % 10)]
  }

  /** The whitespace that `int()` strips around its argument (ASCII only). */
  predicate IsSpace(c: char) {
    c == ' ' || c == '\t' || c == '\n' || c == '\r' || c == '\U{000B}' || c == '\U{000C}'
  }

  function StripLeft(s: string): (r: string)
    ensures |r| <= |s| && (r != [] ==> !IsSpace(r[0]))
  {
    if s != [] && IsSpace(s[0]) then StripLeft(s[1..]) else s
  }

  function StripRight(s: string): (r: string)
    ensures |r| <= |s| && (r != [] ==> !IsSpace(r[|r| - 1]))
  {
    if s != [] && IsSpace(s[|s| - 1]) then StripRight(s[..|s| - 1]) else s
  }

  /** `StripLeft` removes a prefix of whitespace and nothing else. */
  lemma {:induction false} StripLeftDropsSpaces(s: string)
    ensures exists k :: 0 <= k <= |s| && StripLeft(s) == s[k..] && forall i :: 0 <= i < k ==> IsSpace(s[i])
    decreases |s|
  {
    if s != [] && IsSpace(s[0]) {
      StripLeftDropsSpaces(s[1..]);
      var k :| 0 <= k <= |s[1..]| && StripLeft(s[1..]) == s[1..][k..] && forall i :: 0 <= i < k ==> IsSpace(s[1..][i]);
      assert StripLeft(s) == s[k + 1..];
      assert forall i :: 0 <= i < k + 1 ==> IsSpace(s[i]) by {
        forall i | 0 <= i < k + 1 ensures IsSpace(s[i]) {
          if i > 0 { assert s[i] == s[1..][i - 1]; }
        }
      }
    } else {
      assert StripLeft(s) == s[0..];
    }
  }

  /** `StripRight` removes a suffix of whitespace and nothing else. */
  lemma {:induction false} StripRightDropsSpaces(s: string)
    ensures exists k :: 0 <= k <= |s| && StripRight(s) == s[..k] && forall i :: k <= i < |s| ==> IsSpace(s[i])
    decreases |s|
  {
    if s != [] && IsSpace(s[|s| - 1]) {
      var init := s[..|s| - 1];
      StripRightDropsSpaces(init);
      var k :| 0 <= k <= |init| && StripRight(init) == init[..k] && forall i :: k <= i < |init| ==> IsSpace(init[i]);
      assert StripRight(s) == s[..k];
      assert forall i :: k <= i < |s| ==> IsSpace(s[i]) by {
        forall i | k <= i < |s| ensures IsSpace(s[i]) {
          if i < |s| - 1 { assert s[i] == init[i]; }
        }
      }
    } else {
      assert StripRight(s) == s[..|s|];
    }
  }

  /** Decimal digits in which single underscores may separate digits, as `int()` accepts them. */
  predicate IsDigitGroups(s: string) {
    && s != []
    && IsDigit(s[0])
    && IsDigit(s[|s| - 1])
    && DigitsOrUnderscores(s)
    && forall k :: 0 <= k < |s| - 1 && s[k] == '_' ==> IsDigit(s[k + 1])
  }

  predicate DigitsOrUnderscores(s: string) {
    forall k :: 0 <= k < |s| ==> IsDigit(s[k]) || s[k] == '_'
  }

  /** The value of a string of digits and underscores; underscores are skipped. */
  function GroupsValue(s: string): nat
    requires DigitsOrUnderscores(s)
  {
    if s == [] then 0
    else if s[|s| - 1] == '_' then GroupsValue(s[..|s| - 1])
    else GroupsValue(s[..|s| - 1]) * 10 + DigitValue(s[|s| - 1])
  }

  /**
    `int(s)`: surrounding whitespace is stripped, an optional sign is followed by digit
    groups; anything else is a ValueError (None).
  */
  function ParseInt(s: string): Option<int> {
    var t := StripRight(StripLeft(s));
    if t != [] && (t[0] == '+' || t[0] == '-') then
      if IsDigitGroups(t[1..]) then
        var v: int := GroupsValue(t[1..]);
        Some(if t[0] == '-' then -v else v)
      else None
    else if IsDigitGroups(t) then Some(GroupsValue(t))
    else None
  }

  lemma {:induction false} GroupsValueOfNatToString(n: nat)
    ensures GroupsValue(NatToString(n)) == n
  {
    var s := NatToString(n);
    if n >= 10 {
      GroupsValueOfNatToString(n / 10);
      assert s[..|s| - 1] == NatToString(n / 10);
    }
  }

  /** What the writer puts in the points column, the reader parses back to the same number. */
  lemma ParseIntOfNatToString(n: nat)
    ensures ParseInt(NatToString(n)) == Some(n)
  {
    var s := NatToString(n);
    assert StripLeft(s) == s;
    assert StripRight(s) == s;
    assert IsDigitGroups(s);
    GroupsValueOfNatToString(n);
  }

  // ---------------------------------------------------------------------------
  // Import

  /** Why loading stopped, with the position (0 = header) of the offending row. */
  datatype ImportError =
    | NoHeader                  // `next(reader)` on an empty file
    | WrongFieldCount(row: nat) // `name, incident, points = row` with a row of another length
    | NotAnInteger(row: nat)    // `int(points)` refused the points column

  /** The ledger after loading, and the error that stopped loading, if any. */
  datatype Outcome = Outcome(ledger: Ledger, error: Option<ImportError>)

  /**
    One row of the loop body: unpack exactly three fields, register an unseen name,
    parse the points (the value is discarded), then append `(category, incident)`
    for the first category of the table `cats` that lists the incident; other incident
    names add nothing. The toolbox always searches its own table, `Penalties`; the
    table is a parameter so that facts about the loop need not unfold its contents.
  */
  function ApplyRow(cats: seq<Category>, l: Ledger, row: Row, at: nat): Outcome {
    if |row| != 3 then Outcome(l, Some(WrongFieldCount(at)))
    else
      var l1 := Register(l, row[0]);
      if ParseInt(row[2]).None? then Outcome(l1, Some(NotAnInteger(at)))
      else match FindCategoryIn(cats, row[1])
        case Some(c) => Outcome(AddPenalty(l1, row[0], Penalty(c, row[1])), None)
        case None => Outcome(l1, None)
  }

  /** The loop over the rows that follow position `at`; the first failing row stops it. */
  function ApplyRows(cats: seq<Category>, l: Ledger, rows: seq<Row>, at: nat): Outcome
    decreases |rows|
  {
    if rows == [] then Outcome(l, None)
    else
      var o := ApplyRow(cats, l, rows[0], at);
      if o.error.Some? then o else ApplyRows(cats, o.ledger, rows[1..], at + 1)
  }

  /** import_penalties: skip the header row, then apply every later row to the ledger. */
  function Import(l: Ledger, rows: seq<Row>): Outcome {
    if rows == [] then Outcome(l, Some(NoHeader)) else ApplyRows(Penalties, l, rows[1..], 1)
  }

  /** The summary label is not an incident name of the catalog. */
  lemma TotalLabelIsNoIncident()
    ensures CategoryOf(TotalLabel) == None
  {
    TotalLabelNotListed();
    FindCategoryInSound(Penalties, TotalLabel);
  }

  lemma TotalLabelNotListed()
    ensures forall k :: 0 <= k < |Penalties| ==> !Lists(Penalties[k].incidents, TotalLabel)
  {
    ContactNames(TotalLabel);
    DrivingNames(TotalLabel);
    MisbehaviorNames(TotalLabel);
    forall k | 0 <= k < |Penalties| ensures !Lists(Penalties[k].incidents, TotalLabel) {
      assert k == 0 || k == 1 || k == 2;
    }
  }

  /** A row the catalog search rejects, such as a summary row, only registers its name. */
  lemma SummaryRowAddsNothing(l: Ledger, name: string, points: string, at: nat)
    requires ParseInt(points).Some?
    ensures ApplyRow(Penalties, l, [name, TotalLabel, points], at) == Outcome(Register(l, name), None)
  {
    TotalLabelIsNoIncident();
  }

  /**
    The effect of one well-formed row on the totals: the named participant exists
    afterwards and their total rises by the catalog points of the incident, or by
    nothing when the incident is not in the catalog; the points column plays no part.
    Every other participant is unchanged.
  */
  lemma ApplyRowEffect(l: Ledger, row: Row, at: nat)
    requires Valid(l) && |row| == 3 && ParseInt(row[2]).Some?
    ensures
      var o := ApplyRow(Penalties, l, row, at);
      var before := if row[0] in l.entries then TotalPoints(l, row[0]) else 0;
      && o.error == None
      && Valid(o.ledger)
      && o.ledger.entries.Keys == l.entries.Keys + {row[0]}
      && (forall n :: n in l.entries && n != row[0] ==> o.ledger.entries[n] == l.entries[n])
      && (forall c :: InCatalog(c, row[1]) ==> TotalPoints(o.ledger, row[0]) == before + Points(c, row[1]))
      && ((forall c :: !InCatalog(c, row[1])) ==> TotalPoints(o.ledger, row[0]) == before)
  {
    var l1 := Register(l, row[0]);
    ResetKeepsValid(l, row[0]);
    assert TotalPoints(l1, row[0]) == if row[0] in l.entries then TotalPoints(l, row[0]) else 0;
    match CategoryOf(row[1])
    case Some(c) =>
      CategoryOfAgreesWithLookup(c, row[1]);
      AddPenaltyEffect(l1, row[0], Penalty(c, row[1]));
      forall c' | InCatalog(c', row[1]) ensures c' == c {
        CategoryOfAgreesWithLookup(c', row[1]);
      }
    case None =>
      forall c' ensures !InCatalog(c', row[1]) {
        CategoryOfAgreesWithLookup(c', row[1]);
      }
  }

  /**
    A row fails exactly when it does not have three fields or its points column is not an
    integer. A wrong field count changes nothing; a bad points column leaves the row's
    participant registered, since registration comes before `int()`.
  */
  lemma ApplyRowFails(cats: seq<Category>, l: Ledger, row: Row, at: nat)
    ensures ApplyRow(cats, l, row, at).error.Some? <==> |row| != 3 || ParseInt(row[2]).None?
    ensures |row| != 3 ==> ApplyRow(cats, l, row, at) == Outcome(l, Some(WrongFieldCount(at)))
    ensures |row| == 3 && ParseInt(row[2]).None? ==>
      ApplyRow(cats, l, row, at) == Outcome(Register(l, row[0]), Some(NotAnInteger(at)))
  {
  }

  /** Loading keeps the ledger invariant, whether it completes or stops at a bad row. */
  lemma {:induction false} ApplyRowsKeepsValid(l: Ledger, rows: seq<Row>, at: nat)
    requires Valid(l)
    ensures Valid(ApplyRows(Penalties, l, rows, at).ledger)
    decreases |rows|
  {
    if rows != [] {
      var row := rows[0];
      if |row| == 3 {
        ResetKeepsValid(l, row[0]);
        if ParseInt(row[2]).Some? {
          ApplyRowEffect(l, row, at);
        }
      }
      var o := ApplyRow(Penalties, l, row, at);
      if o.error.None? {
        ApplyRowsKeepsValid(o.ledger, rows[1..], at + 1);
      }
    }
  }

  lemma ImportKeepsValid(l: Ledger, rows: seq<Row>)
    requires Valid(l)
    ensures Valid(Import(l, rows).ledger)
  {
    if rows != [] {
      ApplyRowsKeepsValid(l, rows[1..], 1);
    }
  }

  /**
    Loading `a + b` is loading `a` and then, unless `a` stopped at a bad row, loading
    `b` on the result: rows before a failure stay applied, rows after it are never read.
  */
  lemma {:induction false} ApplyRowsConcat(cats: seq<Category>, l: Ledger, a: seq<Row>, b: seq<Row>, at: nat)
    ensures ApplyRows(cats, l, a, at).error.Some? ==> ApplyRows(cats, l, a + b, at) == ApplyRows(cats, l, a, at)
    ensures ApplyRows(cats, l, a, at).error.None? ==>
      ApplyRows(cats, l, a + b, at) == ApplyRows(cats, ApplyRows(cats, l, a, at).ledger, b, at + |a|)
    decreases |a|
  {
    if a == [] {
      assert a + b == b;
      assert ApplyRows(cats, l, a, at) == Outcome(l, None);
    } else {
      var ab := a + b;
      assert ab[0] == a[0] && ab[1..] == a[1..] + b;
      var o := ApplyRow(cats, l, a[0], at);
      if o.error.None? {
        ApplyRowsConcat(cats, o.ledger, a[1..], b, at + 1);
        assert at + 1 + |a[1..]| == at + |a|;
        var rest := ApplyRows(cats, o.ledger, a[1..], at + 1);
        assert ApplyRows(cats, l, a, at) == rest;
        assert ApplyRows(cats, l, ab, at) == ApplyRows(cats, o.ledger, a[1..] + b, at + 1);
        if rest.error.None? {
          assert ApplyRows(cats, o.ledger, a[1..] + b, at + 1) == ApplyRows(cats, rest.ledger, b, at + 1 + |a[1..]|);
          assert ApplyRows(cats, l, ab, at) == ApplyRows(cats, rest.ledger, b, at + |a|);
        }
      } else {
        assert ApplyRows(cats, l, ab, at) == o;
      }
    }
  }

  /** Loading stops at the first bad row, keeping what the rows before it did. */
  lemma ImportStopsAtBadRow(cats: seq<Category>, l: Ledger, before: seq<Row>, bad: Row, after: seq<Row>, at: nat)
    requires ApplyRows(cats, l, before, at).error == None
    requires ApplyRow(cats, ApplyRows(cats, l, before, at).ledger, bad, at + |before|).error.Some?
    ensures ApplyRows(cats, l, before + [bad] + after, at) == ApplyRow(cats, ApplyRows(cats, l, before, at).ledger, bad, at + |before|)
  {
    assert before + [bad] + after == before + ([bad] + after);
    ApplyRowsConcat(cats, l, before, [bad] + after, at);
  }

  /** Two files that differ only in the numbers of their points columns load identically. */
  lemma {:induction false} PointsColumnIgnored(cats: seq<Category>, l: Ledger, rows: seq<Row>, rows': seq<Row>, at: nat)
    requires |rows| == |rows'|
    requires forall k :: 0 <= k < |rows| ==> |rows[k]| == |rows'[k]|
    requires forall k :: 0 <= k < |rows| && |rows[k]| == 3 ==>
      && rows[k][0] == rows'[k][0] && rows[k][1] == rows'[k][1]
      && ParseInt(rows[k][2]).Some? == ParseInt(rows'[k][2]).Some?
    ensures ApplyRows(cats, l, rows, at) == ApplyRows(cats, l, rows', at)
    decreases |rows|
  {
    if rows != [] {
      assert ApplyRow(cats, l, rows[0], at) == ApplyRow(cats, l, rows'[0], at);
      var o := ApplyRow(cats, l, rows[0], at);
      if o.error.None? {
        PointsColumnIgnored(cats, o.ledger, rows[1..], rows'[1..], at + 1);
      }
    }
  }

  // ---------------------------------------------------------------------------
  // Export

  /** The names that are written, in ledger order: all but the reserved one. */
  function NonReserved(names: seq<string>): (r: seq<string>)
    ensures forall n :: n in r <==> n in names && n != Reserved
  {
    if names == [] then []
    else
      var init := names[..|names| - 1];
      assert names == init + [names[|names| - 1]];
      NonReserved(init) + if names[|names| - 1] == Reserved then [] else [names[|names| - 1]]
  }

  lemma {:induction false} NonReservedDistinct(names: seq<string>)
    requires Distinct(names)
    ensures Distinct(NonReserved(names))
  {
    if names != [] {
      var init, last := names[..|names| - 1], names[|names| - 1];
      assert Distinct(init);
      NonReservedDistinct(init);
      assert last !in init;
    }
  }

  /** `[name, "Total Penalty Points", total]`: the row written for one participant. */
  function SummaryRow(l: Ledger, name: string): Row
    requires Valid(l) && name in l.entries
  {
    var t := TotalPoints(l, name);
    assert t >= 0;
    [name, TotalLabel, NatToString(t)]
  }

  /** The loop of output_penalties over `names`: one summary row per name that is not reserved. */
  function SummaryRows(l: Ledger, names: seq<string>): (rows: seq<Row>)
    requires Valid(l) && forall n :: n in names ==> n in l.entries
    ensures |rows| == |NonReserved(names)|
    ensures forall k :: 0 <= k < |rows| ==> rows[k] == SummaryRow(l, NonReserved(names)[k])
  {
    if names == [] then []
    else
      var init, last := names[..|names| - 1], names[|names| - 1];
      assert forall n :: n in init ==> n in names;
      SummaryRows(l, init) + if last == Reserved then [] else [SummaryRow(l, last)]
  }

  /** output_penalties: nothing when the ledger is empty, else the header and the summary rows. */
  function ExportRows(l: Ledger): Option<seq<Row>>
    requires Valid(l)
  {
    if l.entries == map[] then None else Some([Header] + SummaryRows(l, l.order))
  }

  /**
    The saved file: nothing is written for an empty ledger; otherwise the header, then
    for each participant other than "player", in insertion order, the row
    `[name, "Total Penalty Points", total]`.
  */
  lemma ExportShape(l: Ledger)
    requires Valid(l)
    ensures ExportRows(l).None? <==> l.entries == map[]
    ensures ExportRows(l).Some? ==>
      var rows, names := ExportRows(l).value, NonReserved(l.order);
      && rows[0] == Header
      && |rows| == 1 + |names|
      && (forall k :: 1 <= k < |rows| ==> rows[k] == [names[k - 1], TotalLabel, NatToString(TotalPoints(l, names[k - 1]))])
  {
    if l.entries != map[] {
      var body := SummaryRows(l, l.order);
      assert ExportRows(l).value == [Header] + body;
      assert forall k :: 1 <= k < 1 + |body| ==> ([Header] + body)[k] == body[k - 1];
    }
  }

  /** The names written are each participant other than "player", each exactly once. */
  lemma ExportedNames(l: Ledger)
    requires Valid(l)
    ensures Distinct(NonReserved(l.order))
    ensures forall n :: n in NonReserved(l.order) <==> n in l.entries && n != Reserved
  {
    NonReservedDistinct(l.order);
  }

  /** No written row names "player", and no written row is a per-incident row. */
  lemma ExportOmitsReservedAndIncidents(l: Ledger)
    requires Valid(l) && ExportRows(l).Some?
    ensures forall k :: 1 <= k < |ExportRows(l).value| ==>
      ExportRows(l).value[k][0] != Reserved && ExportRows(l).value[k][1] == TotalLabel
  {
    ExportShape(l);
    var rows, names := ExportRows(l).value, NonReserved(l.order);
    forall k | 1 <= k < |rows| ensures rows[k][0] != Reserved && rows[k][1] == TotalLabel {
      assert names[k - 1] in names;
    }
  }
}
