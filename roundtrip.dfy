/**
  Saving and then loading the ledger. The toolbox writes only summary rows, which the
  loader deliberately ignores, so a saved ledger loads back with every participant and
  no penalties. A writer that also emits one row per recorded incident (the shape the
  loader reads) makes the round trip restore every list exactly.
*/
module RoundTrip {
  import opened Results
  import opened Catalog
  import opened PenaltyLedger
  import opened Transfer

  /**
    What the loader's search must find in a table `cats` for the round trip: each
    recorded incident under its own category, and nothing for the summary label.
    The toolbox's own table has this property for every valid ledger.
  */
  ghost predicate Searchable(cats: seq<Category>, l: Ledger) {
    && FindCategoryIn(cats, TotalLabel) == None
    && forall n, p :: n in l.entries && p in l.entries[n] ==> FindCategoryIn(cats, p.incident) == Some(p.offense)
  }

  lemma PenaltiesSearchable(l: Ledger)
    requires Valid(l)
    ensures Searchable(Penalties, l)
  {
    TotalLabelIsNoIncident();
    forall n, p | n in l.entries && p in l.entries[n] ensures FindCategoryIn(Penalties, p.incident) == Some(p.offense) {
      CategoryOfAgreesWithLookup(p.offense, p.incident);
    }
  }

  /** A well-formed row: three fields, the first naming a participant, the last an integer. */
  ghost predicate RowOf(row: Row, name: string) {
    |row| == 3 && row[0] == name && ParseInt(row[2]).Some?
  }

  // ---------------------------------------------------------------------------
  // Rows as load events

  /** What one cleanly loaded row does: register `name` and, when the incident was found, append `pair`. */
  datatype Event = Event(name: string, pair: Option<Penalty>)

  function Step(acc: Ledger, e: Event): Ledger {
    var l1 := Register(acc, e.name);
    if e.pair.Some? then AddPenalty(l1, e.name, e.pair.value) else l1
  }

  /** The ledger after a run of events, in order. */
  function Replay(acc: Ledger, evs: seq<Event>): Ledger
    decreases |evs|
  {
    if evs == [] then acc else Replay(Step(acc, evs[0]), evs[1..])
  }

  /** `row` is accepted by the loader and, with the table `cats`, has the effect `e`. */
  ghost predicate Loads(cats: seq<Category>, row: Row, e: Event) {
    && RowOf(row, e.name)
    && match e.pair
       case None => FindCategoryIn(cats, row[1]) == None
       case Some(p) => row[1] == p.incident && FindCategoryIn(cats, p.incident) == Some(p.offense)
  }

  lemma RowStep(cats: seq<Category>, acc: Ledger, row: Row, e: Event, at: nat)
    requires Loads(cats, row, e)
    ensures ApplyRow(cats, acc, row, at) == Outcome(Step(acc, e), None)
  {
  }

  /** Rows that each load cleanly raise no error and leave the ledger their events describe. */
  lemma {:induction false} RowsReplay(cats: seq<Category>, acc: Ledger, rows: seq<Row>, evs: seq<Event>, at: nat)
    requires |rows| == |evs| && forall k :: 0 <= k < |rows| ==> Loads(cats, rows[k], evs[k])
    ensures ApplyRows(cats, acc, rows, at) == Outcome(Replay(acc, evs), None)
    decreases |rows|
  {
    if rows != [] {
      RowStep(cats, acc, rows[0], evs[0], at);
      assert forall k :: 0 <= k < |rows| - 1 ==> rows[1..][k] == rows[k + 1] && evs[1..][k] == evs[k + 1];
      RowsReplay(cats, Step(acc, evs[0]), rows[1..], evs[1..], at + 1);
    }
  }

  lemma {:induction false} ReplayConcat(acc: Ledger, a: seq<Event>, b: seq<Event>)
    ensures Replay(acc, a + b) == Replay(Replay(acc, a), b)
    decreases |a|
  {
    if a == [] {
      assert a + b == b;
    } else {
      assert (a + b)[0] == a[0] && (a + b)[1..] == a[1..] + b;
      ReplayConcat(Step(acc, a[0]), a[1..], b);
    }
  }

  /** Pointwise loading of two row runs carries over to their concatenation. */
  lemma LoadsConcat(cats: seq<Category>, a: seq<Row>, ea: seq<Event>, b: seq<Row>, eb: seq<Event>)
    requires |a| == |ea| && forall k :: 0 <= k < |a| ==> Loads(cats, a[k], ea[k])
    requires |b| == |eb| && forall k :: 0 <= k < |b| ==> Loads(cats, b[k], eb[k])
    ensures |a + b| == |ea + eb| && forall k :: 0 <= k < |a + b| ==> Loads(cats, (a + b)[k], (ea + eb)[k])
  {
    forall k | 0 <= k < |a + b| ensures Loads(cats, (a + b)[k], (ea + eb)[k]) {
      if k < |a| {
        assert (a + b)[k] == a[k] && (ea + eb)[k] == ea[k];
      } else {
        assert (a + b)[k] == b[k - |a|] && (ea + eb)[k] == eb[k - |a|];
      }
    }
  }

  // ---------------------------------------------------------------------------
  // Rows that only register their names

  /** One registering event per name. */
  function Registrations(names: seq<string>): seq<Event> {
    seq(|names|, k requires 0 <= k < |names| => Event(names[k], None))
  }

  lemma AppendHead(a: seq<string>, b: seq<string>)
    requires b != []
    ensures a + [b[0]] + b[1..] == a + b
  {
    assert b == [b[0]] + b[1..];
  }

  /** Registering distinct new names appends them to the order, each with an empty list. */
  lemma {:induction false} RegistrationsFresh(acc: Ledger, names: seq<string>)
    requires Distinct(names) && forall n :: n in names ==> n !in acc.entries
    ensures var r := Replay(acc, Registrations(names));
      && r.order == acc.order + names
      && (forall n :: n in r.entries <==> n in acc.entries || n in names)
      && (forall n :: n in acc.entries ==> r.entries[n] == acc.entries[n])
      && (forall n :: n in names ==> r.entries[n] == [])
    decreases |names|
  {
    if names != [] {
      var evs := Registrations(names);
      var acc1 := Step(acc, evs[0]);
      assert acc1 == Ledger(acc.order + [names[0]], acc.entries[names[0] := []]);
      assert evs[1..] == Registrations(names[1..]);
      DistinctTail(names);
      RegistrationsFresh(acc1, names[1..]);
      AppendHead(acc.order, names);
      assert forall n :: n in names <==> n == names[0] || n in names[1..] by {
        assert names == [names[0]] + names[1..];
      }
    }
  }

  /** Loading the summary rows of `names` into an empty ledger registers each written name with nothing. */
  lemma SummaryRowsImport(cats: seq<Category>, l: Ledger, names: seq<string>, at: nat)
    requires Valid(l) && Distinct(names) && forall n :: n in names ==> n in l.entries
    requires FindCategoryIn(cats, TotalLabel) == None
    ensures var o := ApplyRows(cats, Empty, SummaryRows(l, names), at);
      && o.error == None
      && o.ledger.order == NonReserved(names)
      && (forall n :: n in o.ledger.entries <==> n in names && n != Reserved)
      && (forall n :: n in o.ledger.entries ==> o.ledger.entries[n] == [])
  {
    var rows, ns := SummaryRows(l, names), NonReserved(names);
    var evs := Registrations(ns);
    forall k | 0 <= k < |rows| ensures Loads(cats, rows[k], evs[k]) {
      assert ns[k] in ns;
      ParseIntOfNatToString(TotalPoints(l, ns[k]));
    }
    RowsReplay(cats, Empty, rows, evs, at);
    NonReservedDistinct(names);
    RegistrationsFresh(Empty, ns);
  }

  // ---------------------------------------------------------------------------
  // As written: only summary rows

  /**
    Saving and loading into a fresh toolbox keeps the participants other than "player",
    in order, but every one of them comes back with no penalties.
  */
  lemma ExportThenImportForgetsPenalties(l: Ledger)
    requires Valid(l) && l.entries != map[]
    ensures
      var o := Import(Empty, ExportRows(l).value);
      && o.error == None
      && Valid(o.ledger)
      && o.ledger.order == NonReserved(l.order)
      && (forall n :: n in o.ledger.entries <==> n in l.entries && n != Reserved)
      && (forall n :: n in o.ledger.entries ==> TotalPoints(o.ledger, n) == 0)
  {
    var rows := ExportRows(l).value;
    assert rows[1..] == SummaryRows(l, l.order);
    TotalLabelIsNoIncident();
    SummaryRowsImport(Penalties, l, l.order, 1);
    ImportKeepsValid(Empty, rows);
  }

  /** A concrete case: one "Off-road" for Alex is worth 1 point before saving and 0 after loading. */
  lemma ExportThenImportExample()
    ensures
      var l := Ledger(["Alex"], map["Alex" := [Penalty("Driving", "Off-road")]]);
      && Valid(l)
      && TotalPoints(l, "Alex") == 1
      && var o := Import(Empty, ExportRows(l).value);
         "Alex" in o.ledger.entries && Valid(o.ledger) && TotalPoints(o.ledger, "Alex") == 0
  {
    var l := Ledger(["Alex"], map["Alex" := [Penalty("Driving", "Off-road")]]);
    LookupFindsEntry(1, 0);
    assert Valid(l) && "Alex" in l.entries;
    ExportThenImportForgetsPenalties(l);
  }

  // ---------------------------------------------------------------------------
  // Corrected: one row per incident, then the summary row

  /** `[name, incident, points]` for each recorded pair, in recorded order. */
  function IncidentRows(name: string, ps: seq<Penalty>): (rows: seq<Row>)
    requires AllListed(ps)
    ensures |rows| == |ps|
    ensures forall k :: 0 <= k < |rows| ==> RowOf(rows[k], name) && rows[k][1] == ps[k].incident
  {
    if ps == [] then []
    else
      assert ps[0] in ps && forall p :: p in ps[1..] ==> p in ps;
      var points := Points(ps[0].offense, ps[0].incident);
      ParseIntOfNatToString(points);
      [[name, ps[0].incident, NatToString(points)]] + IncidentRows(name, ps[1..])
  }

  /** One participant's block: their incident rows, then their summary row; nothing for "player". */
  function Block(l: Ledger, name: string): seq<Row>
    requires Valid(l) && name in l.entries
  {
    if name == Reserved then [] else IncidentRows(name, l.entries[name]) + [SummaryRow(l, name)]
  }

  /** The blocks of `names`, in order. */
  function FullRows(l: Ledger, names: seq<string>): seq<Row>
    requires Valid(l) && forall n :: n in names ==> n in l.entries
  {
    if names == [] then []
    else
      assert forall n :: n in names[1..] ==> n in names;
      Block(l, names[0]) + FullRows(l, names[1..])
  }

  /** The corrected writer: as output_penalties, with the incident rows the loader expects. */
  function ExportRowsFull(l: Ledger): Option<seq<Row>>
    requires Valid(l)
  {
    if l.entries == map[] then None else Some([Header] + FullRows(l, l.order))
  }

  lemma {:induction false} NonReservedCons(names: seq<string>)
    requires names != []
    ensures NonReserved(names) == (if names[0] == Reserved then [] else [names[0]]) + NonReserved(names[1..])
    decreases |names|
  {
    if |names| > 1 {
      var init := names[..|names| - 1];
      NonReservedCons(init);
      assert init[1..] == names[1..][..|names[1..]| - 1];
    }
  }

  /** `m` with the list from `l` of each participant of `names` other than "player". */
  function MergeLists(m: map<string, seq<Penalty>>, l: Ledger, names: seq<string>): map<string, seq<Penalty>>
    decreases |names|
  {
    if names == [] then m
    else
      var n := names[0];
      MergeLists(if n == Reserved || n !in l.entries then m else m[n := l.entries[n]], l, names[1..])
  }

  /** The merged map holds the lists of the written participants and keeps every other entry of `m`. */
  lemma {:induction false} MergeListsFacts(m: map<string, seq<Penalty>>, l: Ledger, names: seq<string>)
    ensures forall n :: n in MergeLists(m, l, names) <==> n in m || (n in names && n != Reserved && n in l.entries)
    ensures forall n :: n in names && n != Reserved && n in l.entries ==> MergeLists(m, l, names)[n] == l.entries[n]
    ensures forall n :: n in m && n !in names ==> MergeLists(m, l, names)[n] == m[n]
    decreases |names|
  {
    if names != [] {
      var n, rest := names[0], names[1..];
      var m1 := if n == Reserved || n !in l.entries then m else m[n := l.entries[n]];
      MergeListsFacts(m1, l, rest);
      assert forall x :: x in names <==> x == n || x in rest by {
        assert names == [n] + rest;
      }
    }
  }

  /** The ledger after the first block, then the rest, is the ledger after all of `names`. */
  lemma MergeCons(acc: Ledger, l: Ledger, names: seq<string>)
    requires names != [] && names[0] in l.entries
    ensures var n := names[0];
      var acc1 := if n == Reserved then acc else Ledger(acc.order + [n], acc.entries[n := l.entries[n]]);
      Ledger(acc1.order + NonReserved(names[1..]), MergeLists(acc1.entries, l, names[1..]))
        == Ledger(acc.order + NonReserved(names), MergeLists(acc.entries, l, names))
  {
    var n := names[0];
    NonReservedCons(names);
    if n != Reserved {
      assert acc.order + [n] + NonReserved(names[1..]) == acc.order + ([n] + NonReserved(names[1..]));
    }
  }

  lemma DistinctTail(names: seq<string>)
    requires Distinct(names) && names != []
    ensures Distinct(names[1..]) && forall m :: m in names[1..] ==> m in names && m != names[0]
  {
    var rest := names[1..];
    forall m | m in rest ensures m in names && m != names[0] {
      var k :| 0 <= k < |rest| && rest[k] == m;
      assert names[k + 1] == m;
    }
    assert forall k :: 0 <= k < |rest| ==> rest[k] == names[k + 1];
  }

  // ---------------------------------------------------------------------------
  // Loading the corrected rows

  /** One appending event per recorded pair of `name`. */
  function Additions(name: string, ps: seq<Penalty>): seq<Event> {
    seq(|ps|, k requires 0 <= k < |ps| => Event(name, Some(ps[k])))
  }

  /** The events of one participant's block: their pairs, then the registering summary row. */
  function BlockEvents(l: Ledger, name: string): seq<Event>
    requires name in l.entries
  {
    if name == Reserved then [] else Additions(name, l.entries[name]) + [Event(name, None)]
  }

  /** The events of the blocks of `names`, in order. */
  function FullEvents(l: Ledger, names: seq<string>): seq<Event>
    requires forall n :: n in names ==> n in l.entries
  {
    if names == [] then []
    else
      assert forall n :: n in names[1..] ==> n in names;
      BlockEvents(l, names[0]) + FullEvents(l, names[1..])
  }

  /** Each row of a participant's block loads as the matching event. */
  lemma BlockMatches(cats: seq<Category>, l: Ledger, name: string)
    requires Valid(l) && name in l.entries && Searchable(cats, l)
    ensures var rows, evs := Block(l, name), BlockEvents(l, name);
      |rows| == |evs| && forall k :: 0 <= k < |rows| ==> Loads(cats, rows[k], evs[k])
  {
    if name != Reserved {
      var ps := l.entries[name];
      IncidentsMatch(cats, name, ps);
      var s, e := SummaryRow(l, name), Event(name, None);
      ParseIntOfNatToString(TotalPoints(l, name));
      assert Loads(cats, s, e);
      assert forall k :: 0 <= k < 1 ==> Loads(cats, [s][k], [e][k]);
      LoadsConcat(cats, IncidentRows(name, ps), Additions(name, ps), [s], [e]);
    }
  }

  lemma IncidentsMatch(cats: seq<Category>, name: string, ps: seq<Penalty>)
    requires AllListed(ps) && forall p :: p in ps ==> FindCategoryIn(cats, p.incident) == Some(p.offense)
    ensures var rows, evs := IncidentRows(name, ps), Additions(name, ps);
      |rows| == |evs| && forall k :: 0 <= k < |rows| ==> Loads(cats, rows[k], evs[k])
  {
    var rows, evs := IncidentRows(name, ps), Additions(name, ps);
    forall k | 0 <= k < |rows| ensures Loads(cats, rows[k], evs[k]) {
      assert ps[k] in ps;
    }
  }

  /** Each corrected row loads as the matching event. */
  lemma {:induction false} FullRowsMatch(cats: seq<Category>, l: Ledger, names: seq<string>)
    requires Valid(l) && (forall n :: n in names ==> n in l.entries) && Searchable(cats, l)
    ensures var rows, evs := FullRows(l, names), FullEvents(l, names);
      |rows| == |evs| && forall k :: 0 <= k < |rows| ==> Loads(cats, rows[k], evs[k])
    decreases |names|
  {
    if names != [] {
      assert forall n :: n in names[1..] ==> n in names;
      BlockMatches(cats, l, names[0]);
      FullRowsMatch(cats, l, names[1..]);
      LoadsConcat(cats, Block(l, names[0]), BlockEvents(l, names[0]), FullRows(l, names[1..]), FullEvents(l, names[1..]));
    }
  }

  /** Appending events for a present name extend its list by exactly those pairs. */
  lemma {:induction false} AdditionsReplay(acc: Ledger, name: string, ps: seq<Penalty>)
    requires name in acc.entries
    ensures Replay(acc, Additions(name, ps)) == acc.(entries := acc.entries[name := acc.entries[name] + ps])
    decreases |ps|
  {
    if ps == [] {
      assert acc.entries[name] + ps == acc.entries[name];
      assert acc.entries[name := acc.entries[name]] == acc.entries;
    } else {
      var evs := Additions(name, ps);
      var acc1 := AddPenalty(acc, name, ps[0]);
      assert Step(acc, evs[0]) == acc1;
      assert evs[1..] == Additions(name, ps[1..]);
      AdditionsReplay(acc1, name, ps[1..]);
      assert acc1.entries[name] + ps[1..] == acc.entries[name] + ps;
    }
  }

  /** A block appends its participant to a ledger that lacks them, with their list from `l`. */
  lemma BlockReplay(l: Ledger, acc: Ledger, name: string)
    requires name in l.entries && name !in acc.entries
    ensures Replay(acc, BlockEvents(l, name)) ==
      if name == Reserved then acc else Ledger(acc.order + [name], acc.entries[name := l.entries[name]])
  {
    if name != Reserved {
      var ps := l.entries[name];
      var adds, evs := Additions(name, ps), BlockEvents(l, name);
      var acc0 := Register(acc, name);
      assert acc0 == Ledger(acc.order + [name], acc.entries[name := []]);
      assert evs[0].name == name;
      assert Step(acc, evs[0]) == Step(acc0, evs[0]);
      assert Replay(acc, evs) == Replay(acc0, evs);
      ReplayConcat(acc0, adds, [Event(name, None)]);
      AdditionsReplay(acc0, name, ps);
      assert acc0.entries[name] + ps == ps;
    }
  }

  /** Replaying the blocks of distinct fresh `names` appends each written participant with their list. */
  lemma {:induction false} FullReplay(l: Ledger, acc: Ledger, names: seq<string>)
    requires Distinct(names) && forall n :: n in names ==> n in l.entries && n !in acc.entries
    ensures Replay(acc, FullEvents(l, names)) == Ledger(acc.order + NonReserved(names), MergeLists(acc.entries, l, names))
    decreases |names|
  {
    if names == [] {
      assert acc.order + NonReserved(names) == acc.order;
    } else {
      var n := names[0];
      DistinctTail(names);
      var acc1 := if n == Reserved then acc else Ledger(acc.order + [n], acc.entries[n := l.entries[n]]);
      BlockReplay(l, acc, n);
      ReplayConcat(acc, BlockEvents(l, n), FullEvents(l, names[1..]));
      FullReplay(l, acc1, names[1..]);
      MergeCons(acc, l, names);
    }
  }

  /**
    With the corrected writer, saving and loading into a fresh toolbox restores every
    participant other than "player", in order, with exactly the same list of pairs,
    and therefore the same total.
  */
  lemma FullExportImportRoundTrip(l: Ledger)
    requires Valid(l) && l.entries != map[]
    ensures
      var o := Import(Empty, ExportRowsFull(l).value);
      && o.error == None
      && Valid(o.ledger)
      && o.ledger.order == NonReserved(l.order)
      && (forall n :: n in o.ledger.entries <==> n in l.entries && n != Reserved)
      && (forall n :: n in o.ledger.entries ==> o.ledger.entries[n] == l.entries[n] && TotalPoints(o.ledger, n) == TotalPoints(l, n))
  {
    var rows := ExportRowsFull(l).value;
    assert rows[1..] == FullRows(l, l.order);
    PenaltiesSearchable(l);
    FullRowsMatch(Penalties, l, l.order);
    RowsReplay(Penalties, Empty, rows[1..], FullEvents(l, l.order), 1);
    FullReplay(l, Empty, l.order);
    MergeListsFacts(map[], l, l.order);
    ImportKeepsValid(Empty, rows);
  }
}
