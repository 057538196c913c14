/**
  The toolbox window's penalty state, updated in place by its handlers. Widgets,
  message boxes and file dialogs are not modelled: a handler's visible result (the
  warning it shows, the count and enabled state of a participant's button, the rows
  it writes) is its return value, and a loaded file is given as its rows.
*/
module Toolbox {
  import opened Results
  import opened Catalog
  import opened PenaltyLedger
  import opened Transfer

  /**
    The loop of `for offense, incidents in penalties.items(): if incident in incidents`:
    the name of the first category of `cats` that lists `incident`.
  */
  method FindCategory(cats: seq<Category>, incident: string) returns (c: Option<string>)
    ensures c == FindCategoryIn(cats, incident)
  {
    var i := 0;
    while i < |cats|
      invariant 0 <= i <= |cats|
      invariant FindCategoryIn(cats[i..], incident) == FindCategoryIn(cats, incident)
    {
      assert cats[i..][1..] == cats[i + 1..];
      if PointsIn(cats[i].incidents, incident).Some? {
        return Some(cats[i].name);
      }
      i := i + 1;
    }
    return None;
  }

  /** The sum of the catalog points of `ps`, accumulated pair by pair. */
  method SumPoints(ps: seq<Penalty>) returns (total: int)
    requires AllListed(ps)
    ensures total == Total(ps)
  {
    total := 0;
    for i := 0 to |ps|
      invariant AllListed(ps[..i]) && total == Total(ps[..i])
    {
      assert ps[i] in ps;
      TotalAppend(ps[..i], ps[i]);
      assert ps[..i + 1] == ps[..i] + [ps[i]];
      total := total + Points(ps[i].offense, ps[i].incident);
    }
    assert ps[..|ps|] == ps;
  }

  /** Loading the rows from position `i` on is loading row `i`, then, unless it failed, the rest. */
  lemma ApplyRowsStep(cats: seq<Category>, l: Ledger, rows: seq<Row>, i: nat)
    requires i < |rows|
    ensures ApplyRows(cats, l, rows[i..], i) ==
      var o := ApplyRow(cats, l, rows[i], i);
      if o.error.Some? then o else ApplyRows(cats, o.ledger, rows[i + 1..], i + 1)
  {
    assert rows[i..][0] == rows[i] && rows[i..][1..] == rows[i + 1..];
  }

  class RCToolbox {
    /** The keys of `selected_penalties` in first-insertion order. */
    var order: seq<string>
    /** `selected_penalties`: each participant's recorded `(offense, incident)` pairs. */
    var selectedPenalties: map<string, seq<Penalty>>

    /** The dictionary as a ledger value. */
    function Abs(): Ledger
      reads this
    {
      Ledger(order, selectedPenalties)
    }

    ghost predicate Valid()
      reads this
    {
      PenaltyLedger.Valid(Abs())
    }

    /** A new window starts with no participants. */
    constructor ()
      ensures Abs() == Empty && Valid()
    {
      order := [];
      selectedPenalties := map[];
    }

    /**
      update_penalty_counts: the participant's total, and whether their button is
      disabled because the total reached the threshold.
    */
    method UpdatePenaltyCounts(name: string) returns (total: int, disabled: bool)
      requires Valid() && name in selectedPenalties
      ensures total == TotalPoints(Abs(), name)
      ensures disabled <==> Disqualified(total)
    {
      total := SumPoints(selectedPenalties[name]);
      disabled := Disqualified(total);
    }

    /** add_name: a non-empty name gets an empty list; an empty one only raises a warning. */
    method AddName(name: string) returns (warning: Option<LedgerError>)
      requires Valid()
      modifies this
      ensures Valid()
      ensures match PenaltyLedger.AddName(old(Abs()), name)
        case Success(l) => warning == None && Abs() == l
        case Failure(e) => warning == Some(e) && Abs() == old(Abs())
    {
      ghost var l0 := Abs();
      if name != "" {
        if name !in selectedPenalties {
          order := order + [name];
        }
        selectedPenalties := selectedPenalties[name := []];
        ResetKeepsValid(l0, name);
        warning := None;
      } else {
        warning := Some(InvalidName);
      }
    }

    /**
      The penalty dialog's add_penalty: append the pair, then refresh the participant's
      button. The dialog offers only catalog entries, for a listed participant.
    */
    method AddPenalty(name: string, offense: string, incident: string) returns (total: int, disabled: bool)
      requires Valid() && name in selectedPenalties && InCatalog(offense, incident)
      modifies this
      ensures Valid()
      ensures Abs() == PenaltyLedger.AddPenalty(old(Abs()), name, Penalty(offense, incident))
      ensures total == TotalPoints(old(Abs()), name) + Points(offense, incident)
      ensures disabled <==> Disqualified(total)
    {
      ghost var l0 := Abs();
      var p := Penalty(offense, incident);
      selectedPenalties := selectedPenalties[name := selectedPenalties[name] + [p]];
      AddPenaltyEffect(l0, name, p);
      total, disabled := UpdatePenaltyCounts(name);
    }

    /**
      The penalty dialog's remove_penalty: delete the first copy of the pair, then refresh
      the button; `list.remove` raises ValueError, changing nothing, when there is none.
    */
    method RemovePenalty(name: string, offense: string, incident: string) returns (r: Result<(int, bool), LedgerError>)
      requires Valid() && name in selectedPenalties
      modifies this
      ensures Valid()
      ensures match PenaltyLedger.RemovePenalty(old(Abs()), name, Penalty(offense, incident))
        case Failure(e) => r == Failure(e) && Abs() == old(Abs())
        case Success(l) =>
          && Abs() == l && r.Success?
          && r.value.0 == TotalPoints(old(Abs()), name) - Points(offense, incident)
          && (r.value.1 <==> Disqualified(r.value.0))
    {
      ghost var l0 := Abs();
      var p := Penalty(offense, incident);
      RemovePenaltyEffect(l0, name, p);
      if p in selectedPenalties[name] {
        selectedPenalties := selectedPenalties[name := RemoveFirst(selectedPenalties[name], p)];
        var total, disabled := UpdatePenaltyCounts(name);
        r := Success((total, disabled));
      } else {
        r := Failure(IncidentNotRecorded);
      }
    }

    /**
      output_penalties: nothing for an empty dictionary; otherwise the header and, for
      each participant other than "player" in insertion order, their summary row.
    */
    method OutputPenalties() returns (file: Option<seq<Row>>)
      requires Valid()
      ensures file == ExportRows(Abs())
    {
      if selectedPenalties == map[] {
        return None;
      }
      var rows := [Header];
      for i := 0 to |order|
        invariant rows == [Header] + SummaryRows(Abs(), order[..i])
      {
        assert order[..i + 1][..i] == order[..i];
        var name := order[i];
        if name != Reserved {
          var points := SumPoints(selectedPenalties[name]);
          rows := rows + [[name, TotalLabel, NatToString(points)]];
        }
      }
      assert order[..|order|] == order;
      return Some(rows);
    }

    /**
      import_penalties: skip the header, then load row by row; a row of the wrong length
      or with a non-integer points column stops the load, keeping the rows before it.
    */
    method ImportPenalties(rows: seq<Row>) returns (err: Option<ImportError>)
      requires Valid()
      modifies this
      ensures Valid()
      ensures Outcome(Abs(), err) == Import(old(Abs()), rows)
    {
      ghost var l0 := Abs();
      ImportKeepsValid(l0, rows);
      if rows == [] {
        return Some(NoHeader);
      }
      var i := 1;
      while i < |rows|
        invariant 1 <= i <= |rows|
        invariant Import(l0, rows) == ApplyRows(Penalties, Abs(), rows[i..], i)
      {
        ghost var before := Abs();
        ApplyRowsStep(Penalties, before, rows, i);
        var row := rows[i];
        if |row| != 3 {
          return Some(WrongFieldCount(i));
        }
        var name, incident, points := row[0], row[1], row[2];
        if name !in selectedPenalties {
          order := order + [name];
          selectedPenalties := selectedPenalties[name := []];
        }
        assert Abs() == Register(before, name);
        if ParseInt(points).None? {
          return Some(NotAnInteger(i));
        }
        var c := FindCategory(Penalties, incident);
        if c.Some? {
          selectedPenalties := selectedPenalties[name := selectedPenalties[name] + [Penalty(c.value, incident)]];
        }
        assert Abs() == ApplyRow(Penalties, before, row, i).ledger;
        i := i + 1;
      }
      return None;
    }
  }
}
