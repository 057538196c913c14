/**
  The penalty ledger as a value: for each participant, the ordered list of
  `(offense, incident)` pairs recorded against them, plus the order in which
  participants were first inserted (the iteration order of the ledger dictionary).
  The operations here are the specifications of the toolbox's in-place methods.
*/
module PenaltyLedger {
  import opened Results
  import opened Catalog

  /** One recorded incident: the category it was filed under and its name. */
  datatype Penalty = Penalty(offense: string, incident: string)

  /**
    The `selected_penalties` dictionary: `entries` maps a participant to their
    penalties and `order` lists the keys in first-insertion order.
  */
  datatype Ledger = Ledger(order: seq<string>, entries: map<string, seq<Penalty>>)

  datatype LedgerError = InvalidName | IncidentNotRecorded

  const Empty: Ledger := Ledger([], map[])

  predicate Listed(p: Penalty) {
    InCatalog(p.offense, p.incident)
  }

  ghost predicate AllListed(ps: seq<Penalty>) {
    forall p :: p in ps ==> Listed(p)
  }

  ghost predicate Distinct(names: seq<string>) {
    forall a, b :: 0 <= a < b < |names| ==> names[a] != names[b]
  }

  /**
    The ledger invariant: the order lists every key exactly once, and every recorded
    pair is a catalog entry (so that its points can be looked up).
  */
  ghost predicate Valid(l: Ledger) {
    && Distinct(l.order)
    && (forall n :: n in l.order <==> n in l.entries)
    && (forall n :: n in l.entries ==> AllListed(l.entries[n]))
  }

  /** The sum of catalog points over a list of penalties. */
  function Total(ps: seq<Penalty>): (r: int)
    requires AllListed(ps)
    ensures r >= |ps|
  {
    if ps == [] then 0
    else
      assert ps[0] in ps && forall p :: p in ps[1..] ==> p in ps;
      Points(ps[0].offense, ps[0].incident) + Total(ps[1..])
  }

  /** A participant's total points. */
  function TotalPoints(l: Ledger, name: string): int
    requires Valid(l) && name in l.entries
  {
    Total(l.entries[name])
  }

  /** The flag that disables a participant's button: the threshold is reached. */
  predicate Disqualified(total: int) {
    total >= MaxPenaltyPoints
  }

  /** `d[name] = []`, keeping the key's first-insertion position if it was already present. */
  function Reset(l: Ledger, name: string): Ledger {
    Ledger(if name in l.entries then l.order else l.order + [name], l.entries[name := []])
  }

  /** `if name not in d: d[name] = []`, as the import does for an unseen name. */
  function Register(l: Ledger, name: string): Ledger {
    if name in l.entries then l else Reset(l, name)
  }

  /** add_name: an empty name is refused with a warning; any other name gets an empty list. */
  function AddName(l: Ledger, name: string): Result<Ledger, LedgerError> {
    if name == "" then Failure(InvalidName) else Success(Reset(l, name))
  }

  /** add_penalty: append one pair to the participant's list. */
  function AddPenalty(l: Ledger, name: string, p: Penalty): Ledger
    requires name in l.entries
  {
    l.(entries := l.entries[name := l.entries[name] + [p]])
  }

  /** The position of the first element equal to `p`, as `list.index` finds it. */
  function FirstIndex(ps: seq<Penalty>, p: Penalty): (k: nat)
    requires p in ps
    ensures k < |ps| && ps[k] == p && p !in ps[..k]
  {
    if ps[0] == p then 0
    else
      var k := FirstIndex(ps[1..], p);
      assert ps[..k + 1] == [ps[0]] + ps[1..][..k];
      k + 1
  }

  /** Python's `list.remove`: delete the first element equal to `p`. */
  function RemoveFirst(ps: seq<Penalty>, p: Penalty): (r: seq<Penalty>)
    requires p in ps
    ensures multiset(r) == multiset(ps) - multiset{p}
    ensures |r| == |ps| - 1
  {
    var k := FirstIndex(ps, p);
    assert ps == ps[..k] + [p] + ps[k + 1..];
    ps[..k] + ps[k + 1..]
  }

  /** remove_penalty: delete the first matching pair, or fail (ValueError) when there is none. */
  function RemovePenalty(l: Ledger, name: string, p: Penalty): Result<Ledger, LedgerError>
    requires name in l.entries
  {
    if p in l.entries[name] then Success(l.(entries := l.entries[name := RemoveFirst(l.entries[name], p)]))
    else Failure(IncidentNotRecorded)
  }

  // ---------------------------------------------------------------------------
  // Totals

  /** The sum over a concatenation is the sum of the sums. */
  lemma {:induction false} TotalConcat(ps: seq<Penalty>, qs: seq<Penalty>)
    requires AllListed(ps) && AllListed(qs)
    ensures AllListed(ps + qs)
    ensures Total(ps + qs) == Total(ps) + Total(qs)
  {
    if ps != [] {
      assert (ps + qs)[1..] == ps[1..] + qs;
      TotalConcat(ps[1..], qs);
    } else {
      assert ps + qs == qs;
    }
  }

  /** Appending a pair raises the sum by exactly its catalog points. */
  lemma TotalAppend(ps: seq<Penalty>, p: Penalty)
    requires AllListed(ps) && Listed(p)
    ensures AllListed(ps + [p])
    ensures Total(ps + [p]) == Total(ps) + Points(p.offense, p.incident)
  {
    TotalConcat(ps, [p]);
  }

  /** Deleting the first occurrence of a pair lowers the sum by exactly its catalog points. */
  lemma TotalRemoveFirst(ps: seq<Penalty>, p: Penalty)
    requires AllListed(ps) && p in ps
    ensures AllListed(RemoveFirst(ps, p))
    ensures Total(RemoveFirst(ps, p)) == Total(ps) - Points(p.offense, p.incident)
  {
    var k := FirstIndex(ps, p);
    var before, after := ps[..k], ps[k + 1..];
    assert ps == before + ([p] + after);
    assert RemoveFirst(ps, p) == before + after;
    TotalConcat(before, after);
    TotalConcat([p], after);
    TotalConcat(before, [p] + after);
  }

  /** The total depends only on the multiset of pairs, not on their order. */
  lemma {:induction false} TotalIgnoresOrder(ps: seq<Penalty>, qs: seq<Penalty>)
    requires AllListed(ps) && multiset(ps) == multiset(qs)
    ensures AllListed(qs)
    ensures Total(ps) == Total(qs)
  {
    assert forall q :: q in qs ==> q in multiset(ps);
    if ps != [] {
      var p := ps[0];
      assert p in multiset(qs);
      var rest := RemoveFirst(qs, p);
      TotalRemoveFirst(qs, p);
      assert ps == [p] + ps[1..];
      assert multiset(ps[1..]) == multiset(rest);
      TotalIgnoresOrder(ps[1..], rest);
    }
  }

  // ---------------------------------------------------------------------------
  // The ledger operations

  /** Resetting (or first registering) a participant keeps the invariant. */
  lemma ResetKeepsValid(l: Ledger, name: string)
    requires Valid(l)
    ensures Valid(Reset(l, name)) && Valid(Register(l, name))
  {
    var l' := Reset(l, name);
    assert forall n :: n in l'.order <==> n in l'.entries;
  }

  /** add_name keeps the invariant; a non-empty name ends up with no penalties and zero points. */
  lemma AddNameEffect(l: Ledger, name: string)
    requires Valid(l)
    ensures AddName(l, name).Failure? <==> name == ""
    ensures AddName(l, name).Failure? ==> AddName(l, name).error == InvalidName
    ensures AddName(l, name).Success? ==>
      var l' := AddName(l, name).value;
      && Valid(l')
      && l'.entries[name] == [] && TotalPoints(l', name) == 0
      && (forall n :: n in l.entries && n != name ==> n in l'.entries && l'.entries[n] == l.entries[n])
      && l'.entries.Keys == l.entries.Keys + {name}
      && l'.order == (if name in l.entries then l.order else l.order + [name])
  {
    ResetKeepsValid(l, name);
  }

  /** Re-adding a participant that has penalties wipes them: the total drops back to zero. */
  lemma AddNameResetsExisting(l: Ledger, name: string)
    requires Valid(l) && name != "" && name in l.entries && l.entries[name] != []
    ensures AddName(l, name).Success?
    ensures TotalPoints(l, name) > 0
    ensures TotalPoints(AddName(l, name).value, name) == 0
    ensures AddName(l, name).value.order == l.order
  {
    AddNameEffect(l, name);
  }

  /** add_penalty keeps the invariant, raises this participant's total by the pair's points, and leaves everyone else alone. */
  lemma AddPenaltyEffect(l: Ledger, name: string, p: Penalty)
    requires Valid(l) && name in l.entries && Listed(p)
    ensures Valid(AddPenalty(l, name, p))
    ensures AddPenalty(l, name, p).entries[name] == l.entries[name] + [p]
    ensures TotalPoints(AddPenalty(l, name, p), name) == TotalPoints(l, name) + Points(p.offense, p.incident)
    ensures AddPenalty(l, name, p).order == l.order
    ensures AddPenalty(l, name, p).entries.Keys == l.entries.Keys
    ensures forall n :: n in l.entries && n != name ==> AddPenalty(l, name, p).entries[n] == l.entries[n]
  {
    TotalAppend(l.entries[name], p);
  }

  /**
    remove_penalty fails exactly when the pair is not recorded; otherwise it keeps the
    invariant, removes one copy of the pair, lowers the total by the pair's points,
    and leaves everyone else alone.
  */
  lemma RemovePenaltyEffect(l: Ledger, name: string, p: Penalty)
    requires Valid(l) && name in l.entries
    ensures RemovePenalty(l, name, p).Failure? <==> p !in l.entries[name]
    ensures RemovePenalty(l, name, p).Failure? ==> RemovePenalty(l, name, p).error == IncidentNotRecorded
    ensures RemovePenalty(l, name, p).Success? ==>
      var l' := RemovePenalty(l, name, p).value;
      && Valid(l')
      && multiset(l'.entries[name]) == multiset(l.entries[name]) - multiset{p}
      && TotalPoints(l', name) == TotalPoints(l, name) - Points(p.offense, p.incident)
      && l'.order == l.order
      && l'.entries.Keys == l.entries.Keys
      && (forall n :: n in l.entries && n != name ==> l'.entries[n] == l.entries[n])
  {
    if p in l.entries[name] {
      TotalRemoveFirst(l.entries[name], p);
    }
  }

  /**
    Recording a pair and then removing it succeeds and restores the participant's total
    and multiset of pairs; the rest of the ledger is as before.
  */
  lemma RecordThenRemove(l: Ledger, name: string, p: Penalty)
    requires Valid(l) && name in l.entries && Listed(p)
    ensures RemovePenalty(AddPenalty(l, name, p), name, p).Success?
    ensures
      var l' := RemovePenalty(AddPenalty(l, name, p), name, p).value;
      && Valid(l')
      && multiset(l'.entries[name]) == multiset(l.entries[name])
      && TotalPoints(l', name) == TotalPoints(l, name)
      && l'.order == l.order
      && l'.entries.Keys == l.entries.Keys
      && (forall n :: n in l.entries && n != name ==> l'.entries[n] == l.entries[n])
  {
    AddPenaltyEffect(l, name, p);
    var l1 := AddPenalty(l, name, p);
    RemovePenaltyEffect(l1, name, p);
    var l' := RemovePenalty(l1, name, p).value;
    assert multiset(l'.entries[name]) == multiset(l.entries[name]);
  }

  /** ...but the list order need not come back: recording `p` after `p, q` and removing `p` leaves `q, p`. */
  lemma RecordThenRemoveMayReorder()
    ensures
      var p, q := Penalty("Driving", "Off-road"), Penalty("Contact", "Wreck");
      var l := Ledger(["Alex"], map["Alex" := [p, q]]);
      && Valid(l)
      && RemovePenalty(AddPenalty(l, "Alex", p), "Alex", p).Success?
      && RemovePenalty(AddPenalty(l, "Alex", p), "Alex", p).value.entries["Alex"] == [q, p]
  {
    var p, q := Penalty("Driving", "Off-road"), Penalty("Contact", "Wreck");
    LookupFindsEntry(1, 0);
    LookupFindsEntry(0, 1);
    var l := Ledger(["Alex"], map["Alex" := [p, q]]);
    assert Valid(l);
    assert AddPenalty(l, "Alex", p).entries["Alex"] == [p, q, p];
    assert FirstIndex([p, q, p], p) == 0;
    assert RemoveFirst([p, q, p], p) == [q, p];
  }

  /** Four "Disrupting the race" and one "Off-road" make 21 points. */
  lemma ThresholdExampleTotal()
    ensures
      var race, offroad := Penalty("Misbehavior", "Disrupting the race"), Penalty("Driving", "Off-road");
      var ps := [race, race, race, race, offroad];
      AllListed(ps) && Total(ps) == 21
  {
    var race, offroad := Penalty("Misbehavior", "Disrupting the race"), Penalty("Driving", "Off-road");
    LookupFindsEntry(2, 2);
    LookupFindsEntry(1, 0);
    var ps := [race, race, race, race, offroad];
    assert Points(race.offense, race.incident) == 5;
    assert Total(ps[4..]) == 1;
    assert ps[3..][1..] == ps[4..];
    assert Total(ps[3..]) == 6;
    assert ps[2..][1..] == ps[3..];
    assert Total(ps[2..]) == 11;
    assert ps[1..][1..] == ps[2..];
    assert Total(ps[1..]) == 16;
  }

  /** Removing a penalty can bring a disqualified participant back under the threshold. */
  lemma RemovalCanRequalify()
    ensures
      var race, offroad := Penalty("Misbehavior", "Disrupting the race"), Penalty("Driving", "Off-road");
      var l := Ledger(["Alex"], map["Alex" := [race, race, race, race, offroad]]);
      && Valid(l)
      && Disqualified(TotalPoints(l, "Alex"))
      && RemovePenalty(l, "Alex", offroad).Success?
      && Valid(RemovePenalty(l, "Alex", offroad).value)
      && TotalPoints(RemovePenalty(l, "Alex", offroad).value, "Alex") == 20
      && !Disqualified(TotalPoints(RemovePenalty(l, "Alex", offroad).value, "Alex"))
  {
    var race, offroad := Penalty("Misbehavior", "Disrupting the race"), Penalty("Driving", "Off-road");
    ThresholdExampleTotal();
    LookupFindsEntry(1, 0);
    var l := Ledger(["Alex"], map["Alex" := [race, race, race, race, offroad]]);
    assert Valid(l);
    RemovePenaltyEffect(l, "Alex", offroad);
  }
}
