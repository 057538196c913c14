/**
  The penalty catalog: a fixed table from category ("offense") to incident name to
  penalty points, and the disqualification threshold.
*/
module Catalog {
  import opened Results

  /** One category of the table with its incidents, in table order. */
  datatype Category = Category(name: string, incidents: seq<(string, int)>)

  /** The table of penalty points, in the order the categories and incidents are listed. */
  const Penalties: seq<Category> := [
    Category("Contact", [("Minor contact", 1), ("Wreck", 4)]),
    Category("Driving", [("Off-road", 1), ("Corner cut", 2), ("Reckless/endangering driving", 3)]),
    Category("Misbehavior", [("Failure to comply", 2), ("Not listening to EM", 4), ("Disrupting the race", 5)])
  ]

  /** A participant whose total reaches this many points is disqualified. */
  const MaxPenaltyPoints: int := 21

  /** `incident in category`: some entry of the category carries that name. */
  ghost predicate Lists(incidents: seq<(string, int)>, incident: string) {
    exists j :: 0 <= j < |incidents| && incidents[j].0 == incident
  }

  /** Dictionary lookup of an incident inside one category: `incidents[incident]`. */
  function PointsIn(incidents: seq<(string, int)>, incident: string): Option<int> {
    if incidents == [] then None
    else if incidents[0].0 == incident then Some(incidents[0].1)
    else PointsIn(incidents[1..], incident)
  }

  /** `penalties[offense][incident]` over a table `cats`; None where Python raises KeyError. */
  function LookupIn(cats: seq<Category>, offense: string, incident: string): Option<int> {
    if cats == [] then None
    else if cats[0].name == offense then PointsIn(cats[0].incidents, incident)
    else LookupIn(cats[1..], offense, incident)
  }

  /** The first category of `cats` that lists `incident`, as the import's search finds it. */
  function FindCategoryIn(cats: seq<Category>, incident: string): Option<string> {
    if cats == [] then None
    else if PointsIn(cats[0].incidents, incident).Some? then Some(cats[0].name)
    else FindCategoryIn(cats[1..], incident)
  }

  /** The lookup inside a category finds exactly the listed names, with their listed points. */
  lemma {:induction false} PointsInSound(incidents: seq<(string, int)>, incident: string)
    ensures PointsIn(incidents, incident).Some? <==> Lists(incidents, incident)
    ensures PointsIn(incidents, incident).Some? ==> (incident, PointsIn(incidents, incident).value) in incidents
  {
    if incidents != [] {
      var tail := incidents[1..];
      PointsInSound(tail, incident);
      if Lists(tail, incident) {
        var j :| 0 <= j < |tail| && tail[j].0 == incident;
        assert incidents[j + 1].0 == incident;
      }
      if Lists(incidents, incident) && incidents[0].0 != incident {
        var j :| 0 <= j < |incidents| && incidents[j].0 == incident;
        assert tail[j - 1].0 == incident;
      }
    }
  }

  /** A successful lookup names a category of the table that lists the pair. */
  lemma {:induction false} LookupInSound(cats: seq<Category>, offense: string, incident: string)
    ensures LookupIn(cats, offense, incident).Some? ==>
      exists k :: 0 <= k < |cats| && cats[k].name == offense && (incident, LookupIn(cats, offense, incident).value) in cats[k].incidents
  {
    if cats != [] {
      PointsInSound(cats[0].incidents, incident);
      LookupInSound(cats[1..], offense, incident);
      if cats[0].name != offense && LookupIn(cats, offense, incident).Some? {
        var v := LookupIn(cats, offense, incident).value;
        var k :| 0 <= k < |cats[1..]| && cats[1..][k].name == offense && (incident, v) in cats[1..][k].incidents;
        assert cats[k + 1] == cats[1..][k];
      }
    }
  }

  /** The search succeeds exactly when some category lists the incident, and returns such a category. */
  lemma {:induction false} FindCategoryInSound(cats: seq<Category>, incident: string)
    ensures FindCategoryIn(cats, incident).Some? <==> exists k :: 0 <= k < |cats| && Lists(cats[k].incidents, incident)
    ensures FindCategoryIn(cats, incident).Some? ==>
      exists k :: 0 <= k < |cats| && cats[k].name == FindCategoryIn(cats, incident).value && Lists(cats[k].incidents, incident)
  {
    if cats != [] {
      PointsInSound(cats[0].incidents, incident);
      FindCategoryInSound(cats[1..], incident);
      assert forall k :: 1 <= k < |cats| ==> cats[k] == cats[1..][k - 1];
      if PointsIn(cats[0].incidents, incident).None? && exists k :: 0 <= k < |cats| && Lists(cats[k].incidents, incident) {
        var k :| 0 <= k < |cats| && Lists(cats[k].incidents, incident);
        assert Lists(cats[1..][k - 1].incidents, incident);
      }
    }
  }

  /**
    A table is well formed when category names are distinct, every incident name occurs
    exactly once in the whole table, and every point value is at least 1.
  */
  ghost predicate WellFormed(cats: seq<Category>) {
    && (forall a, b :: 0 <= a < b < |cats| ==> cats[a].name != cats[b].name)
    && (forall a, b, x :: 0 <= a < b < |cats| && Lists(cats[a].incidents, x) ==> !Lists(cats[b].incidents, x))
    && (forall a :: 0 <= a < |cats| ==> UniqueNames(cats[a].incidents))
    && (forall a, e :: 0 <= a < |cats| && e in cats[a].incidents ==> e.1 >= 1)
  }

  ghost predicate UniqueNames(incidents: seq<(string, int)>) {
    forall i, j :: 0 <= i < j < |incidents| ==> incidents[i].0 != incidents[j].0
  }

  lemma ContactNames(x: string)
    ensures Lists(Penalties[0].incidents, x) <==> x == "Minor contact" || x == "Wreck"
  {
    if x == "Minor contact" { assert Penalties[0].incidents[0].0 == x; }
    if x == "Wreck" { assert Penalties[0].incidents[1].0 == x; }
  }

  lemma DrivingNames(x: string)
    ensures Lists(Penalties[1].incidents, x) <==> x == "Off-road" || x == "Corner cut" || x == "Reckless/endangering driving"
  {
    if x == "Off-road" { assert Penalties[1].incidents[0].0 == x; }
    if x == "Corner cut" { assert Penalties[1].incidents[1].0 == x; }
    if x == "Reckless/endangering driving" { assert Penalties[1].incidents[2].0 == x; }
  }

  lemma MisbehaviorNames(x: string)
    ensures Lists(Penalties[2].incidents, x) <==> x == "Failure to comply" || x == "Not listening to EM" || x == "Disrupting the race"
  {
    if x == "Failure to comply" { assert Penalties[2].incidents[0].0 == x; }
    if x == "Not listening to EM" { assert Penalties[2].incidents[1].0 == x; }
    if x == "Disrupting the race" { assert Penalties[2].incidents[2].0 == x; }
  }

  lemma CatalogCategoriesApart()
    ensures forall a, b :: 0 <= a < b < |Penalties| ==> Penalties[a].name != Penalties[b].name
    ensures forall a, b, x :: 0 <= a < b < |Penalties| && Lists(Penalties[a].incidents, x) ==> !Lists(Penalties[b].incidents, x)
  {
    forall a, b, x | 0 <= a < b < |Penalties| && Lists(Penalties[a].incidents, x)
      ensures !Lists(Penalties[b].incidents, x)
    {
      ContactNames(x);
      DrivingNames(x);
      MisbehaviorNames(x);
      assert (a, b) == (0, 1) || (a, b) == (0, 2) || (a, b) == (1, 2);
    }
  }

  lemma CatalogEntriesSound()
    ensures forall a :: 0 <= a < |Penalties| ==> UniqueNames(Penalties[a].incidents)
    ensures forall a, e :: 0 <= a < |Penalties| && e in Penalties[a].incidents ==> e.1 >= 1
  {
    forall a | 0 <= a < |Penalties|
      ensures UniqueNames(Penalties[a].incidents)
      ensures forall e :: e in Penalties[a].incidents ==> e.1 >= 1
    {
      assert a == 0 || a == 1 || a == 2;
    }
  }

  /** The penalty table is well formed. */
  lemma CatalogWellFormed()
    ensures WellFormed(Penalties)
  {
    CatalogCategoriesApart();
    CatalogEntriesSound();
  }

  /** `penalties[offense][incident]` on the toolbox's own table. */
  function Lookup(offense: string, incident: string): Option<int> {
    LookupIn(Penalties, offense, incident)
  }

  /** The category the import's search assigns to an incident name. */
  function CategoryOf(incident: string): Option<string> {
    FindCategoryIn(Penalties, incident)
  }

  /** In a well-formed table, searching by incident name finds `offense` exactly when `(offense, incident)` is an entry. */
  lemma {:induction false} FindCategoryAgreesWithLookup(cats: seq<Category>, offense: string, incident: string)
    requires WellFormed(cats)
    ensures FindCategoryIn(cats, incident) == Some(offense) <==> LookupIn(cats, offense, incident).Some?
  {
    if cats != [] {
      WellFormedTail(cats);
      PointsInSound(cats[0].incidents, incident);
      LookupInSound(cats[1..], offense, incident);
      FindCategoryInSound(cats[1..], incident);
      assert forall k :: 0 <= k < |cats[1..]| ==> cats[1..][k] == cats[k + 1];
      FindCategoryAgreesWithLookup(cats[1..], offense, incident);
    }
  }

  /** In a well-formed table, every entry is found under its own category with its own points. */
  lemma {:induction false} LookupInFindsEntry(cats: seq<Category>, a: nat, j: nat)
    requires WellFormed(cats) && a < |cats| && j < |cats[a].incidents|
    ensures LookupIn(cats, cats[a].name, cats[a].incidents[j].0) == Some(cats[a].incidents[j].1)
  {
    if a == 0 {
      PointsInFindsEntry(cats[0].incidents, j);
    } else {
      assert WellFormed(cats[1..]) by { WellFormedTail(cats); }
      assert cats[1..][a - 1] == cats[a];
      LookupInFindsEntry(cats[1..], a - 1, j);
    }
  }

  lemma {:induction false} PointsInFindsEntry(incidents: seq<(string, int)>, j: nat)
    requires UniqueNames(incidents) && j < |incidents|
    ensures PointsIn(incidents, incidents[j].0) == Some(incidents[j].1)
  {
    if j > 0 {
      var tail := incidents[1..];
      assert UniqueNames(tail) by {
        forall i, i' | 0 <= i < i' < |tail| ensures tail[i].0 != tail[i'].0 {
          assert tail[i] == incidents[i + 1] && tail[i'] == incidents[i' + 1];
        }
      }
      assert tail[j - 1] == incidents[j];
      PointsInFindsEntry(tail, j - 1);
    }
  }

  lemma WellFormedTail(cats: seq<Category>)
    requires WellFormed(cats) && cats != []
    ensures WellFormed(cats[1..])
  {
    var tail := cats[1..];
    forall a, b | 0 <= a < b < |tail| ensures tail[a].name != tail[b].name {
      assert tail[a] == cats[a + 1] && tail[b] == cats[b + 1];
    }
    forall a, b, x | 0 <= a < b < |tail| && Lists(tail[a].incidents, x)
      ensures !Lists(tail[b].incidents, x)
    {
      assert tail[a] == cats[a + 1] && tail[b] == cats[b + 1];
    }
    forall a | 0 <= a < |tail| ensures UniqueNames(tail[a].incidents) {
      assert tail[a] == cats[a + 1];
    }
    forall a, e | 0 <= a < |tail| && e in tail[a].incidents ensures e.1 >= 1 {
      assert tail[a] == cats[a + 1];
    }
  }

  /** Every entry of the toolbox's table is found under its own category with its own points. */
  lemma LookupFindsEntry(a: nat, j: nat)
    requires a < |Penalties| && j < |Penalties[a].incidents|
    ensures Lookup(Penalties[a].name, Penalties[a].incidents[j].0) == Some(Penalties[a].incidents[j].1)
  {
    CatalogWellFormed();
    LookupInFindsEntry(Penalties, a, j);
  }

  /** Lookup by incident name alone is unambiguous: it yields `offense` iff the pair is in the table. */
  lemma CategoryOfAgreesWithLookup(offense: string, incident: string)
    ensures CategoryOf(incident) == Some(offense) <==> Lookup(offense, incident).Some?
  {
    CatalogWellFormed();
    FindCategoryAgreesWithLookup(Penalties, offense, incident);
  }

  /** A `(category, incident)` pair that the table lists. */
  predicate InCatalog(offense: string, incident: string) {
    Lookup(offense, incident).Some?
  }

  /** The points of a listed pair; every catalog entry is worth at least one point. */
  function Points(offense: string, incident: string): (r: int)
    requires InCatalog(offense, incident)
    ensures r >= 1
  {
    CatalogWellFormed();
    LookupInSound(Penalties, offense, incident);
    Lookup(offense, incident).value
  }
}
