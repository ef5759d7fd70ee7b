/** The validation catalog: functionality points, checks and the dependency graph between points. */
module Catalog {
  import opened Graph

  datatype Point = Point(id: Id, paths: seq<string>, checks: seq<Id>, dependsOn: seq<Id>)
  datatype Check = Check(id: Id, profiles: seq<string>)
  datatype Catalog = Catalog(profiles: seq<string>, alwaysChecks: seq<Id>, checks: seq<Check>, points: seq<Point>)

  predicate Known(catalog: Catalog, id: Id) {
    exists point :: point in catalog.points && point.id == id
  }

  function KnownIds(catalog: Catalog): set<Id> {
    set point | point in catalog.points :: point.id
  }

  /** The pairs (consumer, provider) such that a point lists the provider among its dependencies. */
  ghost function Edges(catalog: Catalog): set<(Id, Id)> {
    set point, dependency | point in catalog.points && dependency in point.dependsOn :: (point.id, dependency)
  }

  /** The part of a clean catalog that impact selection relies on: identifiers are unique, dependencies exist. */
  ghost predicate LintClean(catalog: Catalog) {
    (forall i, j :: 0 <= i < j < |catalog.points| ==> catalog.points[i].id != catalog.points[j].id) &&
    forall point, dependency :: point in catalog.points && dependency in point.dependsOn ==> Known(catalog, dependency)
  }
}
