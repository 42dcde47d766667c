/** The choice of the geometry column a layer is transferred with. The
    environment variable `VERSIONING_GEOMETRY_COLUMN` is a parameter. */
module Geometry {
  import opened Common

  /** `pg_geom`: the geometry column of a table, given the geometry columns
      the catalogue lists for it and the override from the environment. */
  function PgGeom(geoms: seq<string>, override: Option<string>): (r: Result<string>)
    ensures geoms == [] ==> r == Ok("")
    ensures |geoms| == 1 ==> r == Ok(geoms[0])
    ensures |geoms| > 1 && override.Some? ==>
      (override.value in geoms ==> r == Ok(override.value)) &&
      (override.value !in geoms ==> r == Err(GeometryOverrideAbsent))
    ensures |geoms| > 1 && override.None? ==>
      ("geometry" in geoms ==> r == Ok("geometry")) &&
      ("geometry" !in geoms ==> r == Err(GeometryAmbiguous))
  {
    if geoms == [] then Ok("")
    else if |geoms| == 1 then Ok(geoms[0])
    else if override.Some? then
      if override.value in geoms then Ok(override.value) else Err(GeometryOverrideAbsent)
    else if "geometry" in geoms then Ok("geometry")
    else Err(GeometryAmbiguous)
  }

  /** Whatever the inputs, a chosen column is one of the table's geometry
      columns, the empty name stands for "no geometry", and the choice fails
      only for a table with several geometry columns. */
  lemma PgGeomChoosesListedColumn(geoms: seq<string>, override: Option<string>)
    ensures PgGeom(geoms, override).Ok? && PgGeom(geoms, override).value != "" ==>
      PgGeom(geoms, override).value in geoms
    ensures PgGeom(geoms, override) == Ok("") ==> geoms == [] || "" in geoms
    ensures PgGeom(geoms, override).Err? ==> |geoms| > 1
  {
  }
}
