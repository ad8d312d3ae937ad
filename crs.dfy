/**
 * Coordinate reference systems as far as the core inspects them.
 * A CRS is parsed by pyproj from user input (a CRS object or a textual
 * identifier such as "EPSG:3857"); the parser itself is foreign, so the
 * operations that need it take it as a function parameter.
 */
module CrsModel {
  import opened Wrappers

  /**
   * `name` stands for the identity pyproj compares; `axisUnits` is
   * `crs.axis_info` (None when pyproj reports no axis information), one
   * optional unit name per axis.
   */
  datatype Crs = Crs(name: string, isProjected: bool, axisUnits: Option<seq<Option<string>>>)

  /** What the entry points accept: `CRS | str`. */
  datatype CrsInput = Text(id: string) | Object(crs: Crs)

  /** `CRS.from_user_input`, supplied by the caller: None where pyproj raises CRSError. */
  type Parser = CrsInput -> Option<Crs>
}
