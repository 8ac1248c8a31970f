/** The process-wide constants of the service: the default list of output
    property codes and the unit hint of each code. */
module Catalog {

  /** Evaluated when a request leaves `outputs` out or sends it empty. */
  const DefaultOutputs: seq<string> := [
    "T", "P", "H", "S", "D", "Q",
    "CPMASS", "CVMASS", "UMASS",
    "V", "L", "CONDUCTIVITY", "PRANDTL", "SURFACE_TENSION",
    "Z", "A",
    "ISENTROPIC_EXPONENT",
    "DPDT", "DVDT", "DPDRHO", "DHDP", "DHDT", "DSDT", "DSDP"
  ]

  /** Approximate SI unit of each output code, returned whole as `units_hint`. */
  const UnitsMap: map<string, string> := map[
    "T" := "K",
    "P" := "Pa",
    "H" := "J/kg",
    "S" := "J/kg/K",
    "D" := "kg/m3",
    "Q" := "-",
    "CPMASS" := "J/kg/K",
    "CVMASS" := "J/kg/K",
    "UMASS" := "J/kg",
    "V" := "Pa*s",
    "L" := "W/m/K",
    "CONDUCTIVITY" := "W/m/K",
    "PRANDTL" := "-",
    "SURFACE_TENSION" := "N/m",
    "Z" := "-",
    "A" := "m/s",
    "ISENTROPIC_EXPONENT" := "-",
    "DPDT" := "Pa/K",
    "DVDT" := "m3/kg/K",
    "DPDRHO" := "Pa/(kg/m3)",
    "DHDP" := "(J/kg)/Pa",
    "DHDT" := "J/kg/K",
    "DSDT" := "J/kg/K^2",
    "DSDP" := "(J/kg/K)/Pa"
  ]

  /** The catalog is consistent: 24 distinct default codes, each with a unit,
      and no unit for a code outside the defaults. The quality code "Q" is
      among the defaults. */
  lemma CatalogConsistent()
    ensures |DefaultOutputs| == 24
    ensures forall i, j :: 0 <= i < j < |DefaultOutputs| ==> DefaultOutputs[i] != DefaultOutputs[j]
    ensures forall c :: c in DefaultOutputs ==> c in UnitsMap
    ensures UnitsMap.Keys == set c | c in DefaultOutputs
    ensures "Q" in DefaultOutputs
  {
  }
}
