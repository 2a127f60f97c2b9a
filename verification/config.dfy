/** The fixed tables the pipeline is configured with. */
module Config {

  /** Municipalities whose stations are no longer active, upper-cased. */
  const ComuniEsclusi: seq<string> := ["GALLARATE", "LONATE POZZOLO", "SOMMA LOMBARDO"]

  /** Sensor-type substrings and the pollutant code each normalises to, in
      declared order: the first key contained in a sensor type decides. */
  const InquinantiNormalizzati: seq<(string, string)> := [
    ("PM10", "PM10"),
    ("PM2.5", "PM2.5"),
    ("Particelle sospese PM2.5", "PM2.5"),
    ("Biossido di Azoto", "NO2"),
    ("Ossidi di Azoto", "NO2")
  ]

  /** Display names given directly for these municipalities; each agrees
      with what the title-case fallback would produce
      (`Stations.NomiComuniCoerenti`). */
  const NomiComuni: map<string, string> := map[
    "VARESE" := "Varese",
    "BUSTO ARSIZIO" := "Busto Arsizio",
    "SARONNO" := "Saronno",
    "FERNO" := "Ferno"
  ]

  /** Unit reported for a sensor whose record has none. */
  const UnitaPredefinita: string := "\U{B5}g/m\U{B3}"

  /** The pollutant whose exceedance days are counted. */
  const InquinanteSoglia: string := "PM10"

  /** A day exceeds when its mean is strictly above this value. */
  const SogliaPm10: real := 50.0

  /** Width of the `YYYY-MM-DD` date prefix of a timestamp. */
  const LunghezzaData: nat := 10
}
