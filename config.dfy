/**
 * The static configuration shared by all stages (column names only; the
 * directory layout and file-name suffixes belong to the file I/O, which is
 * not modelled).
 */
module Config {

  /** The binary label column. */
  const TARGET_COL: string := "Target"

  /** A column whose name starts with one of these is a domain-signal candidate feature. */
  const CANDIDATE_FEATURE_PREFIXES: seq<string> := ["Feature", "Signal", "Metric"]

  /** A column whose name ends with this is a lag-derived candidate feature. */
  const LAG_SUFFIX: string := "Lag1"

  /** The columns eligible for min-max normalisation, in priority order. */
  const NORMALIZE_COLS: seq<string> := [
    "FeatureA", "FeatureA" + LAG_SUFFIX,
    "FeatureB", "FeatureB" + LAG_SUFFIX,
    "FeatureC", "FeatureC" + LAG_SUFFIX,
    "SignalX", "SignalX" + LAG_SUFFIX
  ]

  /** Columns that are never model inputs. */
  const EXCLUDE_FEATURES: seq<string> := ["Date", "Open", "High", "Low", "Close", "Volume", TARGET_COL]
}
