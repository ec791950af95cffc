/** The default-value policy of utils/dez_parser.py: the `DEFAULTS` table and
    `resolve_defaults`, which picks a triple by column name or by datatype. */
module Defaults {
  import opened Text

  /** "Default Values", "Default Records" and "Default Records (2)". */
  datatype Triple = Triple(value: string, record1: string, record2: string)

  const StartOfTime: string := "\"1900-01-01 00:00:00.0000\""
  const EndOfTime: string := "\"9999-12-31 23:59:59.9999\""

  /** The fallback for an unknown key: all three slots empty. */
  const NoDefaults: Triple := Triple("", "", "")

  const DEFAULTS: map<string, Triple> := map[
    "TIMESTAMP-Start" := Triple(StartOfTime, StartOfTime, StartOfTime),
    "TIMESTAMP-End" := Triple(EndOfTime, EndOfTime, EndOfTime),
    "TIMESTAMP" := Triple(StartOfTime, StartOfTime, EndOfTime),
    "DATETIME" := Triple(StartOfTime, StartOfTime, EndOfTime),
    "DATE" := Triple("\"1900-01-01\"", "\"1900-01-01\"", "\"9999-12-31\""),
    "INT64" := Triple("-1", "-1", "-2"),
    "STRING" := Triple("\"\"", "\"\"", "\"\""),
    "BOOL" := Triple("NULL", "NULL", "NULL"),
    "NUMERIC" := Triple("0", "0", "0"),
    "FLOAT64" := Triple("\"0.0\"", "\"0.0\"", "\"0.0\"")
  ]

  /** Every entry of the table fills all three slots. */
  lemma DefaultsNonEmpty(k: string)
    requires k in DEFAULTS
    ensures DEFAULTS[k].value != "" && DEFAULTS[k].record1 != "" && DEFAULTS[k].record2 != ""
  {
  }

  /** `resolve_defaults(col_name, dtype)`.
      A column whose lower-cased name contains "effective_start" gets the start-of-time
      triple whatever its datatype, and that test is made before the "effective_end" one;
      otherwise the upper-cased datatype is looked up, an unknown type giving three empty
      strings. */
  function ResolveDefaults(colName: string, dtype: string): (r: Triple)
    ensures IsInfix("effective_start", Lower(colName)) ==>
              r == Triple(StartOfTime, StartOfTime, StartOfTime)
    ensures !IsInfix("effective_start", Lower(colName)) && IsInfix("effective_end", Lower(colName)) ==>
              r == Triple(EndOfTime, EndOfTime, EndOfTime)
    ensures !IsInfix("effective_start", Lower(colName)) && !IsInfix("effective_end", Lower(colName)) ==>
              (Upper(dtype) in DEFAULTS ==> r == DEFAULTS[Upper(dtype)]) &&
              (Upper(dtype) !in DEFAULTS ==> r == NoDefaults)
    ensures r == NoDefaults || (r.value != "" && r.record1 != "" && r.record2 != "")
  {
    var lower := Lower(colName);
    var key :=
      if IsInfix("effective_start", lower) then "TIMESTAMP-Start"
      else if IsInfix("effective_end", lower) then "TIMESTAMP-End"
      else Upper(dtype);
    if key in DEFAULTS then DEFAULTS[key] else NoDefaults
  }

  /** The datatype is looked up without regard to case: `int64` resolves like `INT64`. */
  lemma {:induction false} ResolveDefaultsIgnoresTypeCase(colName: string, dtype: string)
    ensures ResolveDefaults(colName, dtype) == ResolveDefaults(colName, Upper(dtype))
  {
    assert Upper(Upper(dtype)) == Upper(dtype);
  }

  /** A column named `balance` of datatype INT64 resolves to ("-1", "-1", "-2"). */
  lemma ResolveDefaultsInt64()
    ensures ResolveDefaults("balance", "INT64") == Triple("-1", "-1", "-2")
  {
    assert !IsInfix("effective_start", Lower("balance"));
    assert !IsInfix("effective_end", Lower("balance"));
    assert Upper("INT64") == "INT64";
  }

  /** A datatype the table does not know, such as GEOGRAPHY, resolves to three empty
      strings. */
  lemma ResolveDefaultsUnknownType()
    ensures ResolveDefaults("balance", "geography") == NoDefaults
  {
    assert !IsInfix("effective_start", Lower("balance"));
    assert !IsInfix("effective_end", Lower("balance"));
    assert Upper("geography") == "GEOGRAPHY";
  }

  /** An effective-start column resolves to the start of time whatever its datatype. */
  lemma ResolveDefaultsEffectiveStart()
    ensures ResolveDefaults("effective_start_utc_timestamp", "INT64")
              == Triple(StartOfTime, StartOfTime, StartOfTime)
  {
    assert Lower("effective_start_utc_timestamp") == "effective_start_utc_timestamp";
    assert StartsWith("effective_start_utc_timestamp", "effective_start");
  }
}
