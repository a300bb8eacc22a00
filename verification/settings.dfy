/** The parser settings (`ICommandLineSettings` / `Settings`) and the
    string comparison they select. */
module Settings {
  import opened Text

  /** `System.StringComparison`. */
  datatype Comparison =
    | CurrentCulture
    | CurrentCultureIgnoreCase
    | InvariantCulture
    | InvariantCultureIgnoreCase
    | Ordinal
    | OrdinalIgnoreCase

  /** The three case-insensitive comparison modes. */
  predicate IgnoreCase(c: Comparison) {
    c.CurrentCultureIgnoreCase? || c.InvariantCultureIgnoreCase? || c.OrdinalIgnoreCase?
  }

  /** `string.Equals(a, b, c)` on two non-null strings; the culture-aware
      modes are modelled by their ordinal counterparts. */
  predicate Same(c: Comparison, a: string, b: string) {
    if IgnoreCase(c) then Lower(a) == Lower(b) else a == b
  }

  datatype Settings = Settings(
    caseMatching: Comparison,
    /** Tried in order; a longer prefix must precede its own prefixes. */
    switchPrefixes: seq<string>,
    switchSeparators: seq<string>,
    noPrefix: string,
    requireAttributes: bool)

  /** The values a fresh `Settings` object carries. */
  const Defaults := Settings(CurrentCultureIgnoreCase, ["--", "-", "/"], [":", "="], "no-", false)

  /** Under the default settings lookups ignore case, tags are optional and
      the separators are the non-empty strings ":" and "=". */
  lemma DefaultsShape()
    ensures IgnoreCase(Defaults.caseMatching) && !Defaults.requireAttributes
    ensures Defaults.switchPrefixes[0] == "--" && Defaults.switchPrefixes[1] == "-"
    ensures forall k :: 0 <= k < |Defaults.switchSeparators| ==> |Defaults.switchSeparators[k]| == 1
    ensures Defaults.noPrefix == "no-"
  {
  }

  /** Equality under any comparison mode is symmetric, and an ignore-case
      comparison accepts every pair an ordinal one accepts. */
  lemma SameProperties(c: Comparison, a: string, b: string)
    ensures Same(c, a, b) <==> Same(c, b, a)
    ensures a == b ==> Same(c, a, b)
    ensures !IgnoreCase(c) ==> (Same(c, a, b) <==> a == b)
  {
  }
}
