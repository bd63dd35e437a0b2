/** Locale codes: the request's locale enum, the set of codes a request
    asks for, and the filter that restricts a name map to that set. */
module Locales {
  import opened Wrappers

  /** The locales a lookup request may ask for (`Message_Locale`). */
  datatype Locale =
    | BrazilianPortuguese
    | English
    | French
    | German
    | Japanese
    | Russian
    | SimplifiedChinese
    | Spanish

  /** The locale code the database uses as the key of a localized name.
      Its partner is the inverse table `FromCode`, which recognises the
      code and maps it back to this locale. */
  function ToCode(l: Locale): (r: string)
    ensures FromCode(r) == Some(l)
  {
    match l
    case BrazilianPortuguese => "pt-BR"
    case English => "en"
    case French => "fr"
    case German => "de"
    case Japanese => "ja"
    case Russian => "ru"
    case SimplifiedChinese => "zh-CN"
    case Spanish => "es"
  }

  /** The inverse table: which locale, if any, a code stands for. */
  function FromCode(code: string): Option<Locale>
  {
    if code == "pt-BR" then Some(BrazilianPortuguese)
    else if code == "en" then Some(English)
    else if code == "fr" then Some(French)
    else if code == "de" then Some(German)
    else if code == "ja" then Some(Japanese)
    else if code == "ru" then Some(Russian)
    else if code == "zh-CN" then Some(SimplifiedChinese)
    else if code == "es" then Some(Spanish)
    else None
  }

  /** The inverse table recognises only the eight codes of the table, each
      for the locale that has it. */
  lemma FromCodeOnlyTableCodes(code: string)
    ensures FromCode(code).Some? ==> ToCode(FromCode(code).value) == code
  {
  }

  /** No two locales share a code. */
  lemma CodesAreDistinct(a: Locale, b: Locale)
    ensures ToCode(a) == ToCode(b) <==> a == b
  {
  }

  /** The set of codes a request's locale list asks for; duplicates
      collapse and order is forgotten. */
  function RequestedCodes(locales: seq<Locale>): (r: set<string>)
    ensures forall l :: l in locales ==> ToCode(l) in r
    ensures forall c :: c in r ==> FromCode(c).Some? && FromCode(c).value in locales && ToCode(FromCode(c).value) == c
    ensures r == {} <==> |locales| == 0
  {
    if |locales| == 0 then {}
    else
      {ToCode(locales[0])} + RequestedCodes(locales[1..])
  }

  /** Whether a name under `code` is kept: an empty filter keeps every
      locale, a non-empty one keeps exactly the codes it holds. */
  predicate Keeps(filter: set<string>, code: string)
  {
    filter == {} || code in filter
  }

  /** The names map restricted to the requested locales. */
  function FilterLocales(names: map<string, string>, filter: set<string>): (r: map<string, string>)
    ensures filter == {} ==> r == names
    ensures filter != {} ==> r.Keys == names.Keys * filter
    ensures forall k :: k in r ==> r[k] == names[k]
  {
    map k | k in names && Keeps(filter, k) :: names[k]
  }

  /** The filter as the source computes it: one pass over the entries of
      the names map, inserting each kept entry into an initially empty
      map. */
  method FilterLocalesByInsertion(names: map<string, string>, filter: set<string>)
    returns (h: map<string, string>)
    ensures h == FilterLocales(names, filter)
  {
    h := map[];
    var rest := names.Keys;
    while rest != {}
      invariant rest <= names.Keys
      invariant forall k :: k in h ==> k in names && k !in rest && Keeps(filter, k) && h[k] == names[k]
      invariant forall k :: k in names && k !in rest && Keeps(filter, k) ==> k in h
      decreases rest
    {
      var k :| k in rest;
      if filter == {} || k in filter {
        h := h[k := names[k]];
      }
      rest := rest - {k};
    }
  }

  /** Requested locales missing from the map are dropped, never
      manufactured: a non-empty filter disjoint from the keys leaves
      nothing. */
  lemma DisjointFilterYieldsEmpty(names: map<string, string>, filter: set<string>)
    requires filter != {}
    requires filter !! names.Keys
    ensures FilterLocales(names, filter) == map[]
  {
  }

  /** Filtering twice with the same set filters once. */
  lemma FilterIdempotent(names: map<string, string>, filter: set<string>)
    ensures FilterLocales(FilterLocales(names, filter), filter) == FilterLocales(names, filter)
  {
  }

  /** Filtering first by `a` and then by a non-empty `b` keeps the names
      both admit. */
  lemma FilterCompose(names: map<string, string>, a: set<string>, b: set<string>)
    requires b != {}
    ensures FilterLocales(FilterLocales(names, a), b) == FilterLocales(FilterLocales(names, b), a)
  {
  }

  /** The worked example: a city named in English and Japanese. */
  lemma FilterExample()
    ensures var names := map["en" := "Testville", "ja" := "\U{30C6}\U{30B9}\U{30C8}\U{5E02}"];
      && FilterLocales(names, {"ja"}) == map["ja" := "\U{30C6}\U{30B9}\U{30C8}\U{5E02}"]
      && FilterLocales(names, {}) == names
      && FilterLocales(names, {"fr"}) == map[]
  {
    var names := map["en" := "Testville", "ja" := "\U{30C6}\U{30B9}\U{30C8}\U{5E02}"];
    assert FilterLocales(names, {"ja"}).Keys == {"ja"};
    assert FilterLocales(names, {"fr"}).Keys == {};
  }
}
