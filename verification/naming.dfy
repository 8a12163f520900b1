/** Display-name resolution, `getCountryName` in CountryPicker.js: the
    translation key is the first truthy of the optional override, the
    `translation` prop and `'eng'`; the name is `name[key]` when that is a
    non-empty string, and otherwise `name.common`. */
module Naming {
  import opened Wrappers
  import opened Catalog

  /** JavaScript truthiness of a string-valued expression that may be `undefined`. */
  predicate Truthy(v: Option<string>) {
    v.Some? && v.value != ""
  }

  /** The property read `country.name[key]`. */
  function Lookup(names: Names, key: string): (r: Option<string>)
    ensures key == "common" ==> r == Some(names.common)
    ensures key != "common" ==> (r.Some? <==> key in names.localized)
    ensures r.Some? && key != "common" ==> r.value == names.localized[key]
  {
    if key == "common" then Some(names.common)
    else if key in names.localized then Some(names.localized[key])
    else None
  }

  /** `optionalTranslation || this.props.translation || 'eng'`. */
  function TranslationKey(optional: Option<string>, translation: Option<string>): (key: string)
    ensures key != ""
    ensures Truthy(optional) ==> key == optional.value
    ensures !Truthy(optional) && Truthy(translation) ==> key == translation.value
    ensures !Truthy(optional) && !Truthy(translation) ==> key == "eng"
  {
    if Truthy(optional) then optional.value
    else if Truthy(translation) then translation.value
    else "eng"
  }

  /** `getCountryName(country, optionalTranslation)` of a picker whose
      `translation` prop is `translation`. */
  function CountryName(country: Country, optional: Option<string>, translation: Option<string>): (r: string)
    ensures Truthy(Lookup(country.name, TranslationKey(optional, translation))) ==>
              r == Lookup(country.name, TranslationKey(optional, translation)).value
    ensures !Truthy(Lookup(country.name, TranslationKey(optional, translation))) ==> r == country.name.common
  {
    var localized := Lookup(country.name, TranslationKey(optional, translation));
    if Truthy(localized) then localized.value else country.name.common
  }

  /** Resolution never fails: the result is the common name or one of the
      entry's non-empty localized names, and it is empty only when the common
      name is. */
  lemma NameComesFromRecord(country: Country, optional: Option<string>, translation: Option<string>)
    ensures var r := CountryName(country, optional, translation);
            r == country.name.common || (r != "" && r in country.name.localized.Values)
    ensures CountryName(country, optional, translation) == "" ==> country.name.common == ""
  {
    var key := TranslationKey(optional, translation);
    if key != "common" && key in country.name.localized {
      assert country.name.localized[key] in country.name.localized.Values;
    }
  }

  /** The override, when given and translated, wins over the prop. */
  lemma OverrideWins(country: Country, key: string, translation: Option<string>)
    requires key != "" && key != "common"
    requires key in country.name.localized && country.name.localized[key] != ""
    ensures CountryName(country, Some(key), translation) == country.name.localized[key]
  {
  }

  /** A missing translation falls back to the common name, whatever the prop says. */
  lemma MissingTranslationFallsBack(country: Country, optional: Option<string>, translation: Option<string>)
    requires TranslationKey(optional, translation) !in country.name.localized
    ensures CountryName(country, optional, translation) == country.name.common
  {
  }

  /** A record `{eng: "France", common: "France"}` under the default key
      resolves to "France"; `{common: "Ivory Coast"}` falls back to its common name. */
  lemma ResolutionExamples()
    ensures CountryName(Country("33", "flag-fr", Names("France", map["eng" := "France"]), map[]), None, Some("eng")) == "France"
    ensures CountryName(Country("225", "flag-ci", Names("Ivory Coast", map[]), map[]), None, Some("eng")) == "Ivory Coast"
    ensures CountryName(Country("225", "flag-ci", Names("Ivory Coast", map[]), map[]), None, None) == "Ivory Coast"
  {
  }
}
