/** The module-level part of CountryPicker.js: the bundled country table is
    filtered once, at load time, down to the entries that have a calling code;
    the filtered object's key list is `cca2List`, and `getAllCountries`
    returns every kept entry with its own code attached. */
module Catalog {
  import opened JsObject

  /** The `name` object of a dataset entry: the mandatory `common` name and
      the localized names keyed by language code (`eng`, `fra`, ...). */
  datatype Names = Names(common: string, localized: map<string, string>)

  /** One dataset entry. `extra` holds the entry's remaining fields (such as
      its currency, or a `cca2` of its own), which the picker only copies. */
  datatype Country = Country(callingCode: string, flag: string, name: Names, extra: map<string, string>)

  /** `getAllCountries` entries: `{...country, cca2}`. */
  datatype Listed = Listed(country: Country, cca2: string)

  /** `if (country.callingCode)`: a string is truthy exactly when it is not empty. */
  predicate HasCallingCode(c: Country) {
    c.callingCode != ""
  }

  /** `k` is a dataset key among the first `n`, and its entry has a calling code. */
  ghost predicate KeptBefore(all: Obj<Country>, n: nat, k: string) {
    k in all.fields && OccursBelow(all.keys, k, n) && HasCallingCode(all.fields[k])
  }

  /** The `forEach` callback for dataset key `code`: copy the entry when it
      has a calling code. */
  function Visit(all: Obj<Country>, acc: Obj<Country>, code: string): (r: Obj<Country>)
    requires all.Valid() && acc.Valid() && code in all.fields
    ensures r.Valid()
  {
    if HasCallingCode(all.fields[code]) then acc.Put(code, all.fields[code]) else acc
  }

  /** What the loop guarantees after visiting the first `n` dataset keys. */
  ghost predicate FilteredUpTo(all: Obj<Country>, n: nat, acc: Obj<Country>) {
    && acc.Valid()
    && (forall k :: k in acc.fields <==> KeptBefore(all, n, k))
    && (forall k :: k in acc.fields ==> k in all.fields && acc.fields[k] == all.fields[k])
    && InSourceOrder(all.keys, acc.keys)
  }

  /** The first n keys are the first n - 1 keys plus the n-th. */
  lemma KeptBeforeStep(all: Obj<Country>, n: nat, k: string)
    requires all.Valid() && 0 < n <= |all.keys|
    ensures KeptBefore(all, n, k) <==>
              KeptBefore(all, n - 1, k) || (k == all.keys[n - 1] && HasCallingCode(all.fields[k]))
  {
    if k == all.keys[n - 1] {
      assert !OccursBelow(all.keys, k, n - 1);
    }
  }

  /** After the visit, the object holds exactly the kept codes among the first n keys. */
  lemma VisitMembership(all: Obj<Country>, n: nat, acc: Obj<Country>)
    requires all.Valid() && 0 < n <= |all.keys| && acc.Valid()
    requires forall k :: k in acc.fields <==> KeptBefore(all, n - 1, k)
    ensures forall k :: k in Visit(all, acc, all.keys[n - 1]).fields <==> KeptBefore(all, n, k)
  {
    forall k {
      KeptBeforeStep(all, n, k);
    }
  }

  /** The visit copies the n-th entry unchanged and leaves the others alone. */
  lemma VisitValues(all: Obj<Country>, n: nat, acc: Obj<Country>)
    requires all.Valid() && 0 < n <= |all.keys| && acc.Valid()
    requires forall k :: k in acc.fields ==> k in all.fields && acc.fields[k] == all.fields[k]
    ensures forall k :: k in Visit(all, acc, all.keys[n - 1]).fields ==>
              k in all.fields && Visit(all, acc, all.keys[n - 1]).fields[k] == all.fields[k]
  {
  }

  /** Every key kept so far occurs in the dataset only before position n - 1. */
  lemma KeptKeysPrecede(all: Obj<Country>, n: nat, acc: Obj<Country>)
    requires all.Valid() && 0 < n <= |all.keys| && acc.Valid()
    requires forall k :: k in acc.fields <==> KeptBefore(all, n - 1, k)
    ensures forall k :: k in acc.keys ==> OccursBelow(all.keys, k, n - 1)
  {
    forall k | k in acc.keys
      ensures OccursBelow(all.keys, k, n - 1)
    {
      assert k in acc.fields;
    }
  }

  /** The visit appends the n-th key when it has a calling code and keeps
      the key list otherwise. */
  lemma VisitKeys(all: Obj<Country>, n: nat, acc: Obj<Country>)
    requires all.Valid() && 0 < n <= |all.keys| && acc.Valid()
    requires forall k :: k in acc.keys ==> OccursBelow(all.keys, k, n - 1)
    ensures HasCallingCode(all.fields[all.keys[n - 1]]) ==>
              Visit(all, acc, all.keys[n - 1]).keys == acc.keys + [all.keys[n - 1]]
    ensures !HasCallingCode(all.fields[all.keys[n - 1]]) ==>
              Visit(all, acc, all.keys[n - 1]).keys == acc.keys
  {
    var code := all.keys[n - 1];
    assert !OccursBelow(all.keys, code, n - 1);
  }

  /** The visit keeps the key list in dataset order. */
  lemma VisitOrder(all: Obj<Country>, n: nat, acc: Obj<Country>)
    requires all.Valid() && 0 < n <= |all.keys| && acc.Valid()
    requires forall k :: k in acc.keys ==> OccursBelow(all.keys, k, n - 1)
    requires InSourceOrder(all.keys, acc.keys)
    ensures InSourceOrder(all.keys, Visit(all, acc, all.keys[n - 1]).keys)
  {
    VisitKeys(all, n, acc);
    var r := Visit(all, acc, all.keys[n - 1]);
    if HasCallingCode(all.fields[all.keys[n - 1]]) {
      AppendInSourceOrder(all.keys, acc.keys, n - 1, r.keys);
    } else {
      assert r.keys == acc.keys;
    }
  }

  /** Visiting the n-th key extends the guarantee from n - 1 keys to n. */
  lemma VisitExtends(all: Obj<Country>, n: nat, acc: Obj<Country>)
    requires all.Valid() && 0 < n <= |all.keys|
    requires FilteredUpTo(all, n - 1, acc)
    ensures FilteredUpTo(all, n, Visit(all, acc, all.keys[n - 1]))
  {
    VisitMembership(all, n, acc);
    VisitValues(all, n, acc);
    KeptKeysPrecede(all, n, acc);
    VisitOrder(all, n, acc);
  }

  /** The `countries` object after the `forEach` has visited the first `n`
      keys of the dataset. */
  function FilterPrefix(all: Obj<Country>, n: nat): (r: Obj<Country>)
    requires all.Valid() && n <= |all.keys|
    ensures FilteredUpTo(all, n, r)
  {
    if n == 0 then Empty()
    else
      var acc := FilterPrefix(all, n - 1);
      VisitExtends(all, n, acc);
      Visit(all, acc, all.keys[n - 1])
  }

  /** The `countries` object: the dataset without the entries lacking a calling code. */
  function Countries(all: Obj<Country>): (r: Obj<Country>)
    requires all.Valid()
    ensures FilteredUpTo(all, |all.keys|, r)
  {
    FilterPrefix(all, |all.keys|)
  }

  /** `cca2List = Object.keys(countries)`. */
  function Cca2List(all: Obj<Country>): (r: seq<string>)
    requires all.Valid()
    ensures Distinct(r)
  {
    Countries(all).keys
  }

  /** A code is in the catalog iff the dataset has it with a non-empty calling
      code, and a kept entry is the dataset's entry unchanged. */
  lemma CatalogMembership(all: Obj<Country>, k: string)
    requires all.Valid()
    ensures k in Countries(all).fields <==> k in all.fields && HasCallingCode(all.fields[k])
    ensures k in Countries(all).fields ==> Countries(all).fields[k] == all.fields[k]
  {
  }

  /** `cca2List` enumerates exactly the catalog's codes, each once, in the
      dataset's key order. */
  lemma Cca2ListIsCatalogOrder(all: Obj<Country>)
    requires all.Valid()
    ensures Distinct(Cca2List(all))
    ensures forall k :: k in Cca2List(all) <==> k in all.fields && HasCallingCode(all.fields[k])
    ensures InSourceOrder(all.keys, Cca2List(all))
  {
    forall k ensures k in Cca2List(all) <==> k in all.fields && HasCallingCode(all.fields[k]) {
      CatalogMembership(all, k);
    }
  }

  /** `countriesToReturn` after the `forEach` over `cca2List` has visited its
      first `n` codes. */
  function ListPrefix(cat: Obj<Country>, n: nat): (r: Obj<Listed>)
    requires cat.Valid() && n <= |cat.keys|
    ensures r.Valid()
    ensures r.keys == cat.keys[..n]
    ensures forall k :: k in r.fields ==> k in cat.fields && r.fields[k] == Listed(cat.fields[k], k)
  {
    if n == 0 then Empty()
    else
      var acc := ListPrefix(cat, n - 1);
      var code := cat.keys[n - 1];
      ListStep(cat, n, acc);
      acc.Put(code, Listed(cat.fields[code], code))
  }

  /** The code visited n-th is new to the object built from the codes before it. */
  lemma ListStep(cat: Obj<Country>, n: nat, acc: Obj<Listed>)
    requires cat.Valid() && 0 < n <= |cat.keys|
    requires acc.Valid() && acc.keys == cat.keys[..n - 1]
    ensures cat.keys[n - 1] !in acc.fields
    ensures cat.keys[..n] == acc.keys + [cat.keys[n - 1]]
  {
    assert cat.keys[n - 1] !in cat.keys[..n - 1];
  }

  /** `getAllCountries()` over the catalog `cat`. */
  function GetAllCountries(cat: Obj<Country>): (r: Obj<Listed>)
    requires cat.Valid()
    ensures r.Valid()
    ensures r.keys == cat.keys
    ensures forall k :: k in r.fields <==> k in cat.fields
    ensures forall k :: k in r.fields ==> r.fields[k].country == cat.fields[k] && r.fields[k].cca2 == k
  {
    assert cat.keys[..|cat.keys|] == cat.keys;
    ListPrefix(cat, |cat.keys|)
  }

  /** Over the dataset: `getAllCountries()` has the same keys as `cca2List`,
      each holding the kept dataset entry tagged with its own code. */
  lemma AllCountriesMatchesCca2List(all: Obj<Country>)
    requires all.Valid()
    ensures GetAllCountries(Countries(all)).keys == Cca2List(all)
    ensures forall k :: k in GetAllCountries(Countries(all)).fields <==> k in all.fields && HasCallingCode(all.fields[k])
    ensures forall k :: k in GetAllCountries(Countries(all)).fields ==>
              GetAllCountries(Countries(all)).fields[k] == Listed(all.fields[k], k)
  {
    forall k {
      CatalogMembership(all, k);
    }
  }
}
