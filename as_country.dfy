/**
 * `parseAS2CountryMap` of src/as2country.mjs: the country -> [AS] object
 * inverted into an AS -> country dictionary.
 */
module AsCountry {
  import opened JsObjects

  type Country = string
  type As = int

  /** `asbycountry`: each country's AS list, countries in `Object.keys` order. */
  type AsByCountry = JsMap<Country, seq<As>>

  /** Every key of the list has a stored list. */
  predicate Listed(m: AsByCountry) {
    forall i :: 0 <= i < |m.keys| ==> m.keys[i] in m.vals
  }

  /** `db` after the inner loop over `list` for `country`: every AS in the list now maps to the country. */
  function Assign(db: map<As, Country>, country: Country, list: seq<As>): (r: map<As, Country>)
    ensures forall a :: a in r <==> a in db || a in list
    ensures forall a :: a in list ==> r[a] == country
    ensures forall a :: a in db && a !in list ==> r[a] == db[a]
  {
    db + map a | a in list :: country
  }

  /** `db` after the outer loop has visited the first n countries. */
  function Inverted(m: AsByCountry, n: nat): map<As, Country>
    requires Listed(m) && n <= |m.keys|
  {
    if n == 0 then map[] else Assign(Inverted(m, n - 1), m.keys[n - 1], m.vals[m.keys[n - 1]])
  }

  /** The index, among the first n countries, of the last one whose list holds a; -1 when none does. */
  function LastListing(m: AsByCountry, a: As, n: nat): (i: int)
    requires Listed(m) && n <= |m.keys|
    ensures -1 <= i < n
    ensures i >= 0 ==> a in m.vals[m.keys[i]]
    ensures forall j :: i < j < n ==> a !in m.vals[m.keys[j]]
  {
    if n == 0 then -1
    else if a in m.vals[m.keys[n - 1]] then n - 1
    else LastListing(m, a, n - 1)
  }

  /** The nested loops of src/as2country.mjs:10-18; the input object is only read. */
  method ParseAs2CountryMap(abc: AsByCountry) returns (db: map<As, Country>)
    requires Listed(abc)
    ensures db == Inverted(abc, |abc.keys|)
  {
    db := map[];
    var i := 0;
    while i < |abc.keys|
      invariant 0 <= i <= |abc.keys|
      invariant db == Inverted(abc, i)
    {
      var country := abc.keys[i];
      var list := abc.vals[country];
      ghost var before := db;
      var j := 0;
      while j < |list|
        invariant 0 <= j <= |list|
        invariant db == Assign(before, country, list[..j])
      {
        AssignOne(before, country, list, j);
        db := db[list[j] := country];
        j := j + 1;
      }
      assert list[..|list|] == list;
      i := i + 1;
    }
  }

  /** One step of the inner loop. */
  lemma AssignOne(db: map<As, Country>, country: Country, list: seq<As>, j: nat)
    requires j < |list|
    ensures Assign(db, country, list[..j + 1]) == Assign(db, country, list[..j])[list[j] := country]
  {
    assert list[..j + 1] == list[..j] + [list[j]];
    assert forall a :: a in list[..j + 1] <==> a in list[..j] || a == list[j];
  }

  /**
   * After n countries: an AS is a key exactly when some list lists it, and
   * its country is the last country in key order whose list holds it.
   */
  lemma {:induction false} InvertedMeaning(m: AsByCountry, n: nat, a: As)
    requires Listed(m) && n <= |m.keys|
    ensures a in Inverted(m, n) <==> LastListing(m, a, n) >= 0
    ensures a in Inverted(m, n) ==> Inverted(m, n)[a] == m.keys[LastListing(m, a, n)]
  {
    if n > 0 {
      InvertedMeaning(m, n - 1, a);
    }
  }

  /**
   * The properties of the result: every listed AS is a key, no other key
   * appears, and each value is a country whose list contains the AS, the
   * last such country in key order.
   */
  lemma ParseMeaning(m: AsByCountry, a: As)
    requires Listed(m)
    ensures (a in Inverted(m, |m.keys|)) <==> exists i :: 0 <= i < |m.keys| && a in m.vals[m.keys[i]]
    ensures a in Inverted(m, |m.keys|) ==>
      var c := Inverted(m, |m.keys|)[a];
      && c in m.vals && a in m.vals[c]
      && (exists i :: 0 <= i < |m.keys| && m.keys[i] == c
            && (forall j :: i < j < |m.keys| ==> a !in m.vals[m.keys[j]]))
  {
    InvertedMeaning(m, |m.keys|, a);
  }
}
