/**
 * The per-country reforestation potential table that both the tree
 * allocator and the CO2 absorption step read: a record keyed by ISO
 * country code, together with the order in which its keys are enumerated.
 */
module ForestationPotentials {

  /** One country's potential: CO2 it can absorb (t CO2e) and area it can take (ha). */
  datatype Potential = Potential(tco2e: real, ha: real)

  /**
   * A record keyed by ISO code. `keys` is the enumeration order of the record
   * (the order in which its keys and values are visited); `at` holds the entries.
   */
  datatype Potentials = Potentials(keys: seq<string>, at: map<string, Potential>)
  {
    /** Every key is enumerated exactly once, and only keys of the record are. */
    ghost predicate Valid() {
      && Distinct(keys)
      && Known(keys, at)
      && (forall iso :: iso in at ==> iso in keys)
    }

    /** Every country has a strictly positive plantable area. */
    predicate PositiveAreas() {
      forall iso :: iso in at ==> at[iso].ha > 0.0
    }
  }

  predicate Distinct(s: seq<string>) {
    forall i, j :: 0 <= i < j < |s| ==> s[i] != s[j]
  }

  /** Every code of `s` has an entry in `at`. */
  predicate Known(s: seq<string>, at: map<string, Potential>) {
    forall i :: 0 <= i < |s| ==> s[i] in at
  }

  function Min(a: real, b: real): real { if a <= b then a else b }

  /** Sum of the plantable areas of the first `n` codes of `keys`, accumulated from the first on. */
  function SumHa(keys: seq<string>, n: nat, at: map<string, Potential>): (total: real)
    requires n <= |keys| && Known(keys, at)
    ensures (forall i :: 0 <= i < n ==> at[keys[i]].ha > 0.0) ==>
              0.0 <= total && (n > 0 ==> 0.0 < total)
  {
    if n == 0 then 0.0 else SumHa(keys, n - 1, at) + at[keys[n - 1]].ha
  }

  /** Sum of the absorption capacities of the first `n` codes of `keys`. */
  function SumTco2e(keys: seq<string>, n: nat, at: map<string, Potential>): (total: real)
    requires n <= |keys| && Known(keys, at)
    ensures (forall i :: 0 <= i < n ==> at[keys[i]].tco2e >= 0.0) ==> 0.0 <= total
  {
    if n == 0 then 0.0 else SumTco2e(keys, n - 1, at) + at[keys[n - 1]].tco2e
  }
}
