/**
 * The result hash both extensions build for one record: `min`, `max`,
 * `mean`, `median`, `q1`, `q3` and `standard_deviation`, inserted in that
 * order. A hash is its list of (key, value) entries in insertion order, which
 * is the order Ruby enumerates it in; a key stands for the symbol of that name.
 */
module Hashes {
  import opened Base
  import opened Statistics

  /** A result hash: symbol name to Float, in insertion order. */
  type Hash = seq<(string, real)>

  /** The keys `build_results_hashes` inserts, in the order it inserts them. */
  const StatKeys: seq<string> := ["min", "max", "mean", "median", "q1", "q3", "standard_deviation"]

  /**
   * The hash of one record. The `standard_deviation` entry carries the
   * record's variance: the square root is not part of this model.
   */
  function ResultHash(s: Stats): (h: Hash)
    ensures |h| == |StatKeys| && forall i :: 0 <= i < |h| ==> h[i].0 == StatKeys[i]
  {
    [("min", s.min), ("max", s.max), ("mean", s.mean), ("median", s.median),
     ("q1", s.q1), ("q3", s.q3), ("standard_deviation", s.variance)]
  }

  /** `hash[key]`: the value of the first entry with that key, or nil. */
  function Lookup(h: Hash, key: string): Option<real> {
    if h == [] then None
    else if h[0].0 == key then Some(h[0].1)
    else Lookup(h[1..], key)
  }

  /** Reads a record back out of a hash; nil when one of the seven keys is missing. */
  function HashStats(h: Hash): Option<Stats> {
    match (Lookup(h, "min"), Lookup(h, "max"), Lookup(h, "mean"), Lookup(h, "median"),
           Lookup(h, "q1"), Lookup(h, "q3"), Lookup(h, "standard_deviation"))
    case (Some(min), Some(max), Some(mean), Some(median), Some(q1), Some(q3), Some(sd)) =>
      Some(Stats(min, max, mean, median, q1, q3, sd))
    case _ => None
  }

  /** The first entry with a key decides what the hash holds for it. */
  lemma {:induction false} LookupFirst(h: Hash, key: string, i: nat)
    requires i < |h| && h[i].0 == key && forall j :: 0 <= j < i ==> h[j].0 != key
    ensures Lookup(h, key) == Some(h[i].1)
  {
    if i > 0 {
      LookupFirst(h[1..], key, i - 1);
    }
  }

  /** No key appears twice. */
  lemma KeysDistinct(i: nat)
    requires i < |StatKeys|
    ensures forall j :: 0 <= j < i ==> StatKeys[j] != StatKeys[i]
  {
    forall j | 0 <= j < i
      ensures StatKeys[j] != StatKeys[i]
    {
      assert StatKeys[j][0] != StatKeys[i][0] || StatKeys[j][1] != StatKeys[i][1] || |StatKeys[j]| != |StatKeys[i]|;
    }
  }

  /** Looking up key `i` of a record's hash gives entry `i`. */
  lemma LookupKey(s: Stats, i: nat)
    requires i < |StatKeys|
    ensures Lookup(ResultHash(s), StatKeys[i]) == Some(ResultHash(s)[i].1)
  {
    KeysDistinct(i);
    LookupFirst(ResultHash(s), StatKeys[i], i);
  }

  /** Every field of the record is stored under its own key, and nothing is lost. */
  lemma HashRoundTrip(s: Stats)
    ensures HashStats(ResultHash(s)) == Some(s)
  {
    LookupKey(s, 0);
    LookupKey(s, 1);
    LookupKey(s, 2);
    LookupKey(s, 3);
    LookupKey(s, 4);
    LookupKey(s, 5);
    LookupKey(s, 6);
  }

  /** Different records give different hashes. */
  lemma ResultHashInjective(s: Stats, t: Stats)
    requires ResultHash(s) == ResultHash(t)
    ensures s == t
  {
    HashRoundTrip(s);
    HashRoundTrip(t);
  }
}
