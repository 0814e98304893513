/** A `Record<string, number>` of counts, as the list page builds it and
    the team filter reads it: an association list in insertion order. */
module CountRecord {
  import opened Wrappers

  type Counts = seq<(string, nat)>

  /** `Object.keys(counts)`, in insertion order. */
  function Keys(counts: Counts): (ks: seq<string>)
    ensures |ks| == |counts| && forall i | 0 <= i < |counts| :: ks[i] == counts[i].0
  {
    seq(|counts|, i requires 0 <= i < |counts| => counts[i].0)
  }

  /** The position of the first occurrence of `key` in `ks`, or -1. */
  function IndexOf(ks: seq<string>, key: string): (i: int)
    ensures -1 <= i < |ks|
    ensures i >= 0 ==> ks[i] == key && forall j | 0 <= j < i :: ks[j] != key
    ensures i < 0 <==> key !in ks
  {
    if ks == [] then -1
    else if ks[0] == key then 0
    else
      var j := IndexOf(ks[1..], key);
      assert ks == [ks[0]] + ks[1..];
      if j < 0 then -1 else j + 1
  }

  /** `counts[key] || 0`. */
  function CountOf(counts: Counts, key: string): nat {
    var i := IndexOf(Keys(counts), key);
    if i < 0 then 0 else counts[i].1
  }

  /** `counts[key] = (counts[key] || 0) + 1`: a new key goes to the end. */
  function Increment(counts: Counts, key: string): Counts {
    var i := IndexOf(Keys(counts), key);
    if i < 0 then counts + [(key, 1)] else counts[i := (key, counts[i].1 + 1)]
  }

  /** `Object.values(counts).reduce((sum, count) => sum + count, 0)`. */
  function Sum(counts: Counts): nat {
    if counts == [] then 0 else Sum(counts[..|counts| - 1]) + counts[|counts| - 1].1
  }

  /** The counts after counting `keys` one by one into an empty record. */
  function Tally(keys: seq<string>): Counts {
    if keys == [] then [] else Increment(Tally(keys[..|keys| - 1]), keys[|keys| - 1])
  }

  lemma {:induction false} SumUpdate(counts: Counts, i: int, key: string)
    requires 0 <= i < |counts|
    ensures Sum(counts[i := (key, counts[i].1 + 1)]) == Sum(counts) + 1
  {
    var updated := counts[i := (key, counts[i].1 + 1)];
    var n := |counts|;
    if i < n - 1 {
      assert updated[..n - 1] == counts[..n - 1][i := (key, counts[i].1 + 1)];
      SumUpdate(counts[..n - 1], i, key);
    } else {
      assert updated[..n - 1] == counts[..n - 1];
    }
  }

  /** One increment adds `key` at the end if it is new, adds one to its
      count and to the total, and leaves every other count alone. */
  lemma IncrementEffect(counts: Counts, key: string)
    ensures Keys(Increment(counts, key)) == if key in Keys(counts) then Keys(counts) else Keys(counts) + [key]
    ensures forall t :: CountOf(Increment(counts, key), t) == CountOf(counts, t) + (if t == key then 1 else 0)
    ensures Sum(Increment(counts, key)) == Sum(counts) + 1
  {
    var ks := Keys(counts);
    var i := IndexOf(ks, key);
    var updated := Increment(counts, key);
    if i < 0 {
      assert updated[..|updated| - 1] == counts;
      forall t ensures CountOf(updated, t) == CountOf(counts, t) + (if t == key then 1 else 0) {
        assert Keys(updated) == ks + [key];
        var j := IndexOf(ks, t);
        if t != key {
          if j >= 0 {
            assert IndexOf(ks + [key], t) == j;
          } else {
            assert t !in ks + [key];
          }
        } else {
          assert IndexOf(ks + [key], t) == |ks|;
        }
      }
    } else {
      assert Keys(updated) == ks;
      SumUpdate(counts, i, key);
    }
  }

  /** Counting `keys` records each distinct key once, in the order of its
      first occurrence, with the number of times it occurs, and the counts
      add up to the number of keys. */
  lemma {:induction false} TallyMeaning(keys: seq<string>)
    ensures Keys(Tally(keys)) == Distinct(keys)
    ensures forall t :: CountOf(Tally(keys), t) == multiset(keys)[t]
    ensures Sum(Tally(keys)) == |keys|
  {
    if keys != [] {
      var prefix, last := keys[..|keys| - 1], keys[|keys| - 1];
      assert keys == prefix + [last];
      TallyMeaning(prefix);
      IncrementEffect(Tally(prefix), last);
    }
  }
}
