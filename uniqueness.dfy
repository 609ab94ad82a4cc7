/**
 * Duplicate detection as both analyzers perform it with a `HashSet`: the keys
 * are scanned left to right, each is inserted, and a key whose insertion finds
 * it already present is reported. The first occurrence of a key is accepted;
 * every later one is reported.
 */
module Uniqueness {

  /** The repeated occurrences in `keys`, in order: each key equal to an earlier one. */
  function Repeats<K(==)>(keys: seq<K>): seq<K>
    decreases |keys|
  {
    if |keys| == 0 then []
    else
      var init := keys[..|keys| - 1];
      Repeats(init) + (if keys[|keys| - 1] in init then [keys[|keys| - 1]] else [])
  }

  /** No key occurs twice. */
  predicate Distinct<K(==)>(keys: seq<K>) {
    forall i, j :: 0 <= i < j < |keys| ==> keys[i] != keys[j]
  }

  /** The keys inserted so far, each once. */
  function KeySet<K>(keys: seq<K>): set<K>
    decreases |keys|
  {
    if |keys| == 0 then {} else KeySet(keys[..|keys| - 1]) + {keys[|keys| - 1]}
  }

  /** The set holds exactly the keys of the sequence. */
  lemma {:induction false} KeySetMember<K>(keys: seq<K>, k: K)
    ensures k in KeySet(keys) <==> k in keys
    decreases |keys|
  {
    if |keys| > 0 {
      KeySetMember(keys[..|keys| - 1], k);
      LastSplit(keys);
    }
  }

  lemma KeySetSnoc<K>(keys: seq<K>, k: K)
    ensures KeySet(keys + [k]) == KeySet(keys) + {k}
  {
    assert (keys + [k])[..|keys|] == keys;
  }

  /** Applies `f` to every element, keeping the order. */
  function Map<K, E>(f: K -> E, ks: seq<K>): (r: seq<E>)
    ensures |r| == |ks| && forall i :: 0 <= i < |ks| ==> r[i] == f(ks[i])
  {
    seq(|ks|, i requires 0 <= i < |ks| => f(ks[i]))
  }

  lemma MapAppend<K, E>(f: K -> E, a: seq<K>, b: seq<K>)
    ensures Map(f, a + b) == Map(f, a) + Map(f, b)
  {
  }

  lemma LastSplit<K>(keys: seq<K>)
    requires |keys| > 0
    ensures keys == keys[..|keys| - 1] + [keys[|keys| - 1]]
  {
  }

  /** Two lists joined repeat no key exactly when neither does and they share none. */
  lemma DistinctAppend<K>(a: seq<K>, b: seq<K>)
    ensures Distinct(a + b)
        <==> Distinct(a) && Distinct(b) && forall i, j :: 0 <= i < |a| && 0 <= j < |b| ==> a[i] != b[j]
  {
    if Distinct(a + b) {
      forall i, j | 0 <= i < |a| && 0 <= j < |b|
        ensures a[i] != b[j]
      {
        assert (a + b)[i] == a[i] && (a + b)[|a| + j] == b[j];
      }
      forall i, j | 0 <= i < j < |a|
        ensures a[i] != a[j]
      {
        assert (a + b)[i] == a[i] && (a + b)[j] == a[j];
      }
      forall i, j | 0 <= i < j < |b|
        ensures b[i] != b[j]
      {
        assert (a + b)[|a| + i] == b[i] && (a + b)[|a| + j] == b[j];
      }
    }
    if Distinct(a) && Distinct(b) && forall i, j :: 0 <= i < |a| && 0 <= j < |b| ==> a[i] != b[j] {
      forall i, j | 0 <= i < j < |a + b|
        ensures (a + b)[i] != (a + b)[j]
      {
        if j < |a| {
        } else if i < |a| {
          assert (a + b)[j] == b[j - |a|];
        } else {
          assert (a + b)[i] == b[i - |a|] && (a + b)[j] == b[j - |a|];
        }
      }
    }
  }

  /** Regrouping five concatenated pieces. */
  lemma AppendAssoc<T>(e: seq<T>, a: seq<T>, t: seq<T>, s: seq<T>, x: seq<T>)
    ensures e + a + t + s + x == e + (a + (t + s) + x)
  {
  }

  /** Scanning one more key reports it exactly when it was seen before. */
  lemma RepeatsSnoc<K>(keys: seq<K>, k: K)
    ensures Repeats(keys + [k]) == Repeats(keys) + (if k in keys then [k] else [])
  {
    assert (keys + [k])[..|keys|] == keys;
  }

  /** A key occurring k > 0 times is reported exactly k - 1 times; one never seen is not reported. */
  lemma {:induction false} RepeatCount<K>(keys: seq<K>, k: K)
    ensures multiset(Repeats(keys))[k] == if multiset(keys)[k] == 0 then 0 else multiset(keys)[k] - 1
    decreases |keys|
  {
    if |keys| > 0 {
      var init := keys[..|keys| - 1];
      var last := keys[|keys| - 1];
      RepeatCount(init, k);
      LastSplit(keys);
      assert multiset(keys) == multiset(init) + multiset{last};
      if last in init {
        assert multiset(init)[last] > 0;
      } else {
        assert multiset(init)[last] == 0;
      }
    }
  }

  /** Nothing is reported exactly when the keys are pairwise distinct. */
  lemma {:induction false} NoRepeatsIffDistinct<K>(keys: seq<K>)
    ensures Repeats(keys) == [] <==> Distinct(keys)
    decreases |keys|
  {
    if |keys| > 0 {
      var init := keys[..|keys| - 1];
      var last := keys[|keys| - 1];
      NoRepeatsIffDistinct(init);
      if Distinct(keys) {
        assert Distinct(init);
        forall i | 0 <= i < |init|
          ensures init[i] != last
        {
          assert init[i] == keys[i];
        }
      }
      if Repeats(keys) == [] {
        assert Repeats(init) == [] && last !in init;
        forall i, j | 0 <= i < j < |keys|
          ensures keys[i] != keys[j]
        {
          if j < |keys| - 1 {
            assert keys[i] == init[i] && keys[j] == init[j];
          } else {
            assert keys[i] == init[i];
          }
        }
      }
    }
  }

  /** Every key is either the first of its kind or reported: reports plus distinct keys make up the input. */
  lemma {:induction false} RepeatsAndKeys<K>(keys: seq<K>)
    ensures |Repeats(keys)| + |KeySet(keys)| == |keys|
    decreases |keys|
  {
    if |keys| > 0 {
      var init := keys[..|keys| - 1];
      var last := keys[|keys| - 1];
      RepeatsAndKeys(init);
      LastSplit(keys);
      KeySetMember(init, last);
      if last in init {
        assert KeySet(keys) == KeySet(init);
      }
    }
  }

  /**
   * The `HashSet` scan: inserts the keys in order and appends `report(k)` to
   * `errors` for every key whose insertion finds it already present.
   */
  method ReportRepeats<K(==), E>(keys: seq<K>, report: K -> E, errors: seq<E>) returns (out: seq<E>)
    ensures out == errors + Map(report, Repeats(keys))
  {
    var uniq: set<K> := {};
    out := errors;
    for i := 0 to |keys|
      invariant uniq == KeySet(keys[..i])
      invariant out == errors + Map(report, Repeats(keys[..i]))
    {
      assert keys[..i + 1] == keys[..i] + [keys[i]];
      RepeatsSnoc(keys[..i], keys[i]);
      KeySetSnoc(keys[..i], keys[i]);
      KeySetMember(keys[..i], keys[i]);
      MapAppend(report, Repeats(keys[..i]), if keys[i] in keys[..i] then [keys[i]] else []);
      if keys[i] in uniq {
        out := out + [report(keys[i])];
      }
      uniq := uniq + {keys[i]};
    }
    assert keys[..|keys|] == keys;
  }
}
