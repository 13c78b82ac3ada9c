/**
 * First-occurrence deduplication of a sequence by a key, the pattern behind `months()` (an
 * associative array filled only when `isset` fails) and behind `array_unique` (which keeps the
 * first element of each value together with its key).
 */
module FirstOccurrence {

  /** The keys of the elements of `s`. */
  function Keys<T(==), K(==)>(s: seq<T>, key: T -> K): set<K> {
    set i | 0 <= i < |s| :: key(s[i])
  }

  lemma KeysAppend<T, K>(s: seq<T>, x: T, key: T -> K)
    ensures Keys(s + [x], key) == Keys(s, key) + {key(x)}
  {
    var t := s + [x];
    forall k | k in Keys(t, key) ensures k in Keys(s, key) + {key(x)} {
      var i :| 0 <= i < |t| && key(t[i]) == k;
      if i < |s| {
        assert key(s[i]) == k;
      }
    }
    forall k | k in Keys(s, key) ensures k in Keys(t, key) {
      var i :| 0 <= i < |s| && key(s[i]) == k;
      assert key(t[i]) == k;
    }
    assert key(t[|s|]) == key(x);
  }

  lemma KeyIn<T, K>(s: seq<T>, key: T -> K, i: int)
    requires 0 <= i < |s|
    ensures key(s[i]) in Keys(s, key)
  {
  }

  /** When all keys of `s` differ, the key of its last element is not among the earlier ones. */
  lemma LastKeyIsNew<T, K>(s: seq<T>, key: T -> K)
    requires s != []
    requires forall i, j :: 0 <= i < j < |s| ==> key(s[i]) != key(s[j])
    ensures key(s[|s| - 1]) !in Keys(s[..|s| - 1], key)
  {
    var init := s[..|s| - 1];
    forall k | 0 <= k < |init| ensures key(init[k]) != key(s[|s| - 1]) {
      assert init[k] == s[k];
    }
  }

  /** Each element of `s` whose key has not occurred before it, in the order of `s`. */
  function Dedup<T(==), K(==)>(s: seq<T>, key: T -> K): seq<T> {
    if s == [] then []
    else
      var init := s[..|s| - 1];
      var x := s[|s| - 1];
      Dedup(init, key) + (if key(x) in Keys(init, key) then [] else [x])
  }

  /** Extending the input by one element extends `Dedup` by that element exactly when its key is new. */
  lemma DedupAppend<T, K>(s: seq<T>, x: T, key: T -> K)
    ensures Dedup(s + [x], key) == Dedup(s, key) + (if key(x) in Keys(s, key) then [] else [x])
  {
    assert (s + [x])[..|s|] == s;
  }

  /** One step of a loop over `s`: the prefix up to `i` grows by `s[i]`. */
  lemma DedupPrefixStep<T, K>(s: seq<T>, i: nat, key: T -> K)
    requires i < |s|
    ensures Keys(s[..i + 1], key) == Keys(s[..i], key) + {key(s[i])}
    ensures Dedup(s[..i + 1], key) ==
      Dedup(s[..i], key) + (if key(s[i]) in Keys(s[..i], key) then [] else [s[i]])
  {
    assert s[..i + 1] == s[..i] + [s[i]];
    KeysAppend(s[..i], s[i], key);
    DedupAppend(s[..i], s[i], key);
  }

  /** The position of the first element of `s` whose key is `k`. */
  function FirstIndex<T(==), K(==)>(s: seq<T>, key: T -> K, k: K): (i: nat)
    requires k in Keys(s, key)
    ensures i < |s| && key(s[i]) == k
    ensures forall j :: 0 <= j < i ==> key(s[j]) != k
  {
    var init := s[..|s| - 1];
    if k in Keys(init, key) then
      FirstIndex(init, key, k)
    else
      assert forall j :: 0 <= j < |s| - 1 ==> key(s[j]) == key(init[j]) && key(init[j]) in Keys(init, key);
      |s| - 1
  }

  /**
   * `Dedup(s)` has exactly the keys of `s`, each once; each of its elements is the first
   * element of `s` with that key; and they come in the order of those first occurrences.
   */
  predicate IsFirstOccurrences<T(==), K(==)>(s: seq<T>, key: T -> K, r: seq<T>) {
    && Keys(r, key) == Keys(s, key)
    && (forall i, j :: 0 <= i < j < |r| ==> key(r[i]) != key(r[j]))
    && (forall j :: 0 <= j < |r| ==> key(r[j]) in Keys(s, key) && r[j] == s[FirstIndex(s, key, key(r[j]))])
    && (forall i, j :: 0 <= i < j < |r| ==>
          key(r[i]) in Keys(s, key) && key(r[j]) in Keys(s, key) &&
          FirstIndex(s, key, key(r[i])) < FirstIndex(s, key, key(r[j])))
  }

  lemma {:induction false} DedupIsFirstOccurrences<T, K>(s: seq<T>, key: T -> K)
    ensures IsFirstOccurrences(s, key, Dedup(s, key))
  {
    if s != [] {
      var init := s[..|s| - 1];
      var x := s[|s| - 1];
      assert s == init + [x];
      var r0 := Dedup(init, key);
      DedupIsFirstOccurrences(init, key);
      KeysAppend(init, x, key);
      forall k | k in Keys(init, key) ensures FirstIndex(s, key, k) == FirstIndex(init, key, k) {
      }
      if key(x) in Keys(init, key) {
        assert Dedup(s, key) == r0;
      } else {
        var r := r0 + [x];
        assert Dedup(s, key) == r;
        KeysAppend(r0, x, key);
        assert FirstIndex(s, key, key(x)) == |s| - 1;
        forall j | 0 <= j < |r0| ensures key(r[j]) != key(x) {
          KeyIn(r0, key, j);
        }
      }
    }
  }

  /** Every element kept by `Dedup` is an element of its input. */
  lemma DedupElements<T, K>(s: seq<T>, key: T -> K)
    ensures forall x :: x in Dedup(s, key) ==> x in s
  {
    DedupIsFirstOccurrences(s, key);
  }

  /** `Dedup` keeps every key of its input and only elements of its input. */
  lemma {:induction false} DedupKeys<T, K>(s: seq<T>, key: T -> K)
    ensures Keys(Dedup(s, key), key) == Keys(s, key)
    ensures forall x :: x in Dedup(s, key) ==> x in s
  {
    if s != [] {
      var init := s[..|s| - 1];
      var x := s[|s| - 1];
      assert s == init + [x];
      DedupKeys(init, key);
      KeysAppend(init, x, key);
      if key(x) in Keys(init, key) {
        assert Dedup(s, key) == Dedup(init, key);
      } else {
        assert Dedup(s, key) == Dedup(init, key) + [x];
        KeysAppend(Dedup(init, key), x, key);
      }
    }
  }

  /** Deduplicating by a finer key loses no value of a coarser one. */
  lemma CoarseKeysOfDedup<T, F, C>(s: seq<T>, fine: T -> F, coarse: T -> C)
    requires forall a, b :: fine(a) == fine(b) ==> coarse(a) == coarse(b)
    ensures Keys(Dedup(s, fine), coarse) == Keys(s, coarse)
  {
    var a := Dedup(s, fine);
    DedupKeys(s, fine);
    forall k | k in Keys(a, coarse) ensures k in Keys(s, coarse) {
      var j :| 0 <= j < |a| && coarse(a[j]) == k;
      assert a[j] in a;
      var i :| 0 <= i < |s| && s[i] == a[j];
      KeyIn(s, coarse, i);
    }
    forall k | k in Keys(s, coarse) ensures k in Keys(a, coarse) {
      var i :| 0 <= i < |s| && coarse(s[i]) == k;
      KeyIn(s, fine, i);
      assert fine(s[i]) in Keys(a, fine);
      var j :| 0 <= j < |a| && fine(a[j]) == fine(s[i]);
      KeyIn(a, coarse, j);
    }
  }

  /**
   * Deduplicating by a finer key and then by a coarser one (a function of the finer) is the same
   * as deduplicating by the coarser key directly.
   */
  lemma {:induction false} DedupRefines<T, F, C>(s: seq<T>, fine: T -> F, coarse: T -> C)
    requires forall a, b :: fine(a) == fine(b) ==> coarse(a) == coarse(b)
    ensures Dedup(Dedup(s, fine), coarse) == Dedup(s, coarse)
  {
    if s != [] {
      var init := s[..|s| - 1];
      var x := s[|s| - 1];
      var a := Dedup(init, fine);
      DedupRefines(init, fine, coarse);
      if fine(x) in Keys(init, fine) {
        var i :| 0 <= i < |init| && fine(init[i]) == fine(x);
        KeyIn(init, coarse, i);
        assert Dedup(s, fine) == a;
      } else {
        assert Dedup(s, fine) == a + [x];
        assert (a + [x])[..|a|] == a;
        CoarseKeysOfDedup(init, fine, coarse);
      }
    }
  }
}
