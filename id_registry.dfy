/**
 * The institution-ID registry (Analyzer.instIdDict): key triples mapped to IDs, where a key seen for
 * the first time gets the registry's size plus one. The invariant is that the IDs in use are exactly
 * 1..n for a registry of n keys; from it follow that distinct keys have distinct IDs and that a new
 * ID was never handed out before.
 */
module IdRegistry {
  import opened Collaborators

  type IdMap = map<KeyTriple, int>

  /** The IDs 1..n */
  function IdRange(n: nat): (r: set<int>)
    ensures forall i :: i in r <==> 1 <= i <= n
  {
    if n == 0 then {} else IdRange(n - 1) + {n}
  }

  /** The IDs in use are exactly 1..|m| */
  ghost predicate DenseIds(m: IdMap) {
    m.Values == IdRange(|m|)
  }

  ghost predicate Injective(m: IdMap) {
    forall a, b :: a in m && b in m && a != b ==> m[a] != m[b]
  }

  lemma {:induction false} IdRangeSize(n: nat)
    ensures |IdRange(n)| == n
  {
    if n > 0 {
      IdRangeSize(n - 1);
    }
  }

  /** A map never has more distinct values than keys */
  lemma {:induction false} ValuesSize(m: IdMap)
    ensures |m.Values| <= |m|
    decreases |m|
  {
    if m != map[] {
      var k :| k in m;
      var rest := m - {k};
      assert |rest| == |m| - 1;
      ValuesSize(rest);
      assert m.Values <= rest.Values + {m[k]} by {
        forall v | v in m.Values ensures v in rest.Values + {m[k]} {
          var c :| c in m && m[c] == v;
          if c != k {
            assert rest[c] == v;
          }
        }
      }
      SubsetSize(m.Values, rest.Values + {m[k]});
    }
  }

  lemma {:induction false} SubsetSize(a: set<int>, b: set<int>)
    requires a <= b
    ensures |a| <= |b|
  {
    assert b == a + (b - a);
  }

  /** Distinct key triples always carry distinct IDs in a dense registry */
  lemma DenseIsInjective(m: IdMap)
    requires DenseIds(m)
    ensures Injective(m)
  {
    if !Injective(m) {
      var a, b :| a in m && b in m && a != b && m[a] == m[b];
      var rest := m - {a};
      assert |rest| == |m| - 1;
      assert rest.Values == m.Values by {
        forall v | v in m.Values ensures v in rest.Values {
          var c :| c in m && m[c] == v;
          if c == a {
            assert rest[b] == v;
          } else {
            assert rest[c] == v;
          }
        }
      }
      ValuesSize(rest);
      IdRangeSize(|m|);
      assert false;
    }
  }

  /** The registry after resolving key k: unchanged if k is present, otherwise k gets |m| + 1 */
  function Allocate(m: IdMap, k: KeyTriple): IdMap {
    if k in m then m else m[k := |m| + 1]
  }

  /** Allocation keeps the IDs dense, and a newly allocated ID was not in use before */
  lemma AllocateDense(m: IdMap, k: KeyTriple)
    requires DenseIds(m)
    ensures DenseIds(Allocate(m, k))
    ensures k !in m ==> Allocate(m, k)[k] !in m.Values
  {
    if k !in m {
      var n := |m|;
      var m' := m[k := n + 1];
      assert |m'| == n + 1;
      UpdateValues(m, k, n + 1);
      assert IdRange(n + 1) == IdRange(n) + {n + 1};
    }
  }

  lemma UpdateValues(m: IdMap, k: KeyTriple, id: int)
    requires k !in m
    ensures m[k := id].Values == m.Values + {id}
  {
    var m' := m[k := id];
    forall v | v in m'.Values ensures v in m.Values + {id} {
      var c :| c in m' && m'[c] == v;
      if c != k {
        assert m[c] == v;
      }
    }
    forall v | v in m.Values ensures v in m'.Values {
      var c :| c in m && m[c] == v;
      assert m'[c] == v;
    }
    assert m'[k] == id;
  }

  /** The registry after allocating every key of keys in turn (the loop of loadInstIdDictFrom) */
  function AllocateAll(m: IdMap, keys: seq<KeyTriple>): IdMap
    decreases |keys|
  {
    if keys == [] then m else Allocate(AllocateAll(m, keys[..|keys| - 1]), keys[|keys| - 1])
  }

  /** No key triple occurs twice */
  ghost predicate Distinct(keys: seq<KeyTriple>) {
    forall i, j :: 0 <= i < j < |keys| ==> keys[i] != keys[j]
  }

  /** Every row was new when its turn came: the rows are distinct and none was registered before */
  ghost predicate AllFresh(m: IdMap, keys: seq<KeyTriple>) {
    Distinct(keys) && forall i :: 0 <= i < |keys| ==> keys[i] !in m
  }

  /** Bulk allocation keeps the IDs dense */
  lemma {:induction false} AllocateAllDense(m: IdMap, keys: seq<KeyTriple>)
    requires DenseIds(m)
    ensures DenseIds(AllocateAll(m, keys))
    decreases |keys|
  {
    if keys != [] {
      var init := keys[..|keys| - 1];
      AllocateAllDense(m, init);
      AllocateDense(AllocateAll(m, init), keys[|keys| - 1]);
    }
  }

  /** Allocation registers k and keeps every old ID, dense or not */
  lemma AllocateKeys(m: IdMap, k: KeyTriple)
    ensures forall c :: c in Allocate(m, k) <==> c in m || c == k
    ensures forall c :: c in m ==> Allocate(m, k)[c] == m[c]
  {
  }

  /** Bulk allocation registers exactly the rows' keys besides the old ones */
  lemma {:induction false} AllocateAllKeys(m: IdMap, keys: seq<KeyTriple>)
    ensures forall k :: k in AllocateAll(m, keys) <==> k in m || k in keys
    decreases |keys|
  {
    if keys != [] {
      var init, last := keys[..|keys| - 1], keys[|keys| - 1];
      AllocateAllKeys(m, init);
      assert keys == init + [last];
    }
  }

  /** Bulk allocation never changes an ID that was registered before it */
  lemma {:induction false} AllocateAllKeepsIds(m: IdMap, keys: seq<KeyTriple>)
    ensures forall c :: c in m ==> c in AllocateAll(m, keys) && AllocateAll(m, keys)[c] == m[c]
    decreases |keys|
  {
    if keys != [] {
      var init := keys[..|keys| - 1];
      AllocateAllKeepsIds(m, init);
      AllocateKeys(AllocateAll(m, init), keys[|keys| - 1]);
    }
  }

  /** One more row keeps "all fresh" exactly when it was not yet registered by the rows before it */
  lemma AllFreshStep(m: IdMap, keys: seq<KeyTriple>, k: KeyTriple)
    ensures AllFresh(m, keys + [k]) <==> AllFresh(m, keys) && k !in AllocateAll(m, keys)
  {
    AllocateAllKeys(m, keys);
    var s := keys + [k];
    assert forall i :: 0 <= i < |keys| ==> s[i] == keys[i];
    assert s[|keys|] == k;
  }

  /** Every row was new when the rows before it had been allocated, read row by row */
  function NoneRegistered(m: IdMap, keys: seq<KeyTriple>): bool
    decreases |keys|
  {
    keys == [] || (NoneRegistered(m, keys[..|keys| - 1]) && keys[|keys| - 1] !in AllocateAll(m, keys[..|keys| - 1]))
  }

  /** Reading the rows one at a time and judging them all at once agree */
  lemma {:induction false} NoneRegisteredIsAllFresh(m: IdMap, keys: seq<KeyTriple>)
    ensures NoneRegistered(m, keys) <==> AllFresh(m, keys)
    decreases |keys|
  {
    if keys != [] {
      var init, last := keys[..|keys| - 1], keys[|keys| - 1];
      NoneRegisteredIsAllFresh(m, init);
      AllFreshStep(m, init, last);
      assert keys == init + [last];
    }
  }

  /** One more row of a table, as the loop of loadInstIdDictFrom takes it */
  lemma AllocatePrefixStep(m: IdMap, keys: seq<KeyTriple>, i: int)
    requires 0 <= i < |keys|
    ensures AllocateAll(m, keys[..i + 1]) == Allocate(AllocateAll(m, keys[..i]), keys[i])
    ensures NoneRegistered(m, keys[..i + 1]) == (NoneRegistered(m, keys[..i]) && keys[i] !in AllocateAll(m, keys[..i]))
  {
    assert keys[..i + 1][..i] == keys[..i];
  }
}
