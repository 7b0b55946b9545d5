/** Size eviction shared by the nonce store and the idempotency cache:
    `sorted(items, key=stamp)[:n]`, each of them popped. */
module Oldest {

  /** `kept` is `all` without its n oldest entries; entries of equal age may be
      chosen either way. */
  ghost predicate WithoutOldest<K(!new)>(all: map<K, real>, kept: map<K, real>, n: nat) {
    && kept.Keys <= all.Keys && (forall k :: k in kept ==> kept[k] == all[k])
    && |kept| + n == |all|
    && forall gone, k :: gone in all && gone !in kept && k in kept ==> all[gone] <= all[k]
  }

  lemma {:induction false} OldestExists<K>(all: map<K, real>)
    requires all != map[]
    ensures exists k :: k in all && forall j :: j in all ==> all[k] <= all[j]
  {
    var x :| x in all;
    var rest := all - {x};
    assert all.Keys == rest.Keys + {x};
    assert forall j :: j in all <==> j == x || j in rest;
    if rest == map[] {
      assert x in all && forall j :: j in all ==> all[x] <= all[j];
    } else {
      assert |rest.Keys| < |all.Keys|;
      OldestExists(rest);
      var k :| k in rest && forall j :: j in rest ==> rest[k] <= rest[j];
      var m := if all[x] <= all[k] then x else k;
      assert m in all && forall j :: j in all ==> all[m] <= all[j];
    }
  }

  method DropOldest<K(!new)>(all: map<K, real>, n: nat) returns (kept: map<K, real>)
    requires n <= |all|
    ensures WithoutOldest(all, kept, n)
  {
    kept := all;
    for i := 0 to n
      invariant WithoutOldest(all, kept, i)
    {
      assert kept != map[];
      OldestExists(kept);
      var k :| k in kept && forall j :: j in kept ==> kept[k] <= kept[j];
      var next := kept - {k};
      assert kept.Keys == next.Keys + {k};
      kept := next;
    }
  }
}
