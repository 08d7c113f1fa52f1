/** The order of the walk: the registered records sorted ascending by `index`
    with a stable sort, so records that share an index keep the order in which
    the registry handed them over. */
module Ordering {
  import opened Property

  predicate SortedByIndex(s: seq<ShowcaseProperty>) {
    forall i, j | 0 <= i < j < |s| :: s[i].index <= s[j].index
  }

  /** Inserts `p` before the first element whose index is not smaller. */
  function Insert(p: ShowcaseProperty, s: seq<ShowcaseProperty>): (r: seq<ShowcaseProperty>)
    ensures multiset(r) == multiset(s) + multiset{p}
    ensures |r| == |s| + 1
    ensures SortedByIndex(s) ==> SortedByIndex(r)
  {
    if s == [] || p.index <= s[0].index then
      InsertInFront(p, s);
      [p] + s
    else
      var t := Insert(p, s[1..]);
      InsertBehindHead(p, s, t);
      [s[0]] + t
  }

  lemma InsertInFront(p: ShowcaseProperty, s: seq<ShowcaseProperty>)
    requires s == [] || p.index <= s[0].index
    ensures SortedByIndex(s) ==> SortedByIndex([p] + s)
  {
    if SortedByIndex(s) {
      forall q | q in s ensures p.index <= q.index {
        var k :| 0 <= k < |s| && s[k] == q;
        assert k == 0 || s[0].index <= s[k].index;
      }
      ConsSorted(p, s);
    }
  }

  /** Keeping the head in front of `t`, the insertion into the tail. */
  lemma InsertBehindHead(p: ShowcaseProperty, s: seq<ShowcaseProperty>, t: seq<ShowcaseProperty>)
    requires s != [] && s[0].index < p.index
    requires multiset(t) == multiset(s[1..]) + multiset{p}
    requires SortedByIndex(s[1..]) ==> SortedByIndex(t)
    ensures multiset([s[0]] + t) == multiset(s) + multiset{p}
    ensures SortedByIndex(s) ==> SortedByIndex([s[0]] + t)
  {
    assert s == [s[0]] + s[1..];
    if SortedByIndex(s) {
      TailSorted(s);
      forall q | q in t ensures s[0].index <= q.index {
        assert q in multiset(t);
        if q != p {
          assert q in multiset(s[1..]);
          var k :| 0 <= k < |s[1..]| && s[1..][k] == q;
          assert s[k + 1] == q;
        }
      }
      ConsSorted(s[0], t);
    }
  }

  lemma ConsSorted(h: ShowcaseProperty, t: seq<ShowcaseProperty>)
    requires SortedByIndex(t)
    requires forall q | q in t :: h.index <= q.index
    ensures SortedByIndex([h] + t)
  {
    var r := [h] + t;
    forall i, j | 0 <= i < j < |r| ensures r[i].index <= r[j].index {
      assert r[j] == t[j - 1];
      if i > 0 {
        assert r[i] == t[i - 1];
      }
    }
  }

  /** The walk order: a stable insertion sort by `index`. */
  function SortByIndex(s: seq<ShowcaseProperty>): (r: seq<ShowcaseProperty>)
    ensures SortedByIndex(r)
    ensures multiset(r) == multiset(s)
    ensures |r| == |s|
  {
    if s == [] then []
    else
      assert s == [s[0]] + s[1..];
      Insert(s[0], SortByIndex(s[1..]))
  }

  /** The records carrying index `k`, in their original order. */
  function WithIndex(s: seq<ShowcaseProperty>, k: int): seq<ShowcaseProperty> {
    if s == [] then [] else (if s[0].index == k then [s[0]] else []) + WithIndex(s[1..], k)
  }

  lemma {:induction false} InsertKeepsEqualsInOrder(p: ShowcaseProperty, s: seq<ShowcaseProperty>, k: int)
    requires SortedByIndex(s)
    ensures WithIndex(Insert(p, s), k) == (if p.index == k then [p] else []) + WithIndex(s, k)
    decreases |s|
  {
    if s == [] || p.index <= s[0].index {
      assert ([p] + s)[1..] == s;
    } else {
      TailSorted(s);
      InsertKeepsEqualsInOrder(p, s[1..], k);
      assert s == [s[0]] + s[1..];
      ReorderHeads(s[0], p, Insert(p, s[1..]), s[1..], k);
    }
  }

  /** A record whose index differs from `p`'s can be moved in front of `p`
      without changing the records carrying index `k`. */
  lemma ReorderHeads(h: ShowcaseProperty, p: ShowcaseProperty, t: seq<ShowcaseProperty>,
                     tail: seq<ShowcaseProperty>, k: int)
    requires h.index != p.index
    requires WithIndex(t, k) == (if p.index == k then [p] else []) + WithIndex(tail, k)
    ensures WithIndex([h] + t, k) == (if p.index == k then [p] else []) + WithIndex([h] + tail, k)
  {
    WithIndexCons(h, t, k);
    WithIndexCons(h, tail, k);
    var head := if h.index == k then [h] else [];
    var mid := if p.index == k then [p] else [];
    assert head == [] || mid == [];
    assert head + (mid + WithIndex(tail, k)) == mid + (head + WithIndex(tail, k));
  }

  lemma WithIndexCons(h: ShowcaseProperty, t: seq<ShowcaseProperty>, k: int)
    ensures WithIndex([h] + t, k) == (if h.index == k then [h] else []) + WithIndex(t, k)
  {
    assert ([h] + t)[1..] == t;
  }

  /** Stability: for every index, the records carrying it appear in the walk in
      the same relative order as in the input. */
  lemma {:induction false} SortIsStable(s: seq<ShowcaseProperty>, k: int)
    ensures WithIndex(SortByIndex(s), k) == WithIndex(s, k)
    decreases |s|
  {
    if s != [] {
      SortIsStable(s[1..], k);
      InsertKeepsEqualsInOrder(s[0], SortByIndex(s[1..]), k);
    }
  }

  /** No two different records in `s` share an index (the same record may
      still appear twice). */
  predicate IndexIdentifies(s: seq<ShowcaseProperty>) {
    forall p, q | p in s && q in s && p.index == q.index :: p == q
  }

  lemma {:induction false} SortedPermutationsAgree(x: seq<ShowcaseProperty>, y: seq<ShowcaseProperty>)
    requires SortedByIndex(x) && SortedByIndex(y)
    requires multiset(x) == multiset(y)
    requires IndexIdentifies(x)
    ensures x == y
    decreases |x|
  {
    assert |x| == |multiset(x)| == |y|;
    if x != [] {
      HeadsAgree(x, y);
      TailPermutation(x, y);
      TailIndexIdentifies(x);
      TailSorted(x);
      TailSorted(y);
      SortedPermutationsAgree(x[1..], y[1..]);
      assert x == [x[0]] + x[1..] && y == [y[0]] + y[1..];
    }
  }

  lemma HeadsAgree(x: seq<ShowcaseProperty>, y: seq<ShowcaseProperty>)
    requires SortedByIndex(x) && SortedByIndex(y) && x != []
    requires multiset(x) == multiset(y)
    requires IndexIdentifies(x)
    ensures y != [] && x[0] == y[0]
  {
    HeadIsFirstByIndex(x, y);
    HeadIsFirstByIndex(y, x);
    assert y[0] in multiset(x);
    assert y[0] in x;
  }

  lemma TailIndexIdentifies(x: seq<ShowcaseProperty>)
    requires IndexIdentifies(x) && x != []
    ensures IndexIdentifies(x[1..])
  {
    forall p, q | p in x[1..] && q in x[1..] && p.index == q.index
      ensures p == q
    {
      assert p in x && q in x;
    }
  }

  lemma TailSorted(x: seq<ShowcaseProperty>)
    requires SortedByIndex(x) && x != []
    ensures SortedByIndex(x[1..])
  {
    forall i, j | 0 <= i < j < |x| - 1 ensures x[1..][i].index <= x[1..][j].index {
      assert x[1..][i] == x[i + 1] && x[1..][j] == x[j + 1];
    }
  }

  /** The head of a sorted sequence has the least index among the elements of
      any permutation of it. */
  lemma HeadIsFirstByIndex(x: seq<ShowcaseProperty>, y: seq<ShowcaseProperty>)
    requires SortedByIndex(x) && x != []
    requires multiset(x) == multiset(y)
    ensures y != [] && x[0].index <= y[0].index
  {
    assert y[0] in multiset(y) by {
      assert |y| == |multiset(x)| > 0;
    }
    assert y[0] in multiset(x);
    var i :| 0 <= i < |x| && x[i] == y[0];
    assert i == 0 || x[0].index <= x[i].index;
  }

  lemma TailPermutation(x: seq<ShowcaseProperty>, y: seq<ShowcaseProperty>)
    requires x != [] && y != [] && x[0] == y[0]
    requires multiset(x) == multiset(y)
    ensures multiset(x[1..]) == multiset(y[1..])
  {
    assert x == [x[0]] + x[1..];
    assert y == [y[0]] + y[1..];
    assert multiset(x) == multiset{x[0]} + multiset(x[1..]);
    assert multiset(y) == multiset{y[0]} + multiset(y[1..]);
    assert multiset(x[1..]) == multiset(x) - multiset{x[0]};
    assert multiset(y[1..]) == multiset(y) - multiset{y[0]};
  }

  /** When an index names one record, the walk order does not depend on the
      order in which the records were handed over. */
  lemma SortIgnoresInputOrder(a: seq<ShowcaseProperty>, b: seq<ShowcaseProperty>)
    requires multiset(a) == multiset(b)
    requires IndexIdentifies(a)
    ensures SortByIndex(a) == SortByIndex(b)
  {
    PermutationKeepsIndexIdentifies(a, SortByIndex(a));
    SortedPermutationsAgree(SortByIndex(a), SortByIndex(b));
  }

  lemma PermutationKeepsIndexIdentifies(a: seq<ShowcaseProperty>, b: seq<ShowcaseProperty>)
    requires multiset(a) == multiset(b)
    requires IndexIdentifies(a)
    ensures IndexIdentifies(b)
  {
    forall p, q | p in b && q in b && p.index == q.index
      ensures p == q
    {
      assert p in multiset(a) && q in multiset(a);
    }
  }

  /** The registry's values in the order of a key enumeration; the toolkit's
      map does not promise any particular order, so the enumeration is a
      parameter. */
  function ValuesOf(reg: Registry, keys: seq<string>): (r: seq<ShowcaseProperty>)
    requires forall k | k in keys :: k in reg
    ensures |r| == |keys|
    ensures forall i | 0 <= i < |keys| :: r[i] == reg[keys[i]]
  {
    if keys == [] then [] else [reg[keys[0]]] + ValuesOf(reg, keys[1..])
  }

  /** `keys` lists every key of the registry exactly once. */
  predicate Enumerates(reg: Registry, keys: seq<string>) {
    && (forall k | k in keys :: k in reg)
    && (forall k | k in reg :: k in keys)
    && (forall i, j | 0 <= i < j < |keys| :: keys[i] != keys[j])
  }

  /** Distinct records in the registry carry distinct indices. */
  predicate RegistryIndexIdentifies(reg: Registry) {
    forall k1, k2 | k1 in reg && k2 in reg && reg[k1].index == reg[k2].index :: reg[k1] == reg[k2]
  }

  lemma {:induction false} DistinctCount(s: seq<string>, k: string)
    requires forall i, j | 0 <= i < j < |s| :: s[i] != s[j]
    ensures multiset(s)[k] == if k in s then 1 else 0
    decreases |s|
  {
    if s != [] {
      assert s == [s[0]] + s[1..];
      DistinctCount(s[1..], k);
    }
  }

  lemma {:induction false} ValuesOfPermutation(reg: Registry, a: seq<string>, b: seq<string>)
    requires forall k | k in a :: k in reg
    requires forall k | k in b :: k in reg
    requires multiset(a) == multiset(b)
    ensures multiset(ValuesOf(reg, a)) == multiset(ValuesOf(reg, b))
    decreases |a|
  {
    if a == [] {
      assert |b| == |multiset(b)| == 0;
    } else {
      var j := IndexOf(b, a[0]);
      var b' := RemovedKeys(reg, a, b, j);
      ValuesOfPermutation(reg, a[1..], b');
      ValuesOfRemoveAt(reg, b, j);
      ValuesOfHead(reg, a);
    }
  }

  /** Removing the matching first key from both sides keeps them permutations. */
  lemma RemovedKeys(reg: Registry, a: seq<string>, b: seq<string>, j: int) returns (b': seq<string>)
    requires a != [] && 0 <= j < |b| && b[j] == a[0]
    requires forall k | k in b :: k in reg
    requires multiset(a) == multiset(b)
    ensures b' == b[..j] + b[j + 1..]
    ensures multiset(a[1..]) == multiset(b')
    ensures forall k | k in b' :: k in reg
  {
    b' := b[..j] + b[j + 1..];
    RemoveAt(b, j);
    RemoveAt(a, 0);
    assert a[..0] + a[1..] == a[1..];
    Cancel(multiset(a[1..]), multiset(b'), a[0]);
    assert forall k | k in b' :: k in b;
  }

  /** A position at which a member of the multiset of `s` occurs in `s`. */
  lemma IndexOf<T>(s: seq<T>, x: T) returns (j: int)
    requires x in multiset(s)
    ensures 0 <= j < |s| && s[j] == x
  {
    assert x in s;
    j :| 0 <= j < |s| && s[j] == x;
  }

  lemma Cancel<T>(m: multiset<T>, n: multiset<T>, x: T)
    requires m + multiset{x} == n + multiset{x}
    ensures m == n
  {
    assert m == (m + multiset{x}) - multiset{x};
    assert n == (n + multiset{x}) - multiset{x};
  }

  lemma RemoveAt<T>(b: seq<T>, j: int)
    requires 0 <= j < |b|
    ensures multiset(b) == multiset(b[..j] + b[j + 1..]) + multiset{b[j]}
  {
    assert b == b[..j] + [b[j]] + b[j + 1..];
  }

  lemma ValuesOfHead(reg: Registry, a: seq<string>)
    requires forall k | k in a :: k in reg
    requires a != []
    ensures forall k | k in a[1..] :: k in reg
    ensures multiset(ValuesOf(reg, a)) == multiset(ValuesOf(reg, a[1..])) + multiset{reg[a[0]]}
  {
    assert ValuesOf(reg, a) == [reg[a[0]]] + ValuesOf(reg, a[1..]);
  }

  lemma ValuesOfRemoveAt(reg: Registry, b: seq<string>, j: int)
    requires forall k | k in b :: k in reg
    requires 0 <= j < |b|
    ensures forall k | k in b[..j] + b[j + 1..] :: k in reg
    ensures multiset(ValuesOf(reg, b)) ==
            multiset(ValuesOf(reg, b[..j] + b[j + 1..])) + multiset{reg[b[j]]}
  {
    assert forall k | k in b[..j] + b[j + 1..] :: k in b;
    var vs := ValuesOf(reg, b);
    var ws := ValuesOf(reg, b[..j] + b[j + 1..]);
    assert ws == vs[..j] + vs[j + 1..];
    RemoveAt(vs, j);
  }

  /** Whatever order the registry hands its records over in, the walk is the
      same, provided distinct records carry distinct indices. */
  lemma WalkOrderIgnoresMapOrder(reg: Registry, keys1: seq<string>, keys2: seq<string>)
    requires Enumerates(reg, keys1) && Enumerates(reg, keys2)
    requires RegistryIndexIdentifies(reg)
    ensures SortByIndex(ValuesOf(reg, keys1)) == SortByIndex(ValuesOf(reg, keys2))
  {
    EnumerationsArePermutations(reg, keys1, keys2);
    ValuesOfPermutation(reg, keys1, keys2);
    ValuesIndexIdentifies(reg, keys1);
    SortIgnoresInputOrder(ValuesOf(reg, keys1), ValuesOf(reg, keys2));
  }

  /** A layout callback storing a record changes the walk's input by exactly
      that record: re-registering a key swaps its old record for the new one
      and keeps the size, and a new key adds one record at the end of the
      enumeration. */
  lemma RegisterUpdatesValues(reg: Registry, keys: seq<string>, key: string, p: ShowcaseProperty)
    requires Enumerates(reg, keys)
    ensures key in reg ==> Enumerates(Register(reg, key, p), keys)
    ensures key in reg ==>
              multiset(ValuesOf(Register(reg, key, p), keys)) ==
              multiset(ValuesOf(reg, keys)) - multiset{reg[key]} + multiset{p}
    ensures key !in reg ==> Enumerates(Register(reg, key, p), keys + [key])
    ensures key !in reg ==>
              multiset(ValuesOf(Register(reg, key, p), keys + [key])) ==
              multiset(ValuesOf(reg, keys)) + multiset{p}
  {
    if key in reg {
      ReRegisterSwaps(reg, keys, key, p);
    } else {
      RegisterAppends(reg, keys, key, p);
    }
  }

  lemma ReRegisterSwaps(reg: Registry, keys: seq<string>, key: string, p: ShowcaseProperty)
    requires Enumerates(reg, keys) && key in reg
    ensures Enumerates(Register(reg, key, p), keys)
    ensures multiset(ValuesOf(Register(reg, key, p), keys)) ==
            multiset(ValuesOf(reg, keys)) - multiset{reg[key]} + multiset{p}
  {
    var j :| 0 <= j < |keys| && keys[j] == key;
    SwapAt(reg, keys, key, p, j);
    assert ValuesOf(reg, keys)[j] == reg[key];
  }

  lemma SwapAt(reg: Registry, keys: seq<string>, key: string, p: ShowcaseProperty, j: int)
    requires Enumerates(reg, keys) && 0 <= j < |keys| && keys[j] == key
    ensures forall k | k in keys :: k in Register(reg, key, p)
    ensures ValuesOf(Register(reg, key, p), keys) == ValuesOf(reg, keys)[j := p]
  {
    var vs := ValuesOf(reg, keys);
    var ws := ValuesOf(Register(reg, key, p), keys);
    forall i | 0 <= i < |keys|
      ensures ws[i] == vs[j := p][i]
    {
      if i != j {
        assert keys[i] != key;
      }
    }
  }

  lemma RegisterAppends(reg: Registry, keys: seq<string>, key: string, p: ShowcaseProperty)
    requires Enumerates(reg, keys) && key !in reg
    ensures Enumerates(Register(reg, key, p), keys + [key])
    ensures multiset(ValuesOf(Register(reg, key, p), keys + [key])) ==
            multiset(ValuesOf(reg, keys)) + multiset{p}
  {
    var reg' := Register(reg, key, p);
    var keys' := keys + [key];
    AppendedKeyEnumerates(reg, keys, key, p);
    var vs := ValuesOf(reg, keys);
    var ws := ValuesOf(reg', keys');
    forall i | 0 <= i < |keys'|
      ensures ws[i] == (vs + [p])[i]
    {
      if i < |keys| {
        assert keys'[i] == keys[i] && keys[i] in reg;
      }
    }
    assert ws == vs + [p];
  }

  lemma AppendedKeyEnumerates(reg: Registry, keys: seq<string>, key: string, p: ShowcaseProperty)
    requires Enumerates(reg, keys) && key !in reg
    ensures Enumerates(Register(reg, key, p), keys + [key])
  {
    var keys' := keys + [key];
    forall i, j | 0 <= i < j < |keys'|
      ensures keys'[i] != keys'[j]
    {
      assert keys'[i] == keys[i] && keys[i] in reg;
      if j < |keys| {
        assert keys'[j] == keys[j];
      }
    }
  }

  lemma ValuesIndexIdentifies(reg: Registry, keys: seq<string>)
    requires forall k | k in keys :: k in reg
    requires RegistryIndexIdentifies(reg)
    ensures IndexIdentifies(ValuesOf(reg, keys))
  {
    var vs := ValuesOf(reg, keys);
    forall p, q | p in vs && q in vs && p.index == q.index
      ensures p == q
    {
      var i :| 0 <= i < |vs| && vs[i] == p;
      var j :| 0 <= j < |vs| && vs[j] == q;
      assert keys[i] in reg && keys[j] in reg;
      assert p == reg[keys[i]] && q == reg[keys[j]];
    }
  }

  lemma EnumerationsArePermutations(reg: Registry, keys1: seq<string>, keys2: seq<string>)
    requires Enumerates(reg, keys1) && Enumerates(reg, keys2)
    ensures multiset(keys1) == multiset(keys2)
  {
    forall k ensures multiset(keys1)[k] == multiset(keys2)[k] {
      DistinctCount(keys1, k);
      DistinctCount(keys2, k);
    }
  }
}
