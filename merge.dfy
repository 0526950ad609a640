/** Keyed sentiment accumulators and their combination: the `defaultdict`
    "get-or-zero-then-add" update, `merge_dicts`, and the reduction of all
    ranks' local maps into one global map. Sums are exact (`real`). */
module MergeReduce {

  /** `m.get(k, 0)`. */
  function Get0<K>(m: map<K, real>, k: K): real {
    if k in m then m[k] else 0.0
  }

  /** `m[k] += v` on a `defaultdict(float)`: the key is created at zero first. */
  function AddTo<K>(m: map<K, real>, k: K, v: real): (r: map<K, real>)
    ensures r.Keys == m.Keys + {k}
    ensures r[k] == Get0(m, k) + v
    ensures forall k' | k' in m && k' != k :: r[k'] == m[k']
  {
    m[k := Get0(m, k) + v]
  }

  /** Key-wise sum: the value of `merge_dicts(a, b)`. */
  function Merge<K>(a: map<K, real>, b: map<K, real>): (r: map<K, real>)
    ensures r.Keys == a.Keys + b.Keys
    ensures forall k | k in b :: r[k] == Get0(a, k) + b[k]
    ensures forall k | k in a && k !in b :: r[k] == a[k]
  {
    map k | k in a.Keys + b.Keys :: Get0(a, k) + Get0(b, k)
  }

  /** `merge_dicts`: for each entry of `b`, `a[key] = a.get(key, 0) + value`;
      then return `a`. The iteration order over `b` is left open. */
  method MergeDicts<K(==)>(a: map<K, real>, b: map<K, real>) returns (r: map<K, real>)
    ensures r == Merge(a, b)
  {
    r := a;
    var todo := b.Keys;
    while todo != {}
      invariant todo <= b.Keys
      invariant r.Keys == a.Keys + (b.Keys - todo)
      invariant forall k | k in r :: r[k] == Get0(a, k) + (if k in b && k !in todo then b[k] else 0.0)
      decreases todo
    {
      var key :| key in todo;
      r := r[key := Get0(r, key) + b[key]];
      todo := todo - {key};
    }
    assert forall k | k in r :: r[k] == Merge(a, b)[k];
  }

  lemma MergeCommutes<K>(a: map<K, real>, b: map<K, real>)
    ensures Merge(a, b) == Merge(b, a)
  {
    assert forall k | k in Merge(a, b) :: Merge(a, b)[k] == Merge(b, a)[k];
  }

  lemma MergeAssociates<K>(a: map<K, real>, b: map<K, real>, c: map<K, real>)
    ensures Merge(Merge(a, b), c) == Merge(a, Merge(b, c))
  {
    var l, r := Merge(Merge(a, b), c), Merge(a, Merge(b, c));
    forall k | k in l
      ensures l[k] == r[k]
    {
      assert Get0(Merge(a, b), k) == Get0(a, k) + Get0(b, k);
      assert Get0(Merge(b, c), k) == Get0(b, k) + Get0(c, k);
    }
  }

  /** The empty map is the identity on both sides. */
  lemma MergeIdentity<K>(a: map<K, real>)
    ensures Merge(map[], a) == a && Merge(a, map[]) == a
  {
  }

  /** The `defaultdict` update is a merge with a one-entry map. */
  lemma AddToIsMerge<K>(m: map<K, real>, k: K, v: real)
    ensures AddTo(m, k, v) == Merge(m, map[k := v])
  {
  }

  /** The reduction of the ranks' local maps, in rank order. */
  function FoldMerge<K>(ms: seq<map<K, real>>): (r: map<K, real>)
    decreases |ms|
  {
    if ms == [] then map[] else Merge(FoldMerge(ms[..|ms| - 1]), ms[|ms| - 1])
  }

  /** The sum over all ranks of their partial sums for key `k`. */
  function SumAt<K>(ms: seq<map<K, real>>, k: K): real
    decreases |ms|
  {
    if ms == [] then 0.0 else SumAt(ms[..|ms| - 1], k) + Get0(ms[|ms| - 1], k)
  }

  /** The global map holds exactly the keys some rank holds, and each maps to
      the sum of the ranks' partial sums: nothing is dropped or counted twice. */
  lemma {:induction false} FoldMergeSums<K>(ms: seq<map<K, real>>)
    ensures forall k :: k in FoldMerge(ms) <==> exists i | 0 <= i < |ms| :: k in ms[i]
    ensures forall k :: Get0(FoldMerge(ms), k) == SumAt(ms, k)
    decreases |ms|
  {
    if ms != [] {
      var init := ms[..|ms| - 1];
      FoldMergeSums(init);
      forall k | exists i | 0 <= i < |ms| :: k in ms[i]
        ensures k in FoldMerge(ms)
      {
        var i :| 0 <= i < |ms| && k in ms[i];
        if i < |ms| - 1 {
          assert k in init[i];
        }
      }
    }
  }

  /** Any grouping gives the same result: reducing a concatenation is merging
      the reductions of its two parts (the shape of a tree reduction). */
  lemma {:induction false} FoldMergeConcat<K>(s: seq<map<K, real>>, t: seq<map<K, real>>)
    ensures FoldMerge(s + t) == Merge(FoldMerge(s), FoldMerge(t))
    decreases |t|
  {
    if t == [] {
      assert s + t == s;
      MergeIdentity(FoldMerge(s));
    } else {
      var t' := t[..|t| - 1];
      assert (s + t)[..|s + t| - 1] == s + t';
      FoldMergeConcat(s, t');
      MergeAssociates(FoldMerge(s), FoldMerge(t'), t[|t| - 1]);
    }
  }

  /** Any order gives the same result for a split into two parts. */
  lemma FoldMergeSwap<K>(s: seq<map<K, real>>, t: seq<map<K, real>>)
    ensures FoldMerge(s + t) == FoldMerge(t + s)
  {
    FoldMergeConcat(s, t);
    FoldMergeConcat(t, s);
    MergeCommutes(FoldMerge(s), FoldMerge(t));
  }

  /** Any order gives the same result: reducing a permutation of the ranks'
      maps gives the reduction in rank order. */
  lemma {:induction false} FoldMergePerm<K>(ms: seq<map<K, real>>, ms': seq<map<K, real>>)
    requires multiset(ms) == multiset(ms')
    ensures FoldMerge(ms) == FoldMerge(ms')
    decreases |ms|
  {
    if ms == [] {
      assert |ms'| == |multiset(ms')| == 0;
    } else {
      var x := ms[|ms| - 1];
      assert x in multiset(ms');
      var i :| 0 <= i < |ms'| && ms'[i] == x;
      var u, a, b := ms[..|ms| - 1], ms'[..i], ms'[i + 1..];
      SplitAt(ms, |ms| - 1);
      SplitAt(ms', i);
      RemoveOne(u, x, a, b);
      FoldMergePerm(u, a + b);
      FoldMergeMoveLast(a, x, b);
    }
  }

  /** A map anywhere in the rank order can be merged last instead. */
  lemma FoldMergeMoveLast<K>(a: seq<map<K, real>>, x: map<K, real>, b: seq<map<K, real>>)
    ensures FoldMerge(a + ([x] + b)) == Merge(FoldMerge(a + b), x)
  {
    assert (a + b + [x])[..|a + b + [x]| - 1] == a + b;
    calc {
      FoldMerge(a + ([x] + b));
      == { FoldMergeConcat(a, [x] + b); }
      Merge(FoldMerge(a), FoldMerge([x] + b));
      == { FoldMergeSwap([x], b); }
      Merge(FoldMerge(a), FoldMerge(b + [x]));
      == { FoldMergeConcat(a, b + [x]); assert a + (b + [x]) == a + b + [x]; }
      FoldMerge(a + b + [x]);
    }
  }

  /** A sequence is what lies before index `i`, the element at `i`, and what lies after. */
  lemma SplitAt<T>(s: seq<T>, i: nat)
    requires i < |s|
    ensures s == s[..i] + [s[i]] + s[i + 1..]
    ensures s == s[..i] + ([s[i]] + s[i + 1..])
    ensures i == |s| - 1 ==> s == s[..i] + [s[i]]
  {
  }

  /** Removing the same element from two permutations leaves two permutations. */
  lemma RemoveOne<T>(u: seq<T>, x: T, a: seq<T>, b: seq<T>)
    requires multiset(u + [x]) == multiset(a + [x] + b)
    ensures multiset(u) == multiset(a + b)
  {
    assert multiset(u + [x]) == multiset(u) + multiset{x};
    assert multiset(a + [x] + b) == multiset(a + b) + multiset{x};
    forall y
      ensures multiset(u)[y] == multiset(a + b)[y]
    {
      assert (multiset(u) + multiset{x})[y] == (multiset(a + b) + multiset{x})[y];
    }
  }

  /** The global map as the coordinator obtains it: with more than one rank the
      reduction merges every local map; a single rank's local map is used as it
      is. The bypass is unobservable: the result is always the full reduction. */
  function Global<K>(locals: seq<map<K, real>>): (r: map<K, real>)
    requires |locals| >= 1
    ensures r == FoldMerge(locals)
  {
    if |locals| > 1 then FoldMerge(locals)
    else
      assert locals[..0] == [];
      MergeIdentity(locals[0]);
      locals[0]
  }
}
