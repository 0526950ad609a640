/** The coordinator's report: the five happiest and saddest users and hours,
    chosen with `heapq.nlargest` / `heapq.nsmallest` over tuples
    `(score, user id, username)` and `(score, hour)` compared as Python
    compares tuples. Only the selected result is specified, not the heap
    algorithm. */
module TopK {
  import opened Records

  /** A tuple `(score, k1, ..., kn)`: the score, then the string parts of the key. */
  datatype Entry = Entry(score: real, key: seq<string>)

  /** Python's `<` on two strings: code point by code point, a proper prefix first. */
  predicate StrLess(a: string, b: string)
    decreases |a|
  {
    if a == [] then b != []
    else if b == [] then false
    else if a[0] != b[0] then a[0] < b[0]
    else StrLess(a[1..], b[1..])
  }

  /** Python's `<` on two tuples of strings. */
  predicate KeyLess(a: seq<string>, b: seq<string>)
    decreases |a|
  {
    if a == [] then b != []
    else if b == [] then false
    else if a[0] != b[0] then StrLess(a[0], b[0])
    else KeyLess(a[1..], b[1..])
  }

  /** Python's `<` on two entries: by score, ties broken by the key. */
  predicate EntryLess(x: Entry, y: Entry) {
    x.score < y.score || (x.score == y.score && KeyLess(x.key, y.key))
  }

  lemma {:induction false} StrLessIrreflexive(a: string)
    ensures !StrLess(a, a)
    decreases |a|
  {
    if a != [] {
      StrLessIrreflexive(a[1..]);
    }
  }

  lemma {:induction false} StrLessTransitive(a: string, b: string, c: string)
    requires StrLess(a, b) && StrLess(b, c)
    ensures StrLess(a, c)
    decreases |a|
  {
    if a != [] && a[0] == b[0] && b[0] == c[0] {
      StrLessTransitive(a[1..], b[1..], c[1..]);
    }
  }

  lemma {:induction false} StrLessTotal(a: string, b: string)
    requires a != b
    ensures StrLess(a, b) || StrLess(b, a)
    decreases |a|
  {
    if a != [] && b != [] && a[0] == b[0] {
      assert a == [a[0]] + a[1..] && b == [b[0]] + b[1..];
      StrLessTotal(a[1..], b[1..]);
    }
  }

  lemma {:induction false} KeyLessIrreflexive(a: seq<string>)
    ensures !KeyLess(a, a)
    decreases |a|
  {
    if a != [] {
      KeyLessIrreflexive(a[1..]);
    }
  }

  lemma {:induction false} KeyLessTransitive(a: seq<string>, b: seq<string>, c: seq<string>)
    requires KeyLess(a, b) && KeyLess(b, c)
    ensures KeyLess(a, c)
    decreases |a|
  {
    if a != [] && b != [] && c != [] {
      if a[0] == b[0] && b[0] == c[0] {
        KeyLessTransitive(a[1..], b[1..], c[1..]);
      } else if a[0] != b[0] && b[0] != c[0] {
        StrLessTransitive(a[0], b[0], c[0]);
        if a[0] == c[0] {
          StrLessIrreflexive(a[0]);
        }
      }
    }
  }

  lemma {:induction false} KeyLessTotal(a: seq<string>, b: seq<string>)
    requires a != b
    ensures KeyLess(a, b) || KeyLess(b, a)
    decreases |a|
  {
    if a != [] && b != [] {
      if a[0] == b[0] {
        assert a == [a[0]] + a[1..] && b == [b[0]] + b[1..];
        KeyLessTotal(a[1..], b[1..]);
      } else {
        StrLessTotal(a[0], b[0]);
      }
    }
  }

  /** Tuple order is a strict total order on entries. */
  lemma EntryLessStrictTotal(x: Entry, y: Entry, z: Entry)
    ensures !EntryLess(x, x)
    ensures EntryLess(x, y) && EntryLess(y, z) ==> EntryLess(x, z)
    ensures x != y ==> EntryLess(x, y) || EntryLess(y, x)
  {
    KeyLessIrreflexive(x.key);
    if EntryLess(x, y) && EntryLess(y, z) && x.score == y.score == z.score {
      KeyLessTransitive(x.key, y.key, z.key);
    }
    if x != y && x.score == y.score {
      KeyLessTotal(x.key, y.key);
    }
  }

  /** `x` comes before `y` in the result: larger first for `nlargest`
      (`desc`), smaller first for `nsmallest`. */
  predicate Before(x: Entry, y: Entry, desc: bool) {
    if desc then EntryLess(y, x) else EntryLess(x, y)
  }

  lemma BeforeStrictTotal(x: Entry, y: Entry, z: Entry, desc: bool)
    ensures !Before(x, x, desc)
    ensures Before(x, y, desc) && Before(y, z, desc) ==> Before(x, z, desc)
    ensures x != y ==> Before(x, y, desc) || Before(y, x, desc)
  {
    EntryLessStrictTotal(x, y, z);
    EntryLessStrictTotal(z, y, x);
  }

  /** No element comes before an earlier one. */
  predicate Sorted(s: seq<Entry>, desc: bool) {
    forall i, j | 0 <= i < j < |s| :: !Before(s[j], s[i], desc)
  }

  /** Insert `x` before the first element it does not come after. */
  function Insert(x: Entry, s: seq<Entry>, desc: bool): (r: seq<Entry>)
    ensures multiset(r) == multiset(s) + multiset{x}
    ensures |r| == |s| + 1
  {
    if s == [] || !Before(s[0], x, desc) then [x] + s
    else
      assert s == [s[0]] + s[1..];
      [s[0]] + Insert(x, s[1..], desc)
  }

  /** Putting in front an entry that nothing in a sorted sequence comes
      before keeps it sorted. */
  lemma SortedCons(x: Entry, t: seq<Entry>, desc: bool)
    requires Sorted(t, desc)
    requires forall j | 0 <= j < |t| :: !Before(t[j], x, desc)
    ensures Sorted([x] + t, desc)
  {
    var r := [x] + t;
    forall i, j | 0 <= i < j < |r|
      ensures !Before(r[j], r[i], desc)
    {
      if i > 0 {
        assert r[i] == t[i - 1] && r[j] == t[j - 1];
      }
    }
  }

  lemma {:induction false} InsertSorted(x: Entry, s: seq<Entry>, desc: bool)
    requires Sorted(s, desc)
    ensures Sorted(Insert(x, s, desc), desc)
    decreases |s|
  {
    if s == [] || !Before(s[0], x, desc) {
      forall j | 0 <= j < |s|
        ensures !Before(s[j], x, desc)
      {
        BeforeStrictTotal(s[j], x, s[0], desc);
        BeforeStrictTotal(x, s[0], s[0], desc);
      }
      SortedCons(x, s, desc);
    } else {
      var t := Insert(x, s[1..], desc);
      InsertSorted(x, s[1..], desc);
      forall j | 0 <= j < |t|
        ensures !Before(t[j], s[0], desc)
      {
        assert t[j] in multiset(t);
        if t[j] == x {
          BeforeStrictTotal(x, s[0], x, desc);
        } else {
          assert t[j] in multiset(s[1..]);
          var k :| 0 <= k < |s[1..]| && s[1..][k] == t[j];
          assert s[k + 1] == t[j];
        }
      }
      SortedCons(s[0], t, desc);
    }
  }

  /** The full sort that `nlargest` / `nsmallest` cut short (insertion sort). */
  function Sort(xs: seq<Entry>, desc: bool): (r: seq<Entry>)
    ensures |r| == |xs|
    ensures multiset(r) == multiset(xs)
    ensures Sorted(r, desc)
  {
    if xs == [] then []
    else
      assert xs == [xs[0]] + xs[1..];
      InsertSorted(xs[0], Sort(xs[1..], desc), desc);
      Insert(xs[0], Sort(xs[1..], desc), desc)
  }

  /** Nothing in a sorted sequence comes before its first element. */
  lemma SortedFirst(s: seq<Entry>, y: Entry, desc: bool)
    requires Sorted(s, desc) && y in multiset(s)
    ensures !Before(y, s[0], desc)
  {
    var j :| 0 <= j < |s| && s[j] == y;
    if j == 0 {
      BeforeStrictTotal(y, y, y, desc);
    }
  }

  lemma MultisetTail(s: seq<Entry>)
    requires s != []
    ensures multiset(s[1..]) == multiset(s) - multiset{s[0]}
  {
    assert s == [s[0]] + s[1..];
  }

  /** Two sorted sequences of the same entries start with the same entry. */
  lemma SortedSameHead(s: seq<Entry>, t: seq<Entry>, desc: bool)
    requires Sorted(s, desc) && Sorted(t, desc) && multiset(s) == multiset(t)
    requires s != []
    ensures t != [] && s[0] == t[0]
  {
    assert s[0] in multiset(t);
    SortedFirst(s, t[0], desc);
    SortedFirst(t, s[0], desc);
    BeforeStrictTotal(s[0], t[0], s[0], desc);
  }

  lemma SortedTail(s: seq<Entry>, desc: bool)
    requires Sorted(s, desc) && s != []
    ensures Sorted(s[1..], desc)
  {
    forall i, j | 0 <= i < j < |s[1..]|
      ensures !Before(s[1..][j], s[1..][i], desc)
    {
      assert s[1..][j] == s[j + 1] && s[1..][i] == s[i + 1];
    }
  }

  lemma HeadTailEqual(s: seq<Entry>, t: seq<Entry>)
    requires s != [] && t != [] && s[0] == t[0] && s[1..] == t[1..]
    ensures s == t
  {
    assert s == [s[0]] + s[1..] && t == [t[0]] + t[1..];
  }

  /** Two sorted sequences of the same entries are equal: the order admits no
      ties between distinct entries. */
  lemma {:induction false} SortedUnique(s: seq<Entry>, t: seq<Entry>, desc: bool)
    requires Sorted(s, desc) && Sorted(t, desc) && multiset(s) == multiset(t)
    ensures s == t
    decreases |s|
  {
    if s == [] {
      assert |t| == |multiset(t)| == 0;
    } else {
      SortedSameHead(s, t, desc);
      assert s[1..] == t[1..] by {
        MultisetTail(s);
        MultisetTail(t);
        SortedTail(s, desc);
        SortedTail(t, desc);
        SortedUnique(s[1..], t[1..], desc);
      }
      HeadTailEqual(s, t);
    }
  }

  function Min(a: nat, b: nat): nat {
    if a < b then a else b
  }

  /** `heapq.nlargest(k, xs)` (`desc`) or `heapq.nsmallest(k, xs)`: the first
      `min(k, n)` entries of the full sort. */
  function Select(k: nat, xs: seq<Entry>, desc: bool): seq<Entry> {
    Sort(xs, desc)[..Min(k, |xs|)]
  }

  /** The selection holds `min(k, n)` entries, in order. */
  lemma SelectSorted(k: nat, xs: seq<Entry>, desc: bool)
    ensures |Select(k, xs, desc)| == Min(k, |xs|)
    ensures Sorted(Select(k, xs, desc), desc)
  {
    SortedPrefix(Sort(xs, desc), Min(k, |xs|), desc);
  }

  /** Every entry of the selection is one of the input's, counted with
      multiplicity. */
  lemma SelectWithin(k: nat, xs: seq<Entry>, desc: bool)
    ensures multiset(Select(k, xs, desc)) <= multiset(xs)
  {
    var s, m := Sort(xs, desc), Min(k, |xs|);
    assert s == s[..m] + s[m..];
  }

  lemma SortedPrefix(s: seq<Entry>, m: nat, desc: bool)
    requires Sorted(s, desc) && m <= |s|
    ensures Sorted(s[..m], desc)
  {
  }

  /** An entry of a sorted sequence outside its first `m` entries comes
      before none of them. */
  lemma PrefixLeavesOutLater(s: seq<Entry>, m: nat, desc: bool, y: Entry, i: nat)
    requires Sorted(s, desc) && i < m <= |s|
    requires y in multiset(s) - multiset(s[..m])
    ensures !Before(y, s[i], desc)
  {
    assert y in multiset(s[m..]) by {
      assert s == s[..m] + s[m..];
    }
    var j :| 0 <= j < |s[m..]| && s[m..][j] == y;
    assert s[m + j] == y;
  }

  /** Every entry left out comes after every entry chosen. */
  lemma SelectLeavesOutLater(k: nat, xs: seq<Entry>, desc: bool, y: Entry, i: nat)
    requires var r := Select(k, xs, desc); y in multiset(xs) - multiset(r) && i < |r|
    ensures !Before(y, Select(k, xs, desc)[i], desc)
  {
    PrefixLeavesOutLater(Sort(xs, desc), Min(k, |xs|), desc, y, i);
  }

  /** The selection is the first `min(k, n)` entries of every full sort of the
      input, whatever algorithm produced that sort. */
  lemma SelectIsPrefixOfSort(k: nat, xs: seq<Entry>, s: seq<Entry>, desc: bool)
    requires Sorted(s, desc) && multiset(s) == multiset(xs)
    ensures Select(k, xs, desc) == s[..Min(k, |s|)]
  {
    SortedUnique(Sort(xs, desc), s, desc);
  }

  /** The selection depends only on which entries there are, not on the order
      in which the dictionary yields them. */
  lemma SelectOrderIndependent(k: nat, xs: seq<Entry>, ys: seq<Entry>, desc: bool)
    requires multiset(xs) == multiset(ys)
    ensures Select(k, xs, desc) == Select(k, ys, desc)
  {
    SortedUnique(Sort(xs, desc), Sort(ys, desc), desc);
    assert |xs| == |multiset(xs)| == |ys|;
  }

  /** `nlargest` and `nsmallest` return their entries in opposite orders of
      the same kind: an entry-wise reversal of one full sort is the other. */
  lemma SelectDirections(xs: seq<Entry>)
    ensures Sort(xs, false) == Reverse(Sort(xs, true))
  {
    var s := Sort(xs, true);
    ReverseFacts(s);
    forall i, j | 0 <= i < j < |s|
      ensures !Before(Reverse(s)[j], Reverse(s)[i], false)
    {
      assert Reverse(s)[j] == s[|s| - 1 - j] && Reverse(s)[i] == s[|s| - 1 - i];
    }
    SortedUnique(Sort(xs, false), Reverse(s), false);
  }

  function Reverse(s: seq<Entry>): seq<Entry> {
    if s == [] then [] else Reverse(s[1..]) + [s[0]]
  }

  lemma {:induction false} ReverseFacts(s: seq<Entry>)
    ensures |Reverse(s)| == |s|
    ensures forall i | 0 <= i < |s| :: Reverse(s)[i] == s[|s| - 1 - i]
    ensures multiset(Reverse(s)) == multiset(s)
    decreases |s|
  {
    if s != [] {
      ReverseFacts(s[1..]);
      assert s == [s[0]] + s[1..];
    }
  }

  /** The tuple `(s, uid, uname)` built from a user's total. */
  function UserEntry(user: UserKey, score: real): Entry {
    Entry(score, [user.0, user.1])
  }

  /** The tuple `(score, hour)` built from an hour's total. */
  function HourEntry(hour: string, score: real): Entry {
    Entry(score, [hour])
  }

  /** `xs` is the generator over a user map's items: each item once, in some order. */
  predicate ListsUsers(xs: seq<Entry>, users: map<UserKey, real>) {
    multiset(xs) == multiset(set u | u in users :: UserEntry(u, users[u]))
  }

  predicate ListsHours(xs: seq<Entry>, hours: map<string, real>) {
    multiset(xs) == multiset(set h | h in hours :: HourEntry(h, hours[h]))
  }

  /** The report's four lists, from the global maps in whatever order their
      items come. */
  datatype Report = Report(happiestUsers: seq<Entry>, saddestUsers: seq<Entry>,
                           happiestHours: seq<Entry>, saddestHours: seq<Entry>)

  function MakeReport(users: seq<Entry>, hours: seq<Entry>): Report {
    Report(Select(5, users, true), Select(5, users, false), Select(5, hours, true), Select(5, hours, false))
  }

  /** Any two listings of the same global maps give the same report. */
  lemma ReportDeterministic(users: map<UserKey, real>, hours: map<string, real>,
                            us: seq<Entry>, us': seq<Entry>, hs: seq<Entry>, hs': seq<Entry>)
    requires ListsUsers(us, users) && ListsUsers(us', users)
    requires ListsHours(hs, hours) && ListsHours(hs', hours)
    ensures MakeReport(us, hs) == MakeReport(us', hs')
  {
    SelectOrderIndependent(5, us, us', true);
    SelectOrderIndependent(5, us, us', false);
    SelectOrderIndependent(5, hs, hs', true);
    SelectOrderIndependent(5, hs, hs', false);
  }
}
