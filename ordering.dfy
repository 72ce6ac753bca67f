/** The display projection: the sort key of a record and the stable sort of the task
    list by that key, which builds a new sequence and leaves the store as it is. */
module Ordering {
  import opened Records

  // ----- Python's orders on the two kinds of key -----

  /** `a <= b` on Python strings: code point by code point, a proper prefix first. */
  predicate LexLe(a: string, b: string)
    decreases |a|
  {
    |a| == 0 || (|b| > 0 && (a[0] < b[0] || (a[0] == b[0] && LexLe(a[1..], b[1..]))))
  }

  /** `a` is a prefix of `b`. */
  predicate IsPrefix(a: string, b: string) {
    |a| <= |b| && a == b[..|a|]
  }

  /** `a` and `b` agree before position `k`, and `a` has the smaller character at `k`. */
  predicate LessAt(a: string, b: string, k: nat) {
    k < |a| && k < |b| && a[..k] == b[..k] && a[k] < b[k]
  }

  /** `LexLe` is Python's `<=` on strings: `a` is a prefix of `b`, or at the first
      position where they differ `a` has the smaller code point. */
  lemma {:induction false} LexLeIsPythonOrder(a: string, b: string)
    ensures LexLe(a, b) <==> IsPrefix(a, b) || exists k :: LessAt(a, b, k)
    decreases |a|
  {
    if |a| == 0 {
      assert IsPrefix(a, b);
    } else if |b| == 0 {
    } else if a[0] < b[0] {
      assert LessAt(a, b, 0);
    } else if a[0] > b[0] {
      assert forall k: nat :: !LessAt(a, b, k);
    } else {
      var a', b' := a[1..], b[1..];
      LexLeIsPythonOrder(a', b');
      assert a == [a[0]] + a';
      assert IsPrefix(a, b) <==> IsPrefix(a', b') by {
        if |a| <= |b| {
          assert b[..|a|] == [b[0]] + b'[..|a'|];
        }
      }
      forall k: nat | LessAt(a', b', k) ensures LessAt(a, b, k + 1) {
        assert a[..k + 1] == [a[0]] + a'[..k];
        assert b[..k + 1] == [b[0]] + b'[..k];
      }
      forall k: nat | LessAt(a, b, k) ensures k > 0 && LessAt(a', b', k - 1) {
        assert a'[..k - 1] == a[..k][1..];
        assert b'[..k - 1] == b[..k][1..];
      }
    }
  }

  lemma {:induction false} LexLeReflexive(a: string)
    ensures LexLe(a, a)
    decreases |a|
  {
    if |a| > 0 {
      LexLeReflexive(a[1..]);
    }
  }

  lemma {:induction false} LexLeTotal(a: string, b: string)
    ensures LexLe(a, b) || LexLe(b, a)
    decreases |a|
  {
    if |a| > 0 && |b| > 0 && a[0] == b[0] {
      LexLeTotal(a[1..], b[1..]);
    }
  }

  lemma {:induction false} LexLeAntisymmetric(a: string, b: string)
    requires LexLe(a, b) && LexLe(b, a)
    ensures a == b
    decreases |a|
  {
    if |a| > 0 {
      LexLeAntisymmetric(a[1..], b[1..]);
      assert a == [a[0]] + a[1..];
      assert b == [b[0]] + b[1..];
    }
  }

  lemma {:induction false} LexLeTransitive(a: string, b: string, c: string)
    requires LexLe(a, b) && LexLe(b, c)
    ensures LexLe(a, c)
    decreases |a|
  {
    if |a| > 0 && a[0] == b[0] && b[0] == c[0] {
      LexLeTransitive(a[1..], b[1..], c[1..]);
    }
  }

  /** `a <= b` on sort keys: datetimes chronologically, strings as strings. A datetime
      and a string are not comparable: Python raises TypeError. */
  predicate KeyLe(a: Value, b: Value)
    ensures KeyLe(a, b) ==> a.Stamp? == b.Stamp?
    ensures a.Stamp? && b.Stamp? ==> (KeyLe(a, b) <==> a.micros <= b.micros)
    ensures a.Text? && b.Text? ==> (KeyLe(a, b) <==> LexLe(a.text, b.text))
  {
    match (a, b)
    case (Stamp(x), Stamp(y)) => x <= y
    case (Text(s), Text(t)) => LexLe(s, t)
    case _ => false
  }

  lemma KeyLeReflexive(a: Value)
    ensures KeyLe(a, a)
  {
    if a.Text? {
      LexLeReflexive(a.text);
    }
  }

  lemma KeyLeTotal(a: Value, b: Value)
    requires a.Stamp? == b.Stamp?
    ensures KeyLe(a, b) || KeyLe(b, a)
  {
    if a.Text? {
      LexLeTotal(a.text, b.text);
    }
  }

  lemma KeyLeAntisymmetric(a: Value, b: Value)
    requires KeyLe(a, b) && KeyLe(b, a)
    ensures a == b
  {
    if a.Text? {
      LexLeAntisymmetric(a.text, b.text);
    }
  }

  lemma KeyLeTransitive(a: Value, b: Value, c: Value)
    requires KeyLe(a, b) && KeyLe(b, c)
    ensures KeyLe(a, c)
  {
    if a.Text? {
      LexLeTransitive(a.text, b.text, c.text);
    }
  }

  // ----- get_sort_value -----

  /** The sort key of a Deadlines value: a datetime as it is; text that `parse` (the
      strict "%Y-%m-%d %H:%M:%S" reader) accepts, as the datetime it denotes; any other
      text as itself. */
  function GetSortValue(v: Value, parse: string -> Option<int>): (k: Value)
    ensures k.Text? ==> k == v && parse(v.text).None?
    ensures k.Stamp? ==> k == v || (v.Text? && parse(v.text) == Some(k.micros))
    ensures v.Stamp? || parse(v.text).Some? ==> k.Stamp?
  {
    match v
    case Stamp(_) => v
    case Text(s) =>
      match parse(s)
      case Some(t) => Stamp(t)
      case None => v
  }

  /** Taking the sort key of a sort key changes nothing. */
  lemma SortValueIdempotent(v: Value, parse: string -> Option<int>)
    ensures GetSortValue(GetSortValue(v, parse), parse) == GetSortValue(v, parse)
  {
  }

  /** The sort key of every record, in store order. */
  function Keys(tasks: seq<Task>, parse: string -> Option<int>): (keys: seq<Value>)
    ensures |keys| == |tasks|
    ensures forall i :: 0 <= i < |tasks| ==> keys[i] == GetSortValue(tasks[i].deadline, parse)
  {
    seq(|tasks|, i requires 0 <= i < |tasks| => GetSortValue(tasks[i].deadline, parse))
  }

  /** All keys are of one kind, so that every pair of them can be compared. */
  predicate Uniform(keys: seq<Value>)
    ensures Uniform(keys) <==>
      forall i, j :: 0 <= i < |keys| && 0 <= j < |keys| ==> keys[i].Stamp? == keys[j].Stamp?
  {
    || (forall i :: 0 <= i < |keys| ==> keys[i].Stamp?)
    || (forall i :: 0 <= i < |keys| ==> keys[i].Text?)
  }

  // ----- the stable sort, on store indices -----

  /** Every element of `s` is an index below `n`. */
  predicate InRange(s: seq<nat>, n: nat) {
    forall p :: 0 <= p < |s| ==> s[p] < n
  }

  /** 0, 1, ..., n - 1. */
  function Indices(n: nat): (r: seq<nat>)
    ensures |r| == n
    ensures forall k :: 0 <= k < n ==> r[k] == k
  {
    if n == 0 then [] else Indices(n - 1) + [n - 1]
  }

  /** Record `i` goes before record `j` in a stable sort: its key is smaller, or the
      keys are equal and `i` comes first in the store. */
  predicate Before(keys: seq<Value>, i: nat, j: nat)
    requires i < |keys| && j < |keys|
  {
    || (KeyLe(keys[i], keys[j]) && keys[i] != keys[j])
    || (keys[i] == keys[j] && i < j)
  }

  lemma BeforeAsymmetric(keys: seq<Value>, i: nat, j: nat)
    requires i < |keys| && j < |keys|
    requires Before(keys, i, j)
    ensures !Before(keys, j, i)
  {
    if Before(keys, j, i) && keys[i] != keys[j] {
      KeyLeAntisymmetric(keys[i], keys[j]);
    }
  }

  lemma BeforeTransitive(keys: seq<Value>, i: nat, j: nat, k: nat)
    requires i < |keys| && j < |keys| && k < |keys|
    requires Before(keys, i, j) && Before(keys, j, k)
    ensures Before(keys, i, k)
  {
    KeyLeReflexive(keys[i]);
    KeyLeReflexive(keys[j]);
    KeyLeTransitive(keys[i], keys[j], keys[k]);
    if keys[i] == keys[k] && keys[i] != keys[j] {
      KeyLeAntisymmetric(keys[i], keys[j]);
    }
  }

  lemma BeforeTotal(keys: seq<Value>, i: nat, j: nat)
    requires i < |keys| && j < |keys| && i != j
    requires Uniform(keys)
    ensures Before(keys, i, j) || Before(keys, j, i)
  {
    KeyLeTotal(keys[i], keys[j]);
  }

  /** `s` lists indices of `keys` in strictly increasing `Before` order. */
  predicate Sorted(keys: seq<Value>, s: seq<nat>) {
    && InRange(s, |keys|)
    && forall p, q :: 0 <= p < q < |s| ==> Before(keys, s[p], s[q])
  }

  /** Insert index `i` into `s` ahead of the first index it goes before. */
  function Insert(keys: seq<Value>, i: nat, s: seq<nat>): (r: seq<nat>)
    requires i < |keys| && InRange(s, |keys|)
    ensures |r| == |s| + 1
    ensures InRange(r, |keys|)
  {
    if s == [] then [i]
    else if Before(keys, i, s[0]) then [i] + s
    else [s[0]] + Insert(keys, i, s[1..])
  }

  lemma {:induction false} InsertMultiset(keys: seq<Value>, i: nat, s: seq<nat>)
    requires i < |keys| && InRange(s, |keys|)
    ensures multiset(Insert(keys, i, s)) == multiset(s) + multiset{i}
    decreases |s|
  {
    if s != [] && !Before(keys, i, s[0]) {
      InsertMultiset(keys, i, s[1..]);
      assert s == [s[0]] + s[1..];
    }
  }

  /** Inserting adds `i` and nothing else. */
  lemma InsertElement(keys: seq<Value>, i: nat, s: seq<nat>, p: nat)
    requires i < |keys| && InRange(s, |keys|) && p < |s| + 1
    ensures Insert(keys, i, s)[p] == i || Insert(keys, i, s)[p] in s
  {
    InsertMultiset(keys, i, s);
    assert Insert(keys, i, s)[p] in multiset(Insert(keys, i, s));
  }

  /** The order in which the first `n` records are displayed, as store indices:
      a stable insertion sort by key. */
  function SortOrder(keys: seq<Value>, n: nat): (r: seq<nat>)
    requires n <= |keys|
    ensures |r| == n
    ensures InRange(r, |keys|)
  {
    if n == 0 then [] else Insert(keys, n - 1, SortOrder(keys, n - 1))
  }

  /** The display order lists each of the first `n` store indices exactly once. */
  lemma {:induction false} SortOrderPermutes(keys: seq<Value>, n: nat)
    requires n <= |keys|
    ensures multiset(SortOrder(keys, n)) == multiset(Indices(n))
    ensures InRange(SortOrder(keys, n), n)
  {
    if n > 0 {
      var s := SortOrder(keys, n - 1);
      SortOrderPermutes(keys, n - 1);
      InsertMultiset(keys, n - 1, s);
      assert Indices(n) == Indices(n - 1) + [n - 1];
      var r := SortOrder(keys, n);
      forall p | 0 <= p < |r| ensures r[p] < n {
        InsertElement(keys, n - 1, s, p);
        if r[p] != n - 1 {
          var k :| 0 <= k < |s| && s[k] == r[p];
        }
      }
    }
  }

  lemma {:induction false} InsertSorted(keys: seq<Value>, i: nat, s: seq<nat>)
    requires Uniform(keys)
    requires i < |keys| && Sorted(keys, s) && i !in s
    ensures Sorted(keys, Insert(keys, i, s))
    decreases |s|
  {
    if s != [] {
      var r := Insert(keys, i, s);
      if Before(keys, i, s[0]) {
        forall p, q | 0 <= p < q < |r| ensures Before(keys, r[p], r[q]) {
          if p == 0 && q > 1 {
            BeforeTransitive(keys, i, s[0], s[q - 1]);
          }
        }
      } else {
        BeforeTotal(keys, i, s[0]);
        var tail := Insert(keys, i, s[1..]);
        InsertSorted(keys, i, s[1..]);
        assert r == [s[0]] + tail;
        forall q | 0 < q < |r| ensures Before(keys, s[0], r[q]) {
          assert r[q] == tail[q - 1];
          InsertElement(keys, i, s[1..], q - 1);
          if tail[q - 1] != i {
            var m :| 0 <= m < |s[1..]| && s[1..][m] == tail[q - 1];
            assert s[m + 1] == tail[q - 1];
          }
        }
      }
    }
  }

  lemma SortOrderOmits(keys: seq<Value>, n: nat)
    requires n <= |keys|
    ensures n !in SortOrder(keys, n)
  {
    SortOrderPermutes(keys, n);
  }

  lemma {:induction false} SortOrderSorted(keys: seq<Value>, n: nat)
    requires Uniform(keys) && n <= |keys|
    ensures Sorted(keys, SortOrder(keys, n))
  {
    if n > 0 {
      SortOrderSorted(keys, n - 1);
      SortOrderOmits(keys, n - 1);
      InsertSorted(keys, n - 1, SortOrder(keys, n - 1));
    }
  }

  /** The elements of `xs` at the indices `order`, in that order. */
  function Pick<T>(xs: seq<T>, order: seq<nat>): (r: seq<T>)
    requires InRange(order, |xs|)
    ensures |r| == |order|
  {
    if order == [] then [] else [xs[order[0]]] + Pick(xs, order[1..])
  }

  lemma {:induction false} PickAt<T>(xs: seq<T>, order: seq<nat>, p: nat)
    requires InRange(order, |xs|) && p < |order|
    ensures Pick(xs, order)[p] == xs[order[p]]
    decreases p
  {
    if p > 0 {
      PickAt(xs, order[1..], p - 1);
    }
  }

  lemma PickCons<T>(xs: seq<T>, x: nat, s: seq<nat>)
    requires x < |xs| && InRange(s, |xs|)
    ensures InRange([x] + s, |xs|)
    ensures Pick(xs, [x] + s) == [xs[x]] + Pick(xs, s)
  {
    assert ([x] + s)[1..] == s;
  }

  lemma {:induction false} PickInsert<T>(xs: seq<T>, keys: seq<Value>, i: nat, s: seq<nat>)
    requires |xs| == |keys| && i < |keys| && InRange(s, |keys|)
    ensures multiset(Pick(xs, Insert(keys, i, s))) == multiset(Pick(xs, s)) + multiset{xs[i]}
    decreases |s|
  {
    if s == [] {
    } else if Before(keys, i, s[0]) {
      PickConsMultiset(xs, i, s);
    } else {
      var tail := Insert(keys, i, s[1..]);
      PickInsert(xs, keys, i, s[1..]);
      PickConsMultiset(xs, s[0], tail);
      assert s == [s[0]] + s[1..];
      PickConsMultiset(xs, s[0], s[1..]);
    }
  }

  lemma PickConsMultiset<T>(xs: seq<T>, x: nat, s: seq<nat>)
    requires x < |xs| && InRange(s, |xs|)
    ensures InRange([x] + s, |xs|)
    ensures multiset(Pick(xs, [x] + s)) == multiset{xs[x]} + multiset(Pick(xs, s))
  {
    PickCons(xs, x, s);
  }

  lemma TakeLast<T>(xs: seq<T>, n: nat)
    requires 0 < n <= |xs|
    ensures xs[..n] == xs[..n - 1] + [xs[n - 1]]
  {
  }

  lemma {:induction false} PickSortOrder<T>(xs: seq<T>, keys: seq<Value>, n: nat)
    requires |xs| == |keys| && n <= |keys|
    ensures multiset(Pick(xs, SortOrder(keys, n))) == multiset(xs[..n])
  {
    if n > 0 {
      PickSortOrder(xs, keys, n - 1);
      PickInsert(xs, keys, n - 1, SortOrder(keys, n - 1));
      TakeLast(xs, n);
    }
  }

  lemma MultisetTail(s: seq<nat>)
    requires s != []
    ensures multiset(s) == multiset{s[0]} + multiset(s[1..])
  {
    assert s == [s[0]] + s[1..];
  }

  /** Two sorted index lists holding the same indices start with the same index. */
  lemma SortedSameHead(keys: seq<Value>, a: seq<nat>, b: seq<nat>)
    requires Sorted(keys, a) && Sorted(keys, b) && multiset(a) == multiset(b) && a != []
    ensures b != [] && a[0] == b[0]
  {
    assert a[0] in multiset(b);
    var k :| 0 <= k < |b| && b[k] == a[0];
    assert b[0] in multiset(a);
    var m :| 0 <= m < |a| && a[m] == b[0];
    if k != 0 {
      assert Before(keys, b[0], b[k]);
      if m != 0 {
        assert Before(keys, a[0], a[m]);
        BeforeAsymmetric(keys, a[0], a[m]);
      }
      assert false;
    }
  }

  /** Two index lists that are both strictly `Before`-sorted and hold the same indices
      are the same list. */
  lemma {:induction false} SortedUnique(keys: seq<Value>, a: seq<nat>, b: seq<nat>)
    requires Sorted(keys, a) && Sorted(keys, b) && multiset(a) == multiset(b)
    ensures a == b
    decreases |a|
  {
    if a != [] {
      SortedSameHead(keys, a, b);
      MultisetTail(a);
      MultisetTail(b);
      assert multiset(a[1..]) == multiset(a) - multiset{a[0]};
      assert multiset(b[1..]) == multiset(b) - multiset{b[0]};
      SortedUnique(keys, a[1..], b[1..]);
      assert a == [a[0]] + a[1..];
      assert b == [b[0]] + b[1..];
    } else {
      assert |b| == |multiset(b)| == |multiset(a)| == 0;
    }
  }

  /** `order` lists every index of `keys` exactly once, by non-decreasing key, records
      with equal keys in store order: what any stable sort produces. */
  predicate StablySorted(keys: seq<Value>, order: seq<nat>) {
    && multiset(order) == multiset(Indices(|keys|))
    && InRange(order, |keys|)
    && (forall p, q :: 0 <= p < q < |order| ==> KeyLe(keys[order[p]], keys[order[q]]))
    && (forall p, q :: 0 <= p < q < |order| && keys[order[p]] == keys[order[q]] ==> order[p] < order[q])
  }

  lemma SortedIsStablySorted(keys: seq<Value>, order: seq<nat>)
    requires Sorted(keys, order) && multiset(order) == multiset(Indices(|keys|))
    ensures StablySorted(keys, order)
  {
    forall p, q | 0 <= p < q < |order| ensures KeyLe(keys[order[p]], keys[order[q]]) {
      KeyLeReflexive(keys[order[p]]);
    }
  }

  lemma StablySortedIsSorted(keys: seq<Value>, order: seq<nat>)
    requires StablySorted(keys, order)
    ensures Sorted(keys, order)
  {
    forall p, q | 0 <= p < q < |order| ensures Before(keys, order[p], order[q]) {
    }
  }

  /** The insertion sort is a stable sort, and it is the only one: every stable sort
      (Python's `sorted` among them) gives this same order. */
  lemma SortOrderIsTheStableSort(keys: seq<Value>, order: seq<nat>)
    requires Uniform(keys)
    ensures StablySorted(keys, SortOrder(keys, |keys|))
    ensures StablySorted(keys, order) ==> order == SortOrder(keys, |keys|)
  {
    var r := SortOrder(keys, |keys|);
    SortOrderSorted(keys, |keys|);
    SortOrderPermutes(keys, |keys|);
    SortedIsStablySorted(keys, r);
    if StablySorted(keys, order) {
      StablySortedIsSorted(keys, order);
      SortedUnique(keys, order, r);
    }
  }

  // ----- the display projection -----

  /** `sorted(tasks, key=...)` over the Deadlines sort keys: a new sequence, or the
      TypeError a comparison of a datetime with a string raises. */
  function Display(tasks: seq<Task>, parse: string -> Option<int>): (r: Result<seq<Task>>)
    ensures r.Ok? ==> |r.value| == |tasks|
  {
    var keys := Keys(tasks, parse);
    if Uniform(keys) then Ok(Pick(tasks, SortOrder(keys, |keys|))) else Err(TypeError)
  }

  /** The projection fails exactly when keys of both kinds occur; otherwise it is the
      store rearranged by a stable sort on the sort key. */
  lemma DisplayIsStableSort(tasks: seq<Task>, parse: string -> Option<int>)
    ensures Display(tasks, parse).Ok? <==> Uniform(Keys(tasks, parse))
    ensures Display(tasks, parse).Err? ==> Display(tasks, parse).error == TypeError
    ensures Display(tasks, parse).Ok? ==>
      var shown, keys := Display(tasks, parse).value, Keys(tasks, parse);
      var order := SortOrder(keys, |keys|);
      && StablySorted(keys, order)
      && |shown| == |tasks|
      && multiset(shown) == multiset(tasks)
      && (forall p :: 0 <= p < |shown| ==> shown[p] == tasks[order[p]])
      && (forall p, q :: 0 <= p < q < |shown| ==>
            KeyLe(GetSortValue(shown[p].deadline, parse), GetSortValue(shown[q].deadline, parse)))
  {
    var keys := Keys(tasks, parse);
    if Uniform(keys) {
      var order := SortOrder(keys, |keys|);
      var shown := Pick(tasks, order);
      SortOrderIsTheStableSort(keys, order);
      PickSortOrder(tasks, keys, |keys|);
      assert tasks[..|tasks|] == tasks;
      forall p | 0 <= p < |shown| ensures shown[p] == tasks[order[p]] {
        PickAt(tasks, order, p);
      }
    }
  }

  /** A store with a datetime key and a text key cannot be displayed. */
  lemma MixedKeysRaise(tasks: seq<Task>, parse: string -> Option<int>, i: nat, j: nat)
    requires i < |tasks| && j < |tasks|
    requires GetSortValue(tasks[i].deadline, parse).Stamp?
    requires GetSortValue(tasks[j].deadline, parse).Text?
    ensures Display(tasks, parse) == Err(TypeError)
  {
    var keys := Keys(tasks, parse);
    assert !keys[j].Stamp? && !keys[i].Text?;
  }

  /** The store index of the record shown at display row `row`. */
  function ShownIndex(tasks: seq<Task>, parse: string -> Option<int>, row: nat): (j: nat)
    requires Display(tasks, parse).Ok? && row < |tasks|
    ensures j < |tasks|
    ensures tasks[j] == Display(tasks, parse).value[row]
  {
    var order := SortOrder(Keys(tasks, parse), |tasks|);
    PickAt(tasks, order, row);
    order[row]
  }
}
