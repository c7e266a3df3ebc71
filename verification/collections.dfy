/** Sequence operations the source takes from JavaScript arrays: findIndex by
    id, the replace-or-append upsert built on it, filter, and the
    first-encounter de-duplication that an insertion-ordered Map performs on
    its keys. Records are compared by a key function (their id).
 */
module Collections {

  /** Some element of `s` has key `id`. */
  predicate HasKey<T>(s: seq<T>, key: T -> string, id: string) {
    exists j :: 0 <= j < |s| && key(s[j]) == id
  }

  /** Every key occurs at most once in `s`. */
  predicate UniqueKeys<T>(s: seq<T>, key: T -> string) {
    forall i, j :: 0 <= i < j < |s| ==> key(s[i]) != key(s[j])
  }

  /** Index of the first element whose key is `id`, or -1 when none has it. */
  function FindIndex<T>(s: seq<T>, key: T -> string, id: string): (r: int)
    ensures -1 <= r < |s|
    ensures r == -1 <==> !HasKey(s, key, id)
    ensures 0 <= r ==> key(s[r]) == id && forall j :: 0 <= j < r ==> key(s[j]) != id
    decreases |s|
  {
    if |s| == 0 then -1
    else if key(s[0]) == id then 0
    else
      var k := FindIndex(s[1..], key, id);
      if k < 0 then -1 else k + 1
  }

  /** An index whose key is `id` and that no earlier key matches is the first match. */
  lemma FindIndexIsFirst<T>(s: seq<T>, key: T -> string, id: string, k: int)
    requires 0 <= k < |s| && key(s[k]) == id
    requires forall j :: 0 <= j < k ==> key(s[j]) != id
    ensures FindIndex(s, key, id) == k
  {
    assert HasKey(s, key, id);
  }

  /** The first-match index is determined by the keys alone. */
  lemma FindIndexSameKeys<T>(s: seq<T>, s': seq<T>, key: T -> string, id: string)
    requires |s| == |s'|
    requires forall j :: 0 <= j < |s| ==> key(s[j]) == key(s'[j])
    ensures FindIndex(s, key, id) == FindIndex(s', key, id)
  {
    if HasKey(s, key, id) {
      FindIndexIsFirst(s', key, id, FindIndex(s, key, id));
    } else if HasKey(s', key, id) {
      FindIndexIsFirst(s, key, id, FindIndex(s', key, id));
    }
  }

  /** Appending an element does not move an existing first match. */
  lemma FindIndexSnoc<T>(s: seq<T>, x: T, key: T -> string, id: string)
    ensures FindIndex(s + [x], key, id) ==
      if HasKey(s, key, id) then FindIndex(s, key, id)
      else if key(x) == id then |s| else -1
  {
    var s' := s + [x];
    if HasKey(s, key, id) {
      FindIndexIsFirst(s', key, id, FindIndex(s, key, id));
    } else if key(x) == id {
      FindIndexIsFirst(s', key, id, |s|);
    } else {
      assert forall j :: 0 <= j < |s'| ==> key(s'[j]) != id by {
        forall j | 0 <= j < |s'| ensures key(s'[j]) != id {
          if j < |s| { assert s'[j] == s[j]; }
        }
      }
    }
  }

  /** Save semantics (replace the first element with the same key, otherwise
      append): the shared body of saveIngrediente and saveFormula. */
  function Upsert<T>(s: seq<T>, key: T -> string, x: T): (r: seq<T>)
    ensures HasKey(s, key, key(x)) ==>
      && |r| == |s|
      && r[FindIndex(s, key, key(x))] == x
      && forall j :: 0 <= j < |s| && j != FindIndex(s, key, key(x)) ==> r[j] == s[j]
    ensures !HasKey(s, key, key(x)) ==> r == s + [x]
  {
    var k := FindIndex(s, key, key(x));
    if k >= 0 then s[k := x] else s + [x]
  }

  /** `r` is `s` with some elements left out and the rest in their order. */
  ghost predicate Subseq<T>(r: seq<T>, s: seq<T>)
    decreases |s|
  {
    if |r| == 0 then true
    else if |s| == 0 then false
    else if r[0] == s[0] then Subseq(r[1..], s[1..])
    else Subseq(r, s[1..])
  }

  /** The elements of `s` that `keep` accepts, in their original order. */
  function Filter<T(!new)>(s: seq<T>, keep: T -> bool): (r: seq<T>)
    ensures |r| <= |s|
    ensures forall x :: x in r <==> x in s && keep(x)
    ensures forall x :: multiset(r)[x] == if keep(x) then multiset(s)[x] else 0
    ensures Subseq(r, s)
    decreases |s|
  {
    if |s| == 0 then []
    else
      assert s == [s[0]] + s[1..];
      var rest := Filter(s[1..], keep);
      if keep(s[0]) then
        assert ([s[0]] + rest)[1..] == rest;
        [s[0]] + rest
      else
        assert |rest| > 0 ==> rest[0] in rest && rest[0] != s[0];
        rest
  }

  /** Filtering a sequence with a known first element. */
  lemma FilterCons<T(!new)>(x: T, s: seq<T>, keep: T -> bool)
    ensures Filter([x] + s, keep) == (if keep(x) then [x] else []) + Filter(s, keep)
  {
    assert ([x] + s)[1..] == s;
  }

  /** Filtering distributes over concatenation, so relative order is kept. */
  lemma {:induction false} FilterAppend<T(!new)>(a: seq<T>, b: seq<T>, keep: T -> bool)
    ensures Filter(a + b, keep) == Filter(a, keep) + Filter(b, keep)
    decreases |a|
  {
    if |a| == 0 {
      assert a + b == b;
    } else {
      var x, rest := a[0], a[1..];
      assert a == [x] + rest;
      assert a + b == [x] + (rest + b);
      var head: seq<T> := if keep(x) then [x] else [];
      var fr, fb := Filter(rest, keep), Filter(b, keep);
      assert Filter(a + b, keep) == head + Filter(rest + b, keep) by {
        FilterCons(x, rest + b, keep);
      }
      assert Filter(rest + b, keep) == fr + fb by {
        FilterAppend(rest, b, keep);
      }
      assert Filter(a, keep) == head + fr by {
        FilterCons(x, rest, keep);
      }
      AppendAssociates(head, fr, fb);
    }
  }

  /** Concatenation regrouped; kept as a lemma so that callers do not pay
      for the extensionality argument in a larger context. */
  lemma AppendAssociates<T>(a: seq<T>, b: seq<T>, c: seq<T>)
    ensures a + (b + c) == (a + b) + c
  {
  }

  lemma AppendEmptyMiddle<T>(a: seq<T>, b: seq<T>)
    ensures a + [] + b == a + b
  {
  }

  /** The head and tail of a concatenation whose left part is non-empty. */
  lemma AppendSplitsHead<T>(a: seq<T>, b: seq<T>)
    requires |a| > 0
    ensures (a + b)[0] == a[0] && (a + b)[1..] == a[1..] + b
  {
  }

  /** When `keep` accepts everything, filtering changes nothing. */
  lemma {:induction false} FilterKeepsAll<T(!new)>(s: seq<T>, keep: T -> bool)
    requires forall j :: 0 <= j < |s| ==> keep(s[j])
    ensures Filter(s, keep) == s
    decreases |s|
  {
    if |s| > 0 {
      FilterKeepsAll(s[1..], keep);
    }
  }

  /** Filtering a second time with the same test changes nothing. */
  lemma FilterIdempotent<T(!new)>(s: seq<T>, keep: T -> bool)
    ensures Filter(Filter(s, keep), keep) == Filter(s, keep)
  {
    var r := Filter(s, keep);
    forall j | 0 <= j < |r|
      ensures keep(r[j])
    {
      assert r[j] in r;
    }
    FilterKeepsAll(r, keep);
  }

  /** A filter keeps a key-unique sequence key-unique. */
  lemma {:induction false} FilterUniqueKeys<T(!new)>(s: seq<T>, key: T -> string, keep: T -> bool)
    requires UniqueKeys(s, key)
    ensures UniqueKeys(Filter(s, keep), key)
    decreases |s|
  {
    if |s| > 0 {
      var rest := Filter(s[1..], keep);
      assert UniqueKeys(s[1..], key);
      FilterUniqueKeys(s[1..], key, keep);
      if keep(s[0]) {
        forall j | 0 <= j < |rest|
          ensures key(rest[j]) != key(s[0])
        {
          var y := rest[j];
          assert y in s[1..] by {
            assert y in rest;
          }
          var i :| 0 <= i < |s| - 1 && s[1..][i] == y;
          assert s[i + 1] == y;
        }
        var r := [s[0]] + rest;
        assert Filter(s, keep) == r;
        forall a, b | 0 <= a < b < |r| ensures key(r[a]) != key(r[b]) {
          if a == 0 {
            assert r[b] == rest[b - 1];
          } else {
            assert r[a] == rest[a - 1] && r[b] == rest[b - 1];
          }
        }
      }
    }
  }

  /** No value occurs twice. */
  predicate NoDup(s: seq<string>) {
    forall i, j :: 0 <= i < j < |s| ==> s[i] != s[j]
  }

  function Itself(x: string): string { x }

  /** Index of the first occurrence of `x` in `s`, or -1. */
  function Position(s: seq<string>, x: string): int {
    FindIndex(s, Itself, x)
  }

  lemma PositionSnoc(p: seq<string>, x: string, y: string)
    ensures y in p ==> Position(p + [x], y) == Position(p, y)
    ensures x !in p ==> Position(p + [x], x) == |p|
    ensures y in p ==> 0 <= Position(p, y) < |p|
  {
    FindIndexSnoc(p, x, Itself, y);
    FindIndexSnoc(p, x, Itself, x);
    if y in p {
      var i :| 0 <= i < |p| && p[i] == y;
      assert Itself(p[i]) == y;
    }
    if x !in p {
      assert !HasKey(p, Itself, x);
    }
  }

  /** The distinct values of `s`, each once, in the order they first occur:
      the key order of an insertion-ordered Map fed the values of `s`. */
  function Dedup(s: seq<string>): (r: seq<string>)
    ensures NoDup(r)
    ensures forall x :: x in r <==> x in s
    ensures forall i, j :: 0 <= i < j < |r| ==> Position(s, r[i]) < Position(s, r[j])
    decreases |s|
  {
    if |s| == 0 then []
    else
      var p := s[..|s| - 1];
      var last := s[|s| - 1];
      assert s == p + [last];
      var d := Dedup(p);
      if last in p then
        DedupSnocSeen(p, last, d);
        d
      else
        DedupSnocNew(p, last, d);
        d + [last]
  }

  /** The order property of Dedup survives a value already seen. */
  lemma DedupSnocSeen(p: seq<string>, last: string, d: seq<string>)
    requires forall x :: x in d <==> x in p
    requires forall i, j :: 0 <= i < j < |d| ==> Position(p, d[i]) < Position(p, d[j])
    ensures forall i, j :: 0 <= i < j < |d| ==> Position(p + [last], d[i]) < Position(p + [last], d[j])
  {
    forall i | 0 <= i < |d| ensures Position(p + [last], d[i]) == Position(p, d[i]) {
      assert d[i] in d;
      PositionSnoc(p, last, d[i]);
    }
  }

  /** The order property of Dedup survives a new value added at the end. */
  lemma DedupSnocNew(p: seq<string>, last: string, d: seq<string>)
    requires last !in p
    requires NoDup(d)
    requires forall x :: x in d <==> x in p
    requires forall i, j :: 0 <= i < j < |d| ==> Position(p, d[i]) < Position(p, d[j])
    ensures NoDup(d + [last])
    ensures forall i, j :: 0 <= i < j < |d + [last]| ==>
      Position(p + [last], (d + [last])[i]) < Position(p + [last], (d + [last])[j])
  {
    var s, r := p + [last], d + [last];
    forall i | 0 <= i < |d| ensures Position(s, d[i]) == Position(p, d[i]) < |p| {
      assert d[i] in d;
      PositionSnoc(p, last, d[i]);
    }
    PositionSnoc(p, last, last);
    forall i, j | 0 <= i < j < |r|
      ensures Position(s, r[i]) < Position(s, r[j])
    {
      if j < |d| {
        assert r[i] == d[i] && r[j] == d[j];
      } else {
        assert r[i] == d[i];
      }
    }
    forall i, j | 0 <= i < j < |r| ensures r[i] != r[j] {
      if j == |d| {
        assert r[i] == d[i] && d[i] in d;
      } else {
        assert r[i] == d[i] && r[j] == d[j];
      }
    }
  }
}
