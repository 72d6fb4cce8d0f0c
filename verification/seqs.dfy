/** Small sequence helpers shared by the puzzle models. */
module Seqs {

  /** No element occurs twice. */
  predicate Distinct<T(==)>(s: seq<T>) {
    forall i, j | 0 <= i < j < |s| :: s[i] != s[j]
  }

  /** Putting `s`'s last element after a rearrangement of its front, with `q` added, rearranges `s` with `q` added. */
  lemma MultisetSnoc<T>(s: seq<T>, ins: seq<T>, q: T)
    requires |s| > 0
    requires multiset(ins) == multiset(s[..|s| - 1]) + multiset{q}
    ensures multiset(ins + [s[|s| - 1]]) == multiset(s) + multiset{q}
  {
    FrontLast(s);
  }

  /** Appending an element not yet present keeps a sequence duplicate-free. */
  lemma DistinctSnoc<T>(s: seq<T>, x: T)
    requires Distinct(s) && x !in s
    ensures Distinct(s + [x])
  {
    var t := s + [x];
    forall i, j | 0 <= i < j < |t|
      ensures t[i] != t[j]
    {
      assert t[i] == s[i];
    }
  }

  /**
   * Putting in front an element whose key is table entry `k` onto distinct
   * elements keyed by later entries keeps them distinct and keyed from `k` on,
   * provided entry `k` does not recur later in the table.
   */
  lemma ConsKeyed<T, K>(key: T -> K, table: seq<K>, k: nat, head: T, rest: seq<T>)
    requires k < |table| && table[k] !in table[k + 1..]
    requires key(head) == table[k]
    requires forall i | 0 <= i < |rest| :: key(rest[i]) in table[k + 1..]
    requires Distinct(rest)
    ensures forall i | 0 <= i < |rest| + 1 :: key(([head] + rest)[i]) in table[k..]
    ensures Distinct([head] + rest)
  {
    var r := [head] + rest;
    SuffixCons(table, k);
    forall i, j | 0 <= i < j < |r|
      ensures r[i] != r[j]
    {
      assert r[j] == rest[j - 1];
      if i > 0 {
        assert r[i] == rest[i - 1];
      } else {
        assert key(rest[j - 1]) in table[k + 1..];
      }
    }
    forall i | 0 <= i < |r|
      ensures key(r[i]) in table[k..]
    {
      if i > 0 {
        assert r[i] == rest[i - 1];
      }
    }
  }

  /** Every element of `t` is related to the one after it by `step`. */
  predicate Chain<T>(step: (T, T) -> bool, t: seq<T>) {
    forall i | 0 <= i < |t| - 1 :: step(t[i], t[i + 1])
  }

  /** A chain extended by an element its last element is related to is a chain. */
  lemma ChainSnoc<T>(step: (T, T) -> bool, t: seq<T>, m: T)
    requires |t| > 0 && Chain(step, t)
    requires step(t[|t| - 1], m)
    ensures Chain(step, t + [m])
  {
    var t' := t + [m];
    forall i | 0 <= i < |t'| - 1
      ensures step(t'[i], t'[i + 1])
    {
      assert t'[i] == t[i];
      if i + 1 < |t| {
        assert t'[i + 1] == t[i + 1];
      }
    }
  }

  /** `Vec::retain`: keeps, in their original order, exactly the elements satisfying `keep`. */
  function Retain<T(==,!new)>(s: seq<T>, keep: T -> bool): (r: seq<T>)
    ensures |r| <= |s|
    ensures forall i | 0 <= i < |r| :: r[i] in s && keep(r[i])
    ensures forall i | 0 <= i < |s| && keep(s[i]) :: s[i] in r
    ensures forall x :: multiset(r)[x] == if keep(x) then multiset(s)[x] else 0
    ensures Distinct(s) ==> Distinct(r)
  {
    if |s| == 0 then []
    else
      var rest := Retain(s[1..], keep);
      HeadTail(s);
      var r := if keep(s[0]) then [s[0]] + rest else rest;
      RetainConsCounts(s, keep, rest, r);
      RetainConsKept(s, keep, rest, r);
      RetainConsFound(s, keep, rest, r);
      RetainConsDistinct(s, keep, rest, r);
      r
  }

  /** One step of `Retain`'s count clause: prepending `s[0]` exactly when it is kept. */
  lemma RetainConsCounts<T>(s: seq<T>, keep: T -> bool, rest: seq<T>, r: seq<T>)
    requires |s| > 0
    requires forall x :: multiset(rest)[x] == if keep(x) then multiset(s[1..])[x] else 0
    requires r == if keep(s[0]) then [s[0]] + rest else rest
    ensures forall x :: multiset(r)[x] == if keep(x) then multiset(s)[x] else 0
  {
    assert s == [s[0]] + s[1..];
    assert multiset(s) == multiset{s[0]} + multiset(s[1..]);
    if keep(s[0]) {
      assert multiset(r) == multiset{s[0]} + multiset(rest);
    }
  }

  /** One step of `Retain`'s clause that everything kept comes from `s` and satisfies `keep`. */
  lemma RetainConsKept<T>(s: seq<T>, keep: T -> bool, rest: seq<T>, r: seq<T>)
    requires |s| > 0
    requires forall i | 0 <= i < |rest| :: rest[i] in s[1..] && keep(rest[i])
    requires r == if keep(s[0]) then [s[0]] + rest else rest
    ensures forall i | 0 <= i < |r| :: r[i] in s && keep(r[i])
  {
    forall i | 0 <= i < |r|
      ensures r[i] in s && keep(r[i])
    {
      if keep(s[0]) && i == 0 {
      } else {
        var k := if keep(s[0]) then i - 1 else i;
        assert r[i] == rest[k];
        assert rest[k] in s[1..];
      }
    }
  }

  /** One step of `Retain`'s clause that every element of `s` satisfying `keep` is kept. */
  lemma RetainConsFound<T>(s: seq<T>, keep: T -> bool, rest: seq<T>, r: seq<T>)
    requires |s| > 0
    requires forall i | 1 <= i < |s| && keep(s[i]) :: s[i] in rest
    requires r == if keep(s[0]) then [s[0]] + rest else rest
    ensures forall i | 0 <= i < |s| && keep(s[i]) :: s[i] in r
  {
  }

  /** One step of `Retain`'s distinctness clause: a kept head does not occur again in the kept tail. */
  lemma RetainConsDistinct<T>(s: seq<T>, keep: T -> bool, rest: seq<T>, r: seq<T>)
    requires |s| > 0
    requires forall i | 0 <= i < |rest| :: rest[i] in s[1..]
    requires Distinct(s[1..]) ==> Distinct(rest)
    requires r == if keep(s[0]) then [s[0]] + rest else rest
    ensures Distinct(s) ==> Distinct(r)
  {
    if Distinct(s) && keep(s[0]) {
      assert Distinct(s[1..]) by {
        forall i, j | 0 <= i < j < |s[1..]|
          ensures s[1..][i] != s[1..][j]
        {
          assert s[1..][i] == s[i + 1] && s[1..][j] == s[j + 1];
        }
      }
      assert s[0] !in s[1..];
      forall i, j | 0 <= i < j < |r|
        ensures r[i] != r[j]
      {
        assert r[j] == rest[j - 1];
        if i > 0 {
          assert r[i] == rest[i - 1];
        } else {
          assert rest[j - 1] in s[1..];
        }
      }
    }
  }

  /** `n` copies of the character `c`. */
  function Repeat(c: char, n: nat): (r: string)
    ensures |r| == n
    ensures forall i | 0 <= i < n :: r[i] == c
  {
    if n == 0 then "" else [c] + Repeat(c, n - 1)
  }

  /** A non-empty sequence is its head followed by its tail. */
  lemma HeadTail<T>(s: seq<T>)
    requires |s| > 0
    ensures s == [s[0]] + s[1..]
  {
  }

  /** The suffix from `k` is its first element followed by the suffix from `k + 1`. */
  lemma SuffixCons<T>(s: seq<T>, k: nat)
    requires k < |s|
    ensures s[k..] == [s[k]] + s[k + 1..]
  {
  }

  /** A non-empty sequence is its front followed by its last element. */
  lemma FrontLast<T>(s: seq<T>)
    requires |s| > 0
    ensures s == s[..|s| - 1] + [s[|s| - 1]]
  {
  }

  /** Every element is smaller than the ones after it. */
  predicate Ascending(s: seq<int>) {
    forall k, l | 0 <= k < l < |s| :: s[k] < s[l]
  }

  /** An ascending sequence is determined by its elements. */
  lemma {:induction false} AscendingUnique(a: seq<int>, b: seq<int>)
    requires Ascending(a) && Ascending(b)
    requires forall x :: x in a <==> x in b
    ensures a == b
    decreases |a|
  {
    assert |b| > 0 ==> b[0] in b;
    if |a| == 0 {
      assert |b| == 0;
    } else {
      assert a[0] in a && b[0] in b;
      var i :| 0 <= i < |b| && b[i] == a[0];
      var j :| 0 <= j < |a| && a[j] == b[0];
      assert a[0] == b[0];
      forall x
        ensures x in a[1..] <==> x in b[1..]
      {
        if x in a[1..] {
          var k :| 1 <= k < |a| && a[k] == x;
          assert a[0] < a[k];
          assert x in b;
          var m :| 0 <= m < |b| && b[m] == x;
          assert m != 0;
          assert b[1..][m - 1] == x;
        }
        if x in b[1..] {
          var k :| 1 <= k < |b| && b[k] == x;
          assert b[0] < b[k];
          assert x in a;
          var m :| 0 <= m < |a| && a[m] == x;
          assert m != 0;
          assert a[1..][m - 1] == x;
        }
      }
      AscendingUnique(a[1..], b[1..]);
      HeadTail(a);
      HeadTail(b);
    }
  }

  /** The sequences of `ls`, one after the other. */
  function Concat<T>(ls: seq<seq<T>>): (r: seq<T>)
  {
    if |ls| == 0 then [] else Concat(ls[..|ls| - 1]) + ls[|ls| - 1]
  }

  /** `k` pieces of width `w` side by side: `k * w`, counted without multiplying. */
  function Stride(k: nat, w: nat): (r: nat)
  {
    if k == 0 then 0 else Stride(k - 1, w) + w
  }

  lemma {:induction false} StrideIsProduct(k: nat, w: nat)
    ensures Stride(k, w) == k * w
  {
    if k > 0 {
      StrideIsProduct(k - 1, w);
      assert k * w == (k - 1) * w + w;
    }
  }

  /** A slice of `a + b` that lies within `a`, or that is exactly `b`. */
  lemma SliceAppend<T>(a: seq<T>, b: seq<T>, i: nat, j: nat)
    requires i <= j <= |a| || (i == |a| && j == |a| + |b|)
    ensures (a + b)[i..j] == if j <= |a| then a[i..j] else b
  {
  }

  /** `piece` occupies the `k`-th stretch of width `w` of `s`, from `Stride(k, w)` on. */
  predicate ChunkAt<T(==)>(s: seq<T>, k: nat, w: nat, piece: seq<T>) {
    Stride(k, w) + w <= |s| && s[Stride(k, w)..Stride(k, w) + w] == piece
  }

  /** Concatenating pieces of width `w` puts piece `k` at offset `k * w`. */
  lemma {:induction false} ConcatChunks<T>(ls: seq<seq<T>>, w: nat)
    requires forall k | 0 <= k < |ls| :: |ls[k]| == w
    ensures |Concat(ls)| == Stride(|ls|, w)
    ensures forall k | 0 <= k < |ls| :: ChunkAt(Concat(ls), k, w, ls[k])
    decreases |ls|
  {
    if |ls| > 0 {
      var front := ls[..|ls| - 1];
      var last := ls[|ls| - 1];
      var head := Concat(front);
      assert Concat(ls) == head + last;
      ConcatChunks(front, w);
      forall k | 0 <= k < |ls|
        ensures ChunkAt(Concat(ls), k, w, ls[k])
      {
        if k < |ls| - 1 {
          assert ChunkAt(head, k, w, front[k]);
          SliceAppend(head, last, Stride(k, w), Stride(k, w) + w);
        } else {
          SliceAppend(head, last, |head|, |head| + w);
        }
      }
    }
  }
}
