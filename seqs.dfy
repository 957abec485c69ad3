/** Sequence operations behind the array methods the pages use
    (`filter`, `find`, `slice`, `map`, `new Set(...)`). */
module Seqs {
  import opened Wrappers

  /** `a` is an order-preserving subsequence of `b`. */
  ghost predicate IsSubseq<T>(a: seq<T>, b: seq<T>)
    decreases |b|
  {
    if a == [] then true
    else if b == [] then false
    else (a[0] == b[0] && IsSubseq(a[1..], b[1..])) || IsSubseq(a, b[1..])
  }

  /** `Array.prototype.filter`: the elements of `s` satisfying `p`, in order. */
  function Filter<T>(s: seq<T>, p: T -> bool): (r: seq<T>)
    ensures |r| <= |s|
    ensures forall i :: 0 <= i < |r| ==> p(r[i])
  {
    if s == [] then []
    else if p(s[0]) then [s[0]] + Filter(s[1..], p)
    else Filter(s[1..], p)
  }

  lemma {:induction false} FilterMembership<T>(s: seq<T>, p: T -> bool, x: T)
    ensures x in Filter(s, p) <==> x in s && p(x)
  {
    if s != [] {
      FilterMembership(s[1..], p, x);
      assert s == [s[0]] + s[1..];
    }
  }

  lemma {:induction false} FilterIsSubseq<T>(s: seq<T>, p: T -> bool)
    ensures IsSubseq(Filter(s, p), s)
  {
    if s != [] {
      FilterIsSubseq(s[1..], p);
      if p(s[0]) {
        assert Filter(s, p)[1..] == Filter(s[1..], p);
      } else if Filter(s, p) != [] {
        assert IsSubseq(Filter(s, p), s[1..]);
      }
    }
  }

  /** A filter whose predicate holds everywhere keeps everything. */
  lemma {:induction false} FilterKeepsAll<T>(s: seq<T>, p: T -> bool)
    requires forall i :: 0 <= i < |s| ==> p(s[i])
    ensures Filter(s, p) == s
  {
    if s != [] {
      FilterKeepsAll(s[1..], p);
    }
  }

  /** Filtering twice by the same predicate is filtering once. */
  lemma {:induction false} FilterIdempotent<T>(s: seq<T>, p: T -> bool)
    ensures Filter(Filter(s, p), p) == Filter(s, p)
  {
    FilterKeepsAll(Filter(s, p), p);
  }

  lemma {:induction false} FilterAppend<T>(a: seq<T>, b: seq<T>, p: T -> bool)
    ensures Filter(a + b, p) == Filter(a, p) + Filter(b, p)
  {
    if a == [] {
      assert a + b == b;
    } else {
      FilterAppend(a[1..], b, p);
      assert (a + b)[0] == a[0] && (a + b)[1..] == a[1..] + b;
    }
  }

  /** Filtering by a weaker predicate first does not change a filter by a stronger one. */
  lemma {:induction false} FilterNarrow<T>(s: seq<T>, p: T -> bool, q: T -> bool)
    requires forall i :: 0 <= i < |s| && q(s[i]) ==> p(s[i])
    ensures Filter(Filter(s, p), q) == Filter(s, q)
  {
    if s != [] {
      FilterNarrow(s[1..], p, q);
    }
  }

  /** Two predicates that never hold together select at most `|s|` elements between them. */
  lemma {:induction false} FilterDisjointCounts<T>(s: seq<T>, p: T -> bool, q: T -> bool)
    requires forall i :: 0 <= i < |s| ==> !(p(s[i]) && q(s[i]))
    ensures |Filter(s, p)| + |Filter(s, q)| <= |s|
  {
    if s != [] {
      FilterDisjointCounts(s[1..], p, q);
    }
  }

  /** `s.slice(0, n)`. */
  function Take<T>(s: seq<T>, n: nat): seq<T>
  {
    if |s| <= n then s else s[..n]
  }

  /** `s.map(f)`. */
  function MapSeq<A, B>(s: seq<A>, f: A -> B): (r: seq<B>)
    ensures |r| == |s|
    ensures forall i :: 0 <= i < |s| ==> r[i] == f(s[i])
  {
    seq(|s|, i requires 0 <= i < |s| => f(s[i]))
  }

  /** The set of the values `f` takes on `s`. */
  ghost function Image<A, B>(s: seq<A>, f: A -> B): set<B>
  {
    set i | 0 <= i < |s| :: f(s[i])
  }

  /** `Array.prototype.findIndex`: the position of the first element satisfying `p`. */
  function FindIndex<T>(s: seq<T>, p: T -> bool): (r: Option<nat>)
    ensures r.Some? ==> r.value < |s| && p(s[r.value])
    ensures r.Some? ==> forall j :: 0 <= j < r.value ==> !p(s[j])
    ensures r.None? ==> forall i :: 0 <= i < |s| ==> !p(s[i])
  {
    if s == [] then None
    else if p(s[0]) then Some(0)
    else match FindIndex(s[1..], p)
      case None => None
      case Some(i) => Some(i + 1)
  }

  /** `Array.prototype.find`: the first element satisfying `p`, or `None`. */
  function Find<T>(s: seq<T>, p: T -> bool): (r: Option<T>)
    ensures r.None? <==> forall i :: 0 <= i < |s| ==> !p(s[i])
    ensures r.Some? ==> exists i :: 0 <= i < |s| && s[i] == r.value && p(s[i])
                          && forall j :: 0 <= j < i ==> !p(s[j])
  {
    match FindIndex(s, p)
    case None => None
    case Some(i) => Some(s[i])
  }

  predicate NoDuplicates<T(==)>(s: seq<T>)
  {
    forall i, j :: 0 <= i < j < |s| ==> s[i] != s[j]
  }

  /** `Array.from(new Set(xs))`: the distinct elements of `xs` in the order
      of their first occurrence (a `Set` keeps insertion order). */
  function Distinct<T(==)>(xs: seq<T>): (d: seq<T>)
    ensures forall i :: 0 <= i < |d| ==> d[i] in xs
    ensures forall i :: 0 <= i < |xs| ==> xs[i] in d
    ensures NoDuplicates(d)
    decreases |xs|
  {
    if xs == [] then []
    else
      var d := Distinct(xs[..|xs| - 1]);
      var x := xs[|xs| - 1];
      assert xs == xs[..|xs| - 1] + [x];
      if x in d then d else d + [x]
  }

  /** Adding one more element to the end only ever appends to the distinct list. */
  lemma DistinctSnoc<T>(xs: seq<T>, x: T)
    ensures Distinct(xs + [x]) == if x in xs then Distinct(xs) else Distinct(xs) + [x]
  {
    assert (xs + [x])[..|xs + [x]| - 1] == xs;
  }

  /** Insertion order: the distinct elements of a prefix are a prefix of the
      distinct elements of the whole, so an element first seen earlier is listed earlier. */
  lemma {:induction false} DistinctPrefix<T>(xs: seq<T>, k: nat)
    requires k <= |xs|
    ensures |Distinct(xs[..k])| <= |Distinct(xs)|
    ensures Distinct(xs[..k]) == Distinct(xs)[..|Distinct(xs[..k])|]
    decreases |xs| - k
  {
    if k < |xs| {
      var ys := xs[..|xs| - 1];
      assert ys[..k] == xs[..k];
      DistinctPrefix(ys, k);
      var dy, dx := Distinct(ys), Distinct(xs);
      assert dx == dy || dx == dy + [xs[|xs| - 1]];
      assert dy == dx[..|dy|];
    } else {
      assert xs[..k] == xs;
    }
  }

  lemma {:induction false} NoDuplicatesCard<T>(s: seq<T>)
    requires NoDuplicates(s)
    ensures |set i | 0 <= i < |s| :: s[i]| == |s|
  {
    if s != [] {
      var t := s[..|s| - 1];
      NoDuplicatesCard(t);
      var st := set i | 0 <= i < |t| :: t[i];
      var ss := set i | 0 <= i < |s| :: s[i];
      assert ss == st + {s[|s| - 1]};
      assert s[|s| - 1] !in st;
    }
  }

  /** The number of distinct elements equals the size of the set of elements. */
  lemma DistinctCount<T>(xs: seq<T>)
    ensures |Distinct(xs)| == |set i | 0 <= i < |xs| :: xs[i]|
  {
    var d := Distinct(xs);
    NoDuplicatesCard(d);
    var sd := set i | 0 <= i < |d| :: d[i];
    var sx := set i | 0 <= i < |xs| :: xs[i];
    assert sd == sx by {
      forall x | x in sd ensures x in sx {
        var i :| 0 <= i < |d| && d[i] == x;
        assert x in d;
        var j :| 0 <= j < |xs| && xs[j] == x;
      }
      forall x | x in sx ensures x in sd {
        var j :| 0 <= j < |xs| && xs[j] == x;
        assert x in xs;
        var i :| 0 <= i < |d| && d[i] == x;
      }
    }
  }

  /** An element is listed in `Distinct(xs)` exactly when it occurs in `xs`. */
  lemma DistinctMembership<T>(xs: seq<T>, x: T)
    ensures x in Distinct(xs) <==> x in xs
  {
    var d := Distinct(xs);
    if x in d {
      var i :| 0 <= i < |d| && d[i] == x;
    }
    if x in xs {
      var i :| 0 <= i < |xs| && xs[i] == x;
    }
  }

  /** `[...new Set(s.map(f))].length` is the number of distinct values of `f` on `s`. */
  lemma DistinctMapCount<A, B>(s: seq<A>, f: A -> B)
    ensures |Distinct(MapSeq(s, f))| == |Image(s, f)|
  {
    var ys := MapSeq(s, f);
    DistinctCount(ys);
    assert (set i | 0 <= i < |ys| :: ys[i]) == Image(s, f) by {
      forall y | y in Image(s, f) ensures y in set i | 0 <= i < |ys| :: ys[i] {
        var i :| 0 <= i < |s| && f(s[i]) == y;
        assert ys[i] == y;
      }
    }
  }

  lemma {:induction false} DistinctLength<T>(xs: seq<T>)
    ensures |Distinct(xs)| <= |xs|
    decreases |xs|
  {
    if xs != [] {
      DistinctLength(xs[..|xs| - 1]);
    }
  }

  lemma {:induction false} SubseqRefl<T>(s: seq<T>)
    ensures IsSubseq(s, s)
  {
    if s != [] {
      SubseqRefl(s[1..]);
    }
  }

  lemma {:induction false} SubseqEmpty<T>(s: seq<T>)
    ensures IsSubseq([], s)
  {
  }

  /** A prefix is a subsequence. */
  lemma {:induction false} PrefixIsSubseq<T>(s: seq<T>, k: nat)
    requires k <= |s|
    ensures IsSubseq(s[..k], s)
    decreases |s|
  {
    if k == |s| {
      assert s[..k] == s;
      SubseqRefl(s);
    } else if k > 0 {
      PrefixIsSubseq(s[1..], k - 1);
      assert s[..k][1..] == s[1..][..k - 1];
    }
  }

  lemma {:induction false} SubseqTrans<T>(a: seq<T>, b: seq<T>, c: seq<T>)
    requires IsSubseq(a, b) && IsSubseq(b, c)
    ensures IsSubseq(a, c)
    decreases |c|
  {
    if a != [] {
      if b[0] == c[0] && IsSubseq(b[1..], c[1..]) {
        if a[0] == b[0] && IsSubseq(a[1..], b[1..]) {
          SubseqTrans(a[1..], b[1..], c[1..]);
        } else {
          SubseqTrans(a, b[1..], c[1..]);
        }
      } else {
        SubseqTrans(a, b, c[1..]);
      }
    }
  }

  /** Appending one element that satisfies `p` changes `find` only when
      nothing before it did. */
  lemma {:induction false} FindSnoc<T>(s: seq<T>, x: T, p: T -> bool)
    requires p(x)
    ensures Find(s + [x], p) == if Find(s, p).Some? then Find(s, p) else Some(x)
  {
    if s == [] {
      assert [] + [x] == [x];
    } else {
      assert (s + [x])[1..] == s[1..] + [x];
      FindSnoc(s[1..], x, p);
    }
  }

  /** `s.filter(p).slice(0, k)`: the first `k` elements satisfying `p`, in
      order; one that satisfies `p` is left out only when `k` are already taken. */
  lemma TakeFilterExact<T>(s: seq<T>, p: T -> bool, k: nat, x: T)
    ensures IsSubseq(Take(Filter(s, p), k), s)
    ensures x in Take(Filter(s, p), k) ==> x in s && p(x)
    ensures x in s && p(x) && x !in Take(Filter(s, p), k) ==> |Take(Filter(s, p), k)| == k
  {
    var f := Filter(s, p);
    FilterIsSubseq(s, p);
    FilterMembership(s, p, x);
    if |f| > k {
      PrefixIsSubseq(f, k);
      SubseqTrans(f[..k], f, s);
    }
  }
  /** `s.filter(p).slice(0, k)` takes the matches of one prefix of `s`, and
      that prefix stops early only once `k` matches are taken: no match is
      skipped in favour of a later one. */
  lemma {:induction false} TakeFilterPrefix<T>(s: seq<T>, p: T -> bool, k: nat)
    ensures exists m :: 0 <= m <= |s| && Take(Filter(s, p), k) == Filter(s[..m], p)
                        && (m == |s| || |Take(Filter(s, p), k)| == k)
  {
    if k == 0 || s == [] {
      assert s[..0] == [];
      assert Take(Filter(s, p), k) == Filter(s[..0], p);
    } else {
      var k' := if p(s[0]) then k - 1 else k;
      TakeFilterPrefix(s[1..], p, k');
      var m' :| 0 <= m' <= |s[1..]| && Take(Filter(s[1..], p), k') == Filter(s[1..][..m'], p)
                && (m' == |s[1..]| || |Take(Filter(s[1..], p), k')| == k');
      var m := m' + 1;
      assert s[..m][0] == s[0];
      assert s[..m][1..] == s[1..][..m'];
      var f := Filter(s[1..], p);
      if p(s[0]) {
        assert Filter(s, p) == [s[0]] + f;
        if |f| + 1 > k {
          assert ([s[0]] + f)[..k] == [s[0]] + f[..k - 1];
        }
        assert Take(Filter(s, p), k) == [s[0]] + Take(f, k - 1);
      }
      assert Take(Filter(s, p), k) == Filter(s[..m], p);
    }
  }

  /** Concatenation regrouped, stated on its own so that callers need not prove it
      among their other facts. */
  lemma Assoc<T>(a: seq<T>, b: seq<T>, c: seq<T>)
    ensures a + b + c == a + (b + c)
  {
  }

  /** An element read through the tail of a sequence, stated on its own for the same reason. */
  lemma TailIndex<T>(s: seq<T>, i: nat)
    requires i + 1 < |s|
    ensures s[1..][i] == s[i + 1]
  {
  }

  /** Mapping two functions over a sequence gives the same result exactly when
      they agree on each of its elements. */
  lemma MapSeqAgree<A, B>(s: seq<A>, f: A -> B, g: A -> B)
    ensures MapSeq(s, f) == MapSeq(s, g) <==> forall i :: 0 <= i < |s| ==> f(s[i]) == g(s[i])
  {
    if forall i :: 0 <= i < |s| ==> f(s[i]) == g(s[i]) {
      assert MapSeq(s, f) == MapSeq(s, g);
    } else {
      var i :| 0 <= i < |s| && f(s[i]) != g(s[i]);
      assert MapSeq(s, f)[i] != MapSeq(s, g)[i];
    }
  }

  /** Mapping over a two-element sequence. */
  lemma MapSeqPair<A, B>(a: A, b: A, f: A -> B)
    ensures MapSeq([a, b], f) == [f(a), f(b)]
  {
  }
}
