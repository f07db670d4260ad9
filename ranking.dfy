/**
 * The ordered, limited listings the wish service asks the database for
 * (`order: { <column>: 'DESC' }, take: n`). The order is a stable
 * descending sort, so rows with equal keys keep the order in which they
 * were listed.
 */
module Ranking {
  import opened WishEntity

  /** The column a listing is ordered by. */
  datatype Column = Copied | CreatedAt

  function Key(w: Wish, c: Column): nat {
    match c
    case Copied => w.copied
    case CreatedAt => w.createdAt
  }

  /** No row is followed by one with a larger key. */
  ghost predicate Descending(s: seq<Wish>, c: Column) {
    forall i, j :: 0 <= i < j < |s| ==> Key(s[i], c) >= Key(s[j], c)
  }

  /** No row is listed twice. */
  ghost predicate Distinct(s: seq<Wish>) {
    forall i, j :: 0 <= i < j < |s| ==> s[i] != s[j]
  }

  /** Puts `w` into a descending listing, ahead of the rows with the same key. */
  function Insert(w: Wish, s: seq<Wish>, c: Column): (r: seq<Wish>)
    requires Descending(s, c)
    ensures Descending(r, c)
    ensures multiset(r) == multiset(s) + multiset{w}
  {
    if s == [] || Key(w, c) >= Key(s[0], c) then
      HeadDescending(w, s, c);
      [w] + s
    else
      var rest := Insert(w, s[1..], c);
      InsertBounded(w, s, rest, c);
      HeadDescending(s[0], rest, c);
      assert s == [s[0]] + s[1..];
      [s[0]] + rest
  }

  /** A row placed ahead of a descending listing whose keys do not exceed its own keeps it descending. */
  lemma HeadDescending(x: Wish, t: seq<Wish>, c: Column)
    requires Descending(t, c)
    requires t == [] || Key(x, c) >= Key(t[0], c)
    ensures Descending([x] + t, c)
  {
  }

  /** The first row of what the recursive insertion returns is `w` or a row of `s[1..]`. */
  lemma InsertBounded(w: Wish, s: seq<Wish>, rest: seq<Wish>, c: Column)
    requires s != [] && Descending(s, c) && Key(w, c) < Key(s[0], c)
    requires multiset(rest) == multiset(s[1..]) + multiset{w}
    ensures rest == [] || Key(s[0], c) >= Key(rest[0], c)
  {
    if rest != [] {
      assert rest[0] in multiset(rest);
      if rest[0] != w {
        assert rest[0] in s[1..];
        var k :| 0 <= k < |s[1..]| && s[1..][k] == rest[0];
        assert s[k + 1] == rest[0];
      }
    }
  }

  /** The rows of `s` in descending order of their key, stable on ties. */
  function Sort(s: seq<Wish>, c: Column): (r: seq<Wish>)
    ensures Descending(r, c)
    ensures multiset(r) == multiset(s)
  {
    if s == [] then
      []
    else
      assert s == [s[0]] + s[1..];
      Insert(s[0], Sort(s[1..], c), c)
  }

  /**
   * The first `n` rows of `s` in descending key order: at most `n` of
   * them, all of them when there are no more than `n`, each from `s`, and
   * no row left out has a larger key than the last one returned.
   */
  function Top(s: seq<Wish>, c: Column, n: nat): (r: seq<Wish>)
    ensures |r| == if |s| < n then |s| else n
    ensures Descending(r, c)
    ensures multiset(r) <= multiset(s)
    ensures |s| <= n ==> multiset(r) == multiset(s)
    ensures forall w :: w in s && w !in r ==> |r| == n && (n > 0 ==> Key(w, c) <= Key(r[n - 1], c))
    ensures Distinct(s) ==> Distinct(r)
  {
    var sorted := Sort(s, c);
    var r := if |sorted| <= n then sorted else sorted[..n];
    TopFacts(s, sorted, r, c, n);
    r
  }

  /** What taking the first `n` rows of a descending permutation of `s` gives. */
  lemma TopFacts(s: seq<Wish>, sorted: seq<Wish>, r: seq<Wish>, c: Column, n: nat)
    requires Descending(sorted, c) && multiset(sorted) == multiset(s)
    requires r == if |sorted| <= n then sorted else sorted[..n]
    ensures |r| == if |s| < n then |s| else n
    ensures Descending(r, c)
    ensures multiset(r) <= multiset(s)
    ensures |s| <= n ==> multiset(r) == multiset(s)
    ensures forall w :: w in s && w !in r ==> |r| == n && (n > 0 ==> Key(w, c) <= Key(r[n - 1], c))
    ensures Distinct(s) ==> Distinct(r)
  {
    assert |sorted| == |multiset(sorted)| == |s|;
    PrefixMultiset(sorted, |r|);
    forall w | w in s && w !in r
      ensures |r| == n && (n > 0 ==> Key(w, c) <= Key(r[n - 1], c))
    {
      assert w in multiset(sorted);
      var k :| 0 <= k < |sorted| && sorted[k] == w;
      assert k >= |r|;
    }
    DistinctSub(s, r);
  }

  lemma PrefixMultiset(s: seq<Wish>, k: nat)
    requires k <= |s|
    ensures multiset(s[..k]) <= multiset(s)
  {
    assert s == s[..k] + s[k..];
  }

  /** A listing whose rows all come, with no more copies, from a listing without repeats has no repeats. */
  lemma DistinctSub(s: seq<Wish>, t: seq<Wish>)
    requires multiset(t) <= multiset(s)
    ensures Distinct(s) ==> Distinct(t)
  {
    if Distinct(s) {
      forall i, j | 0 <= i < j < |t| ensures t[i] != t[j] {
        if t[i] == t[j] {
          RepeatCount(t, i, j);
          DistinctCount(s, t[i]);
          assert false;
        }
      }
    }
  }

  lemma {:induction false} DistinctCount(s: seq<Wish>, x: Wish)
    requires Distinct(s)
    ensures multiset(s)[x] <= 1
  {
    if s != [] {
      assert s == [s[0]] + s[1..];
      assert Distinct(s[1..]) by {
        forall i, j | 0 <= i < j < |s[1..]| ensures s[1..][i] != s[1..][j] {
          assert s[1..][i] == s[i + 1] && s[1..][j] == s[j + 1];
        }
      }
      DistinctCount(s[1..], x);
      if x == s[0] {
        assert x !in s[1..];
      }
    }
  }

  lemma RepeatCount(t: seq<Wish>, i: nat, j: nat)
    requires i < j < |t| && t[i] == t[j]
    ensures multiset(t)[t[i]] >= 2
  {
    assert t == t[..j] + t[j..];
    assert t[i] in t[..j];
    assert t[j] in t[j..];
  }
}
