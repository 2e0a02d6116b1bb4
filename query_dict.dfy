/**
 * A decoded query string and the insertion-ordered dictionary Python builds from it.
 *
 * `parse_qsl` yields (name, value) pairs in the order they appear, duplicates
 * included; `dict(pairs)` inserts them one after another, so a repeated name keeps
 * the position of its first occurrence and the value of its last one.  The
 * dictionary is represented by its items in iteration order, with distinct keys.
 */
module QueryDict {

  type Pairs = seq<(string, string)>

  /** The names of `q`, in order. */
  function Keys(q: Pairs): (ks: seq<string>)
    ensures |ks| == |q|
    ensures forall i :: 0 <= i < |q| ==> ks[i] == q[i].0
    ensures forall i :: 0 <= i < |q| ==> q[i].0 in ks
  {
    seq(|q|, i requires 0 <= i < |q| => q[i].0)
  }

  /** No name occurs twice: the items of a dictionary. */
  predicate Distinct(d: Pairs) {
    forall i, j :: 0 <= i < j < |d| ==> d[i].0 != d[j].0
  }

  /** Position of the first pair named `k`. */
  function FirstIndex(q: Pairs, k: string): (i: nat)
    requires k in Keys(q)
    ensures i < |q| && q[i].0 == k
    ensures forall j :: 0 <= j < i ==> q[j].0 != k
  {
    if q[0].0 == k then 0
    else
      assert Keys(q) == [q[0].0] + Keys(q[1..]);
      1 + FirstIndex(q[1..], k)
  }

  /** Position of the last pair named `k`. */
  function LastIndex(q: Pairs, k: string): (i: nat)
    requires k in Keys(q)
    ensures i < |q| && q[i].0 == k
    ensures forall j :: i < j < |q| ==> q[j].0 != k
  {
    var n := |q| - 1;
    if q[n].0 == k then n
    else
      assert Keys(q) == Keys(q[..n]) + [q[n].0];
      LastIndex(q[..n], k)
  }

  /** Number of pairs named `k`. */
  function Occurrences(q: Pairs, k: string): nat {
    if q == [] then 0
    else (if q[0].0 == k then 1 else 0) + Occurrences(q[1..], k)
  }

  /** The value a dictionary holds for `k` (`d[k]`). */
  function Get(d: Pairs, k: string): string
    requires k in Keys(d)
  {
    d[FirstIndex(d, k)].1
  }

  /** `d[k] = v`: an existing key keeps its position and takes the new value; a new key goes last. */
  function Put(d: Pairs, k: string, v: string): (r: Pairs)
    ensures (k, v) in r
    ensures |r| == if k in Keys(d) then |d| else |d| + 1
  {
    if k in Keys(d) then
      var i := FirstIndex(d, k);
      assert d[i := (k, v)][i] == (k, v);
      d[i := (k, v)]
    else d + [(k, v)]
  }

  /** `dict(ps)`: insert the pairs of `ps` from first to last. */
  function FromPairs(ps: Pairs): (r: Pairs)
    ensures |r| <= |ps|
    ensures ps != [] ==> ps[|ps| - 1] in r
  {
    if ps == [] then [] else
      var n := |ps| - 1;
      Put(FromPairs(ps[..n]), ps[n].0, ps[n].1)
  }

  /** Where a key stands in the order dict(ps) iterates: by first occurrence in `ps`. */
  function Rank(ps: Pairs, k: string): nat {
    if k in Keys(ps) then FirstIndex(ps, k) else |ps|
  }

  /** The items of `a` come in strictly increasing rank. */
  predicate RankSorted(ps: Pairs, a: Pairs) {
    forall i, j :: 0 <= i < j < |a| ==> Rank(ps, a[i].0) < Rank(ps, a[j].0)
  }

  // ----- Put -----

  /** Assignment keeps a dictionary a dictionary and does exactly what `d[k] = v` promises. */
  lemma PutSpec(d: Pairs, k: string, v: string)
    requires Distinct(d)
    ensures var r := Put(d, k, v);
      && Distinct(r)
      && (forall x :: x in Keys(r) <==> x in Keys(d) || x == k)
      && k in Keys(r) && Get(r, k) == v
      && (forall x :: x in Keys(d) && x != k ==> Get(r, x) == Get(d, x))
      && (k in Keys(d) ==> Keys(r) == Keys(d))
      && (k !in Keys(d) ==> r == d + [(k, v)])
  {
    if k in Keys(d) {
      PutExisting(d, k, v);
    } else {
      PutNew(d, k, v);
    }
  }

  lemma PutExisting(d: Pairs, k: string, v: string)
    requires Distinct(d) && k in Keys(d)
    ensures var r := Put(d, k, v);
      && Keys(r) == Keys(d) && Distinct(r)
      && Get(r, k) == v
      && (forall x :: x in Keys(d) && x != k ==> Get(r, x) == Get(d, x))
  {
    var r := Put(d, k, v);
    var i := FirstIndex(d, k);
    assert Keys(r) == Keys(d);
    forall x | x in Keys(d) && x != k ensures Get(r, x) == Get(d, x) {
      assert FirstIndex(r, x) == FirstIndex(d, x);
    }
    assert FirstIndex(r, k) == i;
  }

  lemma PutNew(d: Pairs, k: string, v: string)
    requires Distinct(d) && k !in Keys(d)
    ensures var r := Put(d, k, v);
      && r == d + [(k, v)] && Keys(r) == Keys(d) + [k] && Distinct(r)
      && k in Keys(r) && Get(r, k) == v
      && (forall x :: x in Keys(d) ==> Get(r, x) == Get(d, x))
  {
    var r := d + [(k, v)];
    assert Keys(r) == Keys(d) + [k];
    forall i | 0 <= i < |d| ensures d[i].0 != k {
      assert d[i].0 in Keys(d);
    }
    forall x | x in Keys(d) ensures Get(r, x) == Get(d, x) {
      FirstIndexAppend(d, (k, v), x);
    }
    assert FirstIndex(r, k) == |d|;
  }

  /** Assigning a key the value it already has changes nothing. */
  lemma PutSame(d: Pairs, k: string)
    requires Distinct(d) && k in Keys(d)
    ensures Put(d, k, Get(d, k)) == d
  {
  }

  // ----- dict(pairs) -----

  /** The last pair of `ps` and what comes before it. */
  lemma SplitLast(ps: Pairs)
    requires ps != []
    ensures var n := |ps| - 1;
      && ps == ps[..n] + [ps[n]]
      && Keys(ps) == Keys(ps[..n]) + [ps[n].0]
  {
  }

  /** dict(ps) is a dictionary whose keys are exactly the names occurring in `ps`. */
  lemma {:induction false} FromPairsKeys(ps: Pairs)
    ensures Distinct(FromPairs(ps))
    ensures forall k :: k in Keys(FromPairs(ps)) <==> k in Keys(ps)
  {
    if ps != [] {
      var n := |ps| - 1;
      SplitLast(ps);
      FromPairsKeys(ps[..n]);
      PutSpec(FromPairs(ps[..n]), ps[n].0, ps[n].1);
    }
  }

  /** Each key of dict(ps) holds the value of the last pair of `ps` with that name. */
  lemma {:induction false} FromPairsValues(ps: Pairs)
    ensures forall k :: k in Keys(ps) ==>
      k in Keys(FromPairs(ps)) && Get(FromPairs(ps), k) == ps[LastIndex(ps, k)].1
  {
    if ps != [] {
      var n := |ps| - 1;
      var p, k, v := ps[..n], ps[n].0, ps[n].1;
      SplitLast(ps);
      FromPairsKeys(p);
      FromPairsValues(p);
      PutSpec(FromPairs(p), k, v);
      forall x | x in Keys(ps)
        ensures x in Keys(FromPairs(ps)) && Get(FromPairs(ps), x) == ps[LastIndex(ps, x)].1
      {
        if x == k {
          assert LastIndex(ps, x) == n;
        } else {
          assert x in Keys(p);
          assert LastIndex(ps, x) == LastIndex(p, x);
        }
      }
    }
  }

  /** Appending a pair does not move the first occurrence of a name already present. */
  lemma FirstIndexAppend(p: Pairs, x: (string, string), k: string)
    requires k in Keys(p)
    ensures k in Keys(p + [x]) && FirstIndex(p + [x], k) == FirstIndex(p, k)
  {
    var q := p + [x];
    var i := FirstIndex(p, k);
    assert q[i].0 == k;
  }

  /** dict(ps) iterates its keys in the order of their first occurrence in `ps`. */
  lemma {:induction false} FromPairsOrder(ps: Pairs)
    ensures RankSorted(ps, FromPairs(ps))
  {
    if ps != [] {
      var n := |ps| - 1;
      var p, k, v := ps[..n], ps[n].0, ps[n].1;
      var e := FromPairs(p);
      SplitLast(ps);
      FromPairsKeys(p);
      FromPairsOrder(p);
      forall i | 0 <= i < |e| ensures e[i].0 in Keys(p) {
        assert e[i].0 in Keys(e);
      }
      RankSortedAppend(p, (k, v), e);
      if k in Keys(e) {
        RankSortedPutExisting(ps, e, k, v);
      } else {
        forall i | 0 <= i < |e| ensures Rank(ps, e[i].0) < Rank(ps, k) {
          assert Rank(ps, e[i].0) == Rank(p, e[i].0);
          assert Rank(ps, k) == n;
        }
        RankSortedPutNew(ps, e, k, v);
      }
    }
  }

  /** Ranks with respect to `p` do not change when a pair is appended to `p`. */
  lemma RankSortedAppend(p: Pairs, x: (string, string), e: Pairs)
    requires RankSorted(p, e)
    requires forall i :: 0 <= i < |e| ==> e[i].0 in Keys(p)
    ensures RankSorted(p + [x], e)
    ensures forall i :: 0 <= i < |e| ==> Rank(p + [x], e[i].0) == Rank(p, e[i].0)
  {
    forall i | 0 <= i < |e| ensures Rank(p + [x], e[i].0) == Rank(p, e[i].0) {
      FirstIndexAppend(p, x, e[i].0);
    }
  }

  /** Re-assigning a key keeps the order of a ranked dictionary. */
  lemma RankSortedPutExisting(q: Pairs, e: Pairs, k: string, v: string)
    requires Distinct(e) && k in Keys(e) && RankSorted(q, e)
    ensures RankSorted(q, Put(e, k, v))
  {
    var d := Put(e, k, v);
    PutExisting(e, k, v);
    forall i | 0 <= i < |d| ensures d[i].0 == e[i].0 {
      assert Keys(d)[i] == Keys(e)[i];
    }
  }

  /** A new key that outranks every present one keeps a ranked dictionary ranked. */
  lemma RankSortedPutNew(q: Pairs, e: Pairs, k: string, v: string)
    requires Distinct(e) && k !in Keys(e) && RankSorted(q, e)
    requires forall i :: 0 <= i < |e| ==> Rank(q, e[i].0) < Rank(q, k)
    ensures RankSorted(q, Put(e, k, v))
  {
    var d := e + [(k, v)];
    PutNew(e, k, v);
    forall i, j | 0 <= i < j < |d| ensures Rank(q, d[i].0) < Rank(q, d[j].0) {
      assert d[i] == e[i];
      if j < |e| {
        assert d[j] == e[j];
      }
    }
  }

  /** In a dictionary, the first pair named after item `i` is item `i`. */
  lemma FirstIndexOfDistinct(d: Pairs, i: nat)
    requires Distinct(d) && i < |d|
    ensures d[i].0 in Keys(d) && FirstIndex(d, d[i].0) == i
  {
  }

  /** Dropping the first item keeps a ranked dictionary one, minus its first key. */
  lemma DropFirst(ps: Pairs, a: Pairs)
    requires Distinct(a) && RankSorted(ps, a) && a != []
    ensures Distinct(a[1..]) && RankSorted(ps, a[1..])
    ensures Keys(a) == [a[0].0] + Keys(a[1..]) && a[0].0 !in Keys(a[1..])
  {
    assert Keys(a) == [a[0].0] + Keys(a[1..]);
  }

  /** The first item of a ranked dictionary has the lowest rank. */
  lemma HeadRanksLowest(ps: Pairs, a: Pairs, k: string)
    requires RankSorted(ps, a) && k in Keys(a) && k != a[0].0
    ensures Rank(ps, a[0].0) < Rank(ps, k)
  {
    var i := FirstIndex(a, k);
    assert 0 < i;
  }

  /** Two ranked dictionaries with the same keys list them in the same order. */
  lemma {:induction false} SameRankedKeys(ps: Pairs, a: Pairs, b: Pairs)
    requires Distinct(a) && Distinct(b) && RankSorted(ps, a) && RankSorted(ps, b)
    requires forall k :: k in Keys(a) <==> k in Keys(b)
    ensures Keys(a) == Keys(b)
  {
    if a == [] || b == [] {
      assert a != [] ==> a[0].0 in Keys(b);
      assert b != [] ==> b[0].0 in Keys(a);
    } else {
      var x, y := a[0].0, b[0].0;
      if x != y {
        HeadRanksLowest(ps, a, y);
        HeadRanksLowest(ps, b, x);
        assert false;
      }
      DropFirst(ps, a);
      DropFirst(ps, b);
      SameRankedKeys(ps, a[1..], b[1..]);
    }
  }

  /**
   * The three properties of dict(ps) determine it: any dictionary with its keys,
   * its values and its order is dict(ps).
   */
  lemma FromPairsUnique(ps: Pairs, d: Pairs)
    requires Distinct(d)
    requires forall k :: k in Keys(d) <==> k in Keys(ps)
    requires forall k :: k in Keys(ps) ==> k in Keys(d) && Get(d, k) == ps[LastIndex(ps, k)].1
    requires RankSorted(ps, d)
    ensures d == FromPairs(ps)
  {
    var e := FromPairs(ps);
    FromPairsKeys(ps);
    FromPairsValues(ps);
    FromPairsOrder(ps);
    SameRankedKeys(ps, d, e);
    assert |d| == |e|;
    forall i | 0 <= i < |d| ensures d[i] == e[i] {
      assert Keys(d)[i] == Keys(e)[i];
      FirstIndexOfDistinct(d, i);
      FirstIndexOfDistinct(e, i);
    }
  }

  /** dict() of the items of a dictionary gives back the same dictionary. */
  lemma {:induction false} FromPairsOfDistinct(d: Pairs)
    requires Distinct(d)
    ensures FromPairs(d) == d
  {
    if d != [] {
      var n := |d| - 1;
      var p := d[..n];
      assert Distinct(p);
      FromPairsOfDistinct(p);
      assert d[n].0 !in Keys(p);
      SplitLast(d);
      assert FromPairs(d) == Put(p, d[n].0, d[n].1);
      PutSpec(p, d[n].0, d[n].1);
    }
  }

  /** In a dictionary a key occurs once if present and not at all otherwise. */
  lemma {:induction false} OccurrencesOfDistinct(d: Pairs, k: string)
    requires Distinct(d)
    ensures Occurrences(d, k) == if k in Keys(d) then 1 else 0
  {
    if d != [] {
      OccurrencesOfDistinct(d[1..], k);
      assert Keys(d) == [d[0].0] + Keys(d[1..]);
      assert d[0].0 !in Keys(d[1..]);
    }
  }
}
