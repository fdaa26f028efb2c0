/** The order in which the store ranks sorted-set members: ascending score,
    equal scores by member text compared character by character. */
module Order {

  /** Lexicographic order on text (a proper prefix comes first). */
  predicate StrLe(a: string, b: string)
    decreases |a|
  {
    if a == [] then true
    else if b == [] then false
    else if a[0] != b[0] then a[0] < b[0]
    else StrLe(a[1..], b[1..])
  }

  lemma {:induction false} StrLeAntisymmetric(a: string, b: string)
    requires StrLe(a, b) && StrLe(b, a)
    ensures a == b
    decreases |a|
  {
    if a != [] && b != [] {
      StrLeAntisymmetric(a[1..], b[1..]);
      assert a == [a[0]] + a[1..];
      assert b == [b[0]] + b[1..];
    }
  }

  lemma {:induction false} StrLeTotal(a: string, b: string)
    ensures StrLe(a, b) || StrLe(b, a)
    decreases |a|
  {
    if a != [] && b != [] && a[0] == b[0] {
      StrLeTotal(a[1..], b[1..]);
    }
  }

  lemma {:induction false} StrLeTransitive(a: string, b: string, c: string)
    requires StrLe(a, b) && StrLe(b, c)
    ensures StrLe(a, c)
    decreases |a|
  {
    if a != [] && b != [] && c != [] && a[0] == b[0] && b[0] == c[0] {
      StrLeTransitive(a[1..], b[1..], c[1..]);
    }
  }

  /** Rank order on (member, score) pairs. */
  predicate PairLe(p: (string, int), q: (string, int)) {
    p.1 < q.1 || (p.1 == q.1 && StrLe(p.0, q.0))
  }

  lemma PairLeTotal(p: (string, int), q: (string, int))
    ensures PairLe(p, q) || PairLe(q, p)
  {
    StrLeTotal(p.0, q.0);
  }

  lemma PairLeTransitive(p: (string, int), q: (string, int), r: (string, int))
    requires PairLe(p, q) && PairLe(q, r)
    ensures PairLe(p, r)
  {
    if p.1 == q.1 == r.1 {
      StrLeTransitive(p.0, q.0, r.0);
    }
  }

  lemma PairLeAntisymmetric()
    ensures forall p, q :: PairLe(p, q) && PairLe(q, p) ==> p == q
  {
    forall p: (string, int), q: (string, int) | PairLe(p, q) && PairLe(q, p)
      ensures p == q
    {
      StrLeAntisymmetric(p.0, q.0);
    }
  }

  predicate IsLeast(m: (string, int), ps: set<(string, int)>) {
    m in ps && forall q :: q in ps ==> PairLe(m, q)
  }

  lemma {:induction false} LeastExists(ps: set<(string, int)>)
    requires ps != {}
    ensures exists m :: IsLeast(m, ps)
    decreases ps
  {
    var x :| x in ps;
    if ps == {x} {
      PairLeTotal(x, x);
      assert IsLeast(x, ps);
    } else {
      LeastExists(ps - {x});
      var m :| IsLeast(m, ps - {x});
      PairLeTotal(m, x);
      if PairLe(m, x) {
        assert IsLeast(m, ps);
      } else {
        forall q | q in ps ensures PairLe(x, q) {
          if q != x {
            PairLeTransitive(x, m, q);
          } else {
            PairLeTotal(x, x);
          }
        }
        assert IsLeast(x, ps);
      }
    }
  }

  /** The lowest-ranked pair of a non-empty set; it is unique because the
      rank order is antisymmetric. */
  function Least(ps: set<(string, int)>): (m: (string, int))
    requires ps != {}
    ensures IsLeast(m, ps)
  {
    LeastExists(ps);
    PairLeAntisymmetric();
    var m :| IsLeast(m, ps);
    m
  }

  /** The pairs of `ps` in rank order, each once. */
  function Sorted(ps: set<(string, int)>): (r: seq<(string, int)>)
    ensures |r| == |ps|
    ensures forall i :: 0 <= i < |r| ==> r[i] in ps
    ensures forall p :: p in ps ==> p in r
    decreases |ps|
  {
    if ps == {} then []
    else
      var m := Least(ps);
      [m] + Sorted(ps - {m})
  }

  /** Strictly increasing rank order. */
  predicate InOrder(r: seq<(string, int)>) {
    forall i, j :: 0 <= i < j < |r| ==> r[i] != r[j] && PairLe(r[i], r[j])
  }

  /** `Sorted` lists its pairs in strictly increasing rank order. */
  lemma {:induction false} SortedInOrder(ps: set<(string, int)>)
    ensures InOrder(Sorted(ps))
    decreases |ps|
  {
    if ps != {} {
      var m := Least(ps);
      SortedInOrder(ps - {m});
      LeastFirst(m, Sorted(ps - {m}), ps);
    }
  }

  /** The least pair of `ps` followed by the other pairs in order is in
      order. */
  lemma LeastFirst(m: (string, int), rest: seq<(string, int)>, ps: set<(string, int)>)
    requires IsLeast(m, ps) && InOrder(rest)
    requires forall i :: 0 <= i < |rest| ==> rest[i] in ps - {m}
    ensures InOrder([m] + rest)
  {
    var r := [m] + rest;
    forall i, j | 0 <= i < j < |r| ensures r[i] != r[j] && PairLe(r[i], r[j]) {
      assert r[j] == rest[j - 1];
      if i == 0 {
        assert rest[j - 1] in ps - {m};
      } else {
        assert r[i] == rest[i - 1];
      }
    }
  }
}
