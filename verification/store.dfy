/** The remote key-value store the proxies talk to, as a pure value: a map
    from key names to entries, the commands the library sends, and the
    execution of a batch of commands as one fold (what a pipeline's
    `execute()` does: every command in submission order, one reply each).

    As in the store itself, an absent key reads as an empty collection and a
    write that leaves a set, sorted set or list empty removes the key.
 */
module Store {
  import opened Wrappers
  import opened Order

  datatype Entry =
    | SetE(members: set<string>)
    | ZSetE(scores: map<string, int>)
    | ListE(items: seq<string>)
    | StrE(text: string)

  type Store = map<string, Entry>

  /** Score combination of ZUNIONSTORE/ZINTERSTORE. */
  datatype Aggregate = Sum | Min | Max

  datatype Cmd =
    | Del(key: string)
    | SAdd(key: string, member: string)
    | SRem(key: string, member: string)
    | SCard(key: string)
    | SMembers(key: string)
    | SUnion(keys: seq<string>)
    | SInter(keys: seq<string>)
    | SDiff(keys: seq<string>)
    | SUnionStore(dst: string, keys: seq<string>)
    | SInterStore(dst: string, keys: seq<string>)
    | SDiffStore(dst: string, keys: seq<string>)
    | ZAdd(key: string, member: string, score: int)
    | ZCard(key: string)
    | ZRange(key: string, start: int, stop: int)
    | ZRemRangeByRank(key: string, start: int, stop: int)
    | ZUnionStore(dst: string, keys: seq<string>, agg: Aggregate)
    | ZInterStore(dst: string, keys: seq<string>, agg: Aggregate)
    | LLen(key: string)
    | LRange(key: string, start: int, stop: int)
    | LIndex(key: string, index: int)
    | LSet(key: string, index: int, value: string)
    | RPush(key: string, value: string)
    | LPush(key: string, value: string)
    | RPop(key: string)
    | LPop(key: string)
    | LRem(key: string, value: string, count: int)
    | Get(key: string)
    | SetStr(key: string, value: string)
    | Append(key: string, value: string)
    | StrLen(key: string)
    | Substr(key: string, start: int, end: int)

  datatype Reply =
    | Nil
    | Int(n: int)
    | Bulk(text: string)
    | MemberSet(ms: set<string>)
    | Texts(items: seq<string>)
    | Pairs(ps: seq<(string, int)>)
    | Status
    | Failed

  /** What the client hands back for a bulk-or-nil reply. */
  function TextOf(r: Reply): Option<string> {
    if r.Bulk? then Some(r.text) else None
  }

  // ---------------------------------------------------------------- reads

  function Members(st: Store, k: string): set<string> {
    if k in st && st[k].SetE? then st[k].members else {}
  }

  function Scores(st: Store, k: string): map<string, int> {
    if k in st && st[k].ZSetE? then st[k].scores else map[]
  }

  function Items(st: Store, k: string): seq<string> {
    if k in st && st[k].ListE? then st[k].items else []
  }

  function TextAt(st: Store, k: string): Option<string> {
    if k in st && st[k].StrE? then Some(st[k].text) else None
  }

  /** The stored text, an absent key reading as the empty string (as
      STRLEN, APPEND and GETRANGE treat it). */
  function TextOrEmpty(st: Store, k: string): string {
    match TextAt(st, k)
    case Some(s) => s
    case None => ""
  }

  // --------------------------------------------------------------- writes

  function PutSet(st: Store, k: string, s: set<string>): (r: Store)
    ensures Members(r, k) == s
    ensures WellFormed(st) ==> WellFormed(r)
    ensures forall j :: j != k ==> (j in r <==> j in st) && (j in r ==> r[j] == st[j])
  {
    if s == {} then st - {k} else st[k := SetE(s)]
  }

  function PutZSet(st: Store, k: string, z: map<string, int>): (r: Store)
    ensures Scores(r, k) == z
    ensures WellFormed(st) ==> WellFormed(r)
    ensures forall j :: j != k ==> (j in r <==> j in st) && (j in r ==> r[j] == st[j])
  {
    if z == map[] then st - {k} else st[k := ZSetE(z)]
  }

  function PutList(st: Store, k: string, xs: seq<string>): (r: Store)
    ensures Items(r, k) == xs
    ensures WellFormed(st) ==> WellFormed(r)
    ensures forall j :: j != k ==> (j in r <==> j in st) && (j in r ==> r[j] == st[j])
  {
    if xs == [] then st - {k} else st[k := ListE(xs)]
  }

  /** The keys listed in `ks`. */
  function KeySet(ks: seq<string>): set<string> {
    set k | k in ks
  }

  /** `a` and `b` hold the same entries outside the keys `ks`. */
  predicate AgreeOff(a: Store, b: Store, ks: seq<string>) {
    a - KeySet(ks) == b - KeySet(ks)
  }

  /** Agreement at one key outside `ks`. */
  lemma AgreeOffAt(a: Store, b: Store, ks: seq<string>, k: string)
    requires AgreeOff(a, b, ks) && k !in ks
    ensures (k in a <==> k in b) && (k in a ==> a[k] == b[k])
  {
    assert k !in KeySet(ks);
    assert k in a <==> k in a - KeySet(ks);
    assert k in b <==> k in b - KeySet(ks);
  }

  /** Agreement everywhere outside `ks` is agreement off `ks`. */
  lemma AgreeOffIntro(a: Store, b: Store, ks: seq<string>)
    requires forall k :: k !in ks ==> (k in a <==> k in b) && (k in a ==> a[k] == b[k])
    ensures AgreeOff(a, b, ks)
  {
    var x := a - KeySet(ks);
    var y := b - KeySet(ks);
    assert forall k :: k in x <==> k in y;
    assert forall k :: k in x ==> x[k] == y[k];
  }

  lemma AgreeOffTrans(a: Store, b: Store, c: Store, ks1: seq<string>, ks2: seq<string>)
    requires AgreeOff(a, b, ks1) && AgreeOff(b, c, ks2)
    ensures AgreeOff(a, c, ks2 + ks1)
  {
    forall k | k !in ks2 + ks1 ensures (k in a <==> k in c) && (k in a ==> a[k] == c[k]) {
      AgreeOffAt(a, b, ks1, k);
      AgreeOffAt(b, c, ks2, k);
    }
    AgreeOffIntro(a, c, ks2 + ks1);
  }

  /** Stores that agree off `ks` hold the same collections at other keys. */
  lemma AgreeOffReads(a: Store, b: Store, ks: seq<string>, k: string)
    requires AgreeOff(a, b, ks) && k !in ks
    ensures Members(a, k) == Members(b, k) && Scores(a, k) == Scores(b, k)
  {
    AgreeOffAt(a, b, ks, k);
  }

  /** Agreement off some keys is agreement off any list holding them. */
  lemma AgreeOffWiden(a: Store, b: Store, ks1: seq<string>, ks2: seq<string>)
    requires AgreeOff(a, b, ks1) && forall k :: k in ks1 ==> k in ks2
    ensures AgreeOff(a, b, ks2)
  {
    forall k | k !in ks2 ensures (k in a <==> k in b) && (k in a ==> a[k] == b[k]) {
      AgreeOffAt(a, b, ks1, k);
    }
    AgreeOffIntro(a, b, ks2);
  }

  /** Three agreements, off `u`, off `i` and off `temps`, compose. */
  lemma AgreeOffChain(s3: Store, s2: Store, s1: Store, st: Store, u: string, i: string, temps: seq<string>)
    requires AgreeOff(s3, s2, [u]) && AgreeOff(s2, s1, [i]) && AgreeOff(s1, st, temps)
    ensures AgreeOff(s3, st, [u, i] + temps)
  {
    AgreeOffTrans(s3, s2, s1, [u], [i]);
    AgreeOffTrans(s3, s1, st, [i] + [u], temps);
    AgreeOffWiden(s3, st, temps + ([i] + [u]), [u, i] + temps);
  }

  /** Writing the same set at the same key keeps two stores' agreement. */
  lemma PutSetAgrees(a: Store, b: Store, ks: seq<string>, k: string, s: set<string>)
    requires AgreeOff(a, b, ks)
    ensures AgreeOff(PutSet(a, k, s), PutSet(b, k, s), ks)
    ensures AgreeOff(PutSet(a, k, s), a, [k])
  {
    var a1 := PutSet(a, k, s);
    var b1 := PutSet(b, k, s);
    forall j | j !in ks ensures (j in a1 <==> j in b1) && (j in a1 ==> a1[j] == b1[j]) {
      AgreeOffAt(a, b, ks, j);
    }
    AgreeOffIntro(a1, b1, ks);
    AgreeOffIntro(a1, a, [k]);
  }

  /** Writing the same sorted set at the same key keeps two stores'
      agreement. */
  lemma PutZSetAgrees(a: Store, b: Store, ks: seq<string>, k: string, z: map<string, int>)
    requires AgreeOff(a, b, ks)
    ensures AgreeOff(PutZSet(a, k, z), PutZSet(b, k, z), ks)
    ensures AgreeOff(PutZSet(a, k, z), a, [k])
  {
    var a1 := PutZSet(a, k, z);
    var b1 := PutZSet(b, k, z);
    forall j | j !in ks ensures (j in a1 <==> j in b1) && (j in a1 ==> a1[j] == b1[j]) {
      AgreeOffAt(a, b, ks, j);
    }
    AgreeOffIntro(a1, b1, ks);
    AgreeOffIntro(a1, a, [k]);
  }

  /** Writing a list changes no other key. */
  lemma PutListAgrees(a: Store, k: string, xs: seq<string>)
    ensures AgreeOff(PutList(a, k, xs), a, [k])
  {
    AgreeOffIntro(PutList(a, k, xs), a, [k]);
  }

  /** Overwriting one key changes no other key. */
  lemma AssignAgrees(a: Store, k: string, e: Entry)
    ensures AgreeOff(a[k := e], a, [k])
  {
    AgreeOffIntro(a[k := e], a, [k]);
  }

  /** Stores that agree off `ks` hold the same sets at keys outside `ks`. */
  lemma AgreeOffMemberSets(a: Store, b: Store, ks: seq<string>, keys: seq<string>)
    requires AgreeOff(a, b, ks) && forall j :: 0 <= j < |keys| ==> keys[j] !in ks
    ensures MemberSets(a, keys) == MemberSets(b, keys)
  {
    forall j | 0 <= j < |keys| ensures MemberSets(a, keys)[j] == MemberSets(b, keys)[j] {
      AgreeOffReads(a, b, ks, keys[j]);
    }
  }

  /** Stores that agree off `ks` hold the same sorted sets at keys outside `ks`. */
  lemma AgreeOffScoreMaps(a: Store, b: Store, ks: seq<string>, keys: seq<string>)
    requires AgreeOff(a, b, ks) && forall j :: 0 <= j < |keys| ==> keys[j] !in ks
    ensures ScoreMaps(a, keys) == ScoreMaps(b, keys)
  {
    forall j | 0 <= j < |keys| ensures ScoreMaps(a, keys)[j] == ScoreMaps(b, keys)[j] {
      AgreeOffReads(a, b, ks, keys[j]);
    }
  }

  /** The store never holds an empty set, sorted set or list. */
  predicate WellFormed(st: Store) {
    forall k :: k in st ==>
      match st[k]
      case SetE(s) => s != {}
      case ZSetE(z) => z != map[]
      case ListE(xs) => xs != []
      case StrE(_) => true
  }

  // ------------------------------------------------------ multi-key sets

  /** The sets held at `ks`, in order. */
  function MemberSets(st: Store, ks: seq<string>): (r: seq<set<string>>)
    ensures |r| == |ks|
    ensures forall i :: 0 <= i < |ks| ==> r[i] == Members(st, ks[i])
  {
    if |ks| == 0 then [] else [Members(st, ks[0])] + MemberSets(st, ks[1..])
  }

  /** SUNION: the members of any of the sets. */
  function UnionSets(ss: seq<set<string>>): (r: set<string>)
    ensures forall x :: x in r <==> exists i :: 0 <= i < |ss| && x in ss[i]
    decreases |ss|
  {
    if |ss| == 0 then {} else UnionSets(ss[..|ss| - 1]) + ss[|ss| - 1]
  }

  /** SINTER: the members of every set. */
  function InterSets(ss: seq<set<string>>): (r: set<string>)
    requires |ss| > 0
    ensures forall x :: x in r <==> forall i :: 0 <= i < |ss| ==> x in ss[i]
    decreases |ss|
  {
    if |ss| == 1 then ss[0] else InterSets(ss[..|ss| - 1]) * ss[|ss| - 1]
  }

  /** SDIFF: the members of the first set that are in none of the others. */
  function DiffSets(ss: seq<set<string>>): (r: set<string>)
    requires |ss| > 0
    ensures forall x :: x in r <==> x in ss[0] && forall i :: 0 < i < |ss| ==> x !in ss[i]
  {
    var rest := UnionSets(ss[1..]);
    assert forall i :: 0 < i < |ss| ==> ss[i] == ss[1..][i - 1];
    ss[0] - rest
  }

  // ---------------------------------------------------- multi-key zsets

  function Combine(agg: Aggregate, a: int, b: int): int {
    match agg
    case Sum => a + b
    case Min => if a <= b then a else b
    case Max => if a >= b then a else b
  }

  /** Left fold of the aggregation over a non-empty list of scores. */
  function Fold(agg: Aggregate, xs: seq<int>): int
    requires |xs| > 0
    decreases |xs|
  {
    if |xs| == 1 then xs[0] else Combine(agg, Fold(agg, xs[..|xs| - 1]), xs[|xs| - 1])
  }

  /** The sorted sets held at `ks`, in order. */
  function ScoreMaps(st: Store, ks: seq<string>): (r: seq<map<string, int>>)
    ensures |r| == |ks|
    ensures forall i :: 0 <= i < |ks| ==> r[i] == Scores(st, ks[i])
  {
    if |ks| == 0 then [] else [Scores(st, ks[0])] + ScoreMaps(st, ks[1..])
  }

  /** The scores `m` has in those of the sorted sets that hold it, in order. */
  function ScoresOf(ms: seq<map<string, int>>, m: string): (r: seq<int>)
    ensures |r| == 0 <==> forall i :: 0 <= i < |ms| ==> m !in ms[i]
    ensures (forall i :: 0 <= i < |ms| ==> m in ms[i]) ==> |r| == |ms|
    decreases |ms|
  {
    if |ms| == 0 then []
    else
      var z := ms[|ms| - 1];
      ScoresOf(ms[..|ms| - 1], m) + (if m in z then [z[m]] else [])
  }

  /** One ZUNIONSTORE step: `acc` merged with the next sorted set. */
  function MergeUnion(acc: map<string, int>, z: map<string, int>, agg: Aggregate): (r: map<string, int>)
    ensures r.Keys == acc.Keys + z.Keys
    ensures forall m :: m in acc && m in z ==> r[m] == Combine(agg, acc[m], z[m])
    ensures forall m :: m in acc && m !in z ==> r[m] == acc[m]
    ensures forall m :: m !in acc && m in z ==> r[m] == z[m]
  {
    map m | m in acc.Keys + z.Keys ::
      if m in acc && m in z then Combine(agg, acc[m], z[m])
      else if m in acc then acc[m]
      else z[m]
  }

  /** One ZINTERSTORE step: the members `acc` and the next sorted set share. */
  function MergeInter(acc: map<string, int>, z: map<string, int>, agg: Aggregate): (r: map<string, int>)
    ensures r.Keys == acc.Keys * z.Keys
    ensures forall m :: m in r ==> r[m] == Combine(agg, acc[m], z[m])
  {
    map m | m in acc && m in z :: Combine(agg, acc[m], z[m])
  }

  /** ZUNIONSTORE's result: every member of any of the sorted sets. */
  function UnionMaps(ms: seq<map<string, int>>, agg: Aggregate): (r: map<string, int>)
    ensures forall m :: m in r <==> exists i :: 0 <= i < |ms| && m in ms[i]
    decreases |ms|
  {
    if |ms| == 0 then map[]
    else MergeUnion(UnionMaps(ms[..|ms| - 1], agg), ms[|ms| - 1], agg)
  }

  /** ZINTERSTORE's result: the members of every one of the sorted sets. */
  function InterMaps(ms: seq<map<string, int>>, agg: Aggregate): (r: map<string, int>)
    requires |ms| > 0
    ensures forall m :: m in r <==> forall i :: 0 <= i < |ms| ==> m in ms[i]
    decreases |ms|
  {
    if |ms| == 1 then ms[0]
    else MergeInter(InterMaps(ms[..|ms| - 1], agg), ms[|ms| - 1], agg)
  }

  /** A union member's score aggregates its scores in the sets holding it. */
  lemma {:induction false} UnionMapsScore(ms: seq<map<string, int>>, agg: Aggregate, m: string)
    requires m in UnionMaps(ms, agg)
    ensures |ScoresOf(ms, m)| > 0
    ensures UnionMaps(ms, agg)[m] == Fold(agg, ScoresOf(ms, m))
    decreases |ms|
  {
    var front := ms[..|ms| - 1];
    var acc := UnionMaps(front, agg);
    var z := ms[|ms| - 1];
    var pre := ScoresOf(front, m);
    if m in acc {
      UnionMapsScore(front, agg, m);
      if m in z {
        assert (pre + [z[m]])[..|pre|] == pre;
      } else {
        assert pre + [] == pre;
      }
    } else {
      assert |pre| == 0;
    }
  }

  /** An intersection member's score aggregates its score in every set. */
  lemma {:induction false} InterMapsScore(ms: seq<map<string, int>>, agg: Aggregate, m: string)
    requires |ms| > 0 && m in InterMaps(ms, agg)
    ensures |ScoresOf(ms, m)| == |ms|
    ensures InterMaps(ms, agg)[m] == Fold(agg, ScoresOf(ms, m))
    decreases |ms|
  {
    if |ms| > 1 {
      var front := ms[..|ms| - 1];
      var z := ms[|ms| - 1];
      InterMapsScore(front, agg, m);
      var pre := ScoresOf(front, m);
      assert (pre + [z[m]])[..|pre|] == pre;
    } else {
      assert ScoresOf(ms[..0], m) == [];
    }
  }

  /** A member present in every sorted set gets the same summed score from the
      union as from the intersection. */
  lemma SumUnionInterAgree(ms: seq<map<string, int>>, m: string)
    requires |ms| > 0 && m in InterMaps(ms, Sum)
    ensures m in UnionMaps(ms, Sum)
    ensures UnionMaps(ms, Sum)[m] == InterMaps(ms, Sum)[m]
  {
    UnionMapsScore(ms, Sum, m);
    InterMapsScore(ms, Sum, m);
  }

  // -------------------------------------------------------------- ranges

  /** LRANGE / ZRANGE / ZREMRANGEBYRANK: an inclusive `start`..`stop` where a
      negative index counts from the end, as a half-open slice `lo..hi`. */
  function RangeBounds(len: nat, start: int, stop: int): (r: (nat, nat))
    ensures r.0 <= r.1 <= len
  {
    var s := if start < 0 then start + len else start;
    var e := if stop < 0 then stop + len else stop;
    var s := if s < 0 then 0 else s;
    if s > e || s >= len then (0, 0)
    else (s, if e >= len then len else e + 1)
  }

  /** The range 0..-1 is the whole collection. */
  lemma WholeRange(n: nat)
    ensures RangeBounds(n, 0, -1) == (0, n)
  {
  }

  /** GETRANGE (SUBSTR) as the Redis 2.x servers the library was written
      for answer it: like `RangeBounds`, except that a negative end that is
      still negative after adding the length is clamped to 0. */
  function SubstrBounds(len: nat, start: int, end: int): (r: (nat, nat))
    ensures r.0 <= r.1 <= len
  {
    var s := if start < 0 then start + len else start;
    var e := if end < 0 then end + len else end;
    var s := if s < 0 then 0 else s;
    var e := if e < 0 then 0 else e;
    var e := if e >= len then len - 1 else e;
    if s > e || len == 0 then (0, 0) else (s, e + 1)
  }

  /** A sorted set in rank order. */
  function Ranked(z: map<string, int>): (r: seq<(string, int)>)
    ensures |r| == |z|
    ensures forall i :: 0 <= i < |r| ==> r[i].0 in z && z[r[i].0] == r[i].1
  {
    assert |z.Items| == |z|;
    Sorted(z.Items)
  }

  /** Every member of the sorted set is ranked, with its score. */
  lemma RankedHasAll(z: map<string, int>)
    ensures forall m :: m in z ==> (m, z[m]) in Ranked(z)
  {
    forall m | m in z ensures (m, z[m]) in Ranked(z) {
      assert (m, z[m]) in z.Items;
    }
  }

  /** ZRANGE order: by score, ties by member, each member once. */
  lemma RankedInOrder(z: map<string, int>)
    ensures var r := Ranked(z);
      forall i, j :: 0 <= i < j < |r| ==> r[i].0 != r[j].0 && PairLe(r[i], r[j])
  {
    var r := Ranked(z);
    assert r == Sorted(z.Items);
    SortedInOrder(z.Items);
    forall i, j | 0 <= i < j < |r| ensures r[i].0 != r[j].0 && PairLe(r[i], r[j]) {
      assert r[i] != r[j];
      assert z[r[i].0] == r[i].1 && z[r[j].0] == r[j].1;
    }
  }

  // ---------------------------------------------------------------- lists

  function Count(xs: seq<string>, v: string): nat {
    if |xs| == 0 then 0 else (if xs[0] == v then 1 else 0) + Count(xs[1..], v)
  }

  /** `xs` without its first `n` occurrences of `v`. */
  function DropFirst(xs: seq<string>, v: string, n: nat): (r: seq<string>)
    ensures |xs| - |r| == (if n < Count(xs, v) then n else Count(xs, v))
    ensures Count(r, v) == Count(xs, v) - (if n < Count(xs, v) then n else Count(xs, v))
  {
    if |xs| == 0 || n == 0 then xs
    else if xs[0] == v then DropFirst(xs[1..], v, n - 1)
    else [xs[0]] + DropFirst(xs[1..], v, n)
  }

  function Reverse(xs: seq<string>): (r: seq<string>)
    ensures |r| == |xs|
    ensures forall i :: 0 <= i < |xs| ==> r[i] == xs[|xs| - 1 - i]
  {
    if |xs| == 0 then [] else Reverse(xs[1..]) + [xs[0]]
  }

  /** LREM: `count > 0` removes that many occurrences from the head,
      `count < 0` from the tail, `count == 0` all of them. */
  function RemoveOccurrences(xs: seq<string>, v: string, count: int): seq<string> {
    if count > 0 then DropFirst(xs, v, count)
    else if count < 0 then Reverse(DropFirst(Reverse(xs), v, -count))
    else DropFirst(xs, v, |xs|)
  }

  /** The pairs of ranks `a`..`b` (inclusive, negative from the end). */
  function RankSlice(z: map<string, int>, a: int, b: int): seq<(string, int)> {
    var r := Ranked(z);
    var bounds := RangeBounds(|r|, a, b);
    r[bounds.0..bounds.1]
  }

  /** The members at ranks `a`..`b`. */
  function RankMembers(z: map<string, int>, a: int, b: int): set<string> {
    var r := Ranked(z);
    var bounds := RangeBounds(|r|, a, b);
    set i | bounds.0 <= i < bounds.1 :: r[i].0
  }

  // ------------------------------------------------------------ execution

  datatype Done = Done(store: Store, reply: Reply)

  /** One command against the store. */
  function Step(st: Store, c: Cmd): Done {
    match c
    case Del(k) => Done(st - {k}, Int(if k in st then 1 else 0))
    case SAdd(k, m) =>
      Done(PutSet(st, k, Members(st, k) + {m}), Int(if m in Members(st, k) then 0 else 1))
    case SRem(k, m) =>
      Done(PutSet(st, k, Members(st, k) - {m}), Int(if m in Members(st, k) then 1 else 0))
    case SCard(k) => Done(st, Int(|Members(st, k)|))
    case SMembers(k) => Done(st, MemberSet(Members(st, k)))
    case SUnion(ks) => if |ks| == 0 then Done(st, Failed) else Done(st, MemberSet(UnionSets(MemberSets(st, ks))))
    case SInter(ks) => if |ks| == 0 then Done(st, Failed) else Done(st, MemberSet(InterSets(MemberSets(st, ks))))
    case SDiff(ks) => if |ks| == 0 then Done(st, Failed) else Done(st, MemberSet(DiffSets(MemberSets(st, ks))))
    case SUnionStore(d, ks) =>
      if |ks| == 0 then Done(st, Failed)
      else var s := UnionSets(MemberSets(st, ks)); Done(PutSet(st, d, s), Int(|s|))
    case SInterStore(d, ks) =>
      if |ks| == 0 then Done(st, Failed)
      else var s := InterSets(MemberSets(st, ks)); Done(PutSet(st, d, s), Int(|s|))
    case SDiffStore(d, ks) =>
      if |ks| == 0 then Done(st, Failed)
      else var s := DiffSets(MemberSets(st, ks)); Done(PutSet(st, d, s), Int(|s|))
    case ZAdd(k, m, sc) =>
      var z := Scores(st, k);
      Done(PutZSet(st, k, z[m := sc]), Int(if m in z then 0 else 1))
    case ZCard(k) => Done(st, Int(|Scores(st, k)|))
    case ZRange(k, a, b) => Done(st, Pairs(RankSlice(Scores(st, k), a, b)))
    case ZRemRangeByRank(k, a, b) =>
      var z := Scores(st, k);
      Done(PutZSet(st, k, z - RankMembers(z, a, b)), Int(|RankSlice(z, a, b)|))
    case ZUnionStore(d, ks, agg) =>
      if |ks| == 0 then Done(st, Failed)
      else var z := UnionMaps(ScoreMaps(st, ks), agg); Done(PutZSet(st, d, z), Int(|z|))
    case ZInterStore(d, ks, agg) =>
      if |ks| == 0 then Done(st, Failed)
      else var z := InterMaps(ScoreMaps(st, ks), agg); Done(PutZSet(st, d, z), Int(|z|))
    case LLen(k) => Done(st, Int(|Items(st, k)|))
    case LRange(k, a, b) =>
      var xs := Items(st, k);
      var bounds := RangeBounds(|xs|, a, b);
      Done(st, Texts(xs[bounds.0..bounds.1]))
    case LIndex(k, i) =>
      var xs := Items(st, k);
      var j := if i < 0 then i + |xs| else i;
      if 0 <= j < |xs| then Done(st, Bulk(xs[j])) else Done(st, Nil)
    case LSet(k, i, v) =>
      var xs := Items(st, k);
      var j := if i < 0 then i + |xs| else i;
      if 0 <= j < |xs| then Done(PutList(st, k, xs[j := v]), Status) else Done(st, Failed)
    case RPush(k, v) =>
      var xs := Items(st, k) + [v];
      Done(PutList(st, k, xs), Int(|xs|))
    case LPush(k, v) =>
      var xs := [v] + Items(st, k);
      Done(PutList(st, k, xs), Int(|xs|))
    case RPop(k) =>
      var xs := Items(st, k);
      if |xs| == 0 then Done(st, Nil) else Done(PutList(st, k, xs[..|xs| - 1]), Bulk(xs[|xs| - 1]))
    case LPop(k) =>
      var xs := Items(st, k);
      if |xs| == 0 then Done(st, Nil) else Done(PutList(st, k, xs[1..]), Bulk(xs[0]))
    case LRem(k, v, n) =>
      var xs := Items(st, k);
      var ys := RemoveOccurrences(xs, v, n);
      Done(PutList(st, k, ys), Int(|xs| - |ys|))
    case Get(k) =>
      (match TextAt(st, k)
       case Some(s) => Done(st, Bulk(s))
       case None => Done(st, Nil))
    case SetStr(k, v) => Done(st[k := StrE(v)], Status)
    case Append(k, v) =>
      var s := TextOrEmpty(st, k) + v;
      Done(st[k := StrE(s)], Int(|s|))
    case StrLen(k) => Done(st, Int(|TextOrEmpty(st, k)|))
    case Substr(k, a, b) =>
      var s := TextOrEmpty(st, k);
      var bounds := SubstrBounds(|s|, a, b);
      Done(st, Bulk(s[bounds.0..bounds.1]))
  }

  datatype Ran = Ran(store: Store, replies: seq<Reply>)

  /** A batch: every command in order, one reply per command. */
  function Exec(st: Store, cs: seq<Cmd>): (r: Ran)
    ensures |r.replies| == |cs|
    decreases |cs|
  {
    if |cs| == 0 then Ran(st, [])
    else
      var d := Step(st, cs[0]);
      var rest := Exec(d.store, cs[1..]);
      Ran(rest.store, [d.reply] + rest.replies)
  }

  /** The ranks `idx`..`idx` are the one pair at `idx`. */
  lemma OneRank(z: map<string, int>, i: int)
    ensures var j := if i < 0 then i + |z| else i;
      (0 <= j < |z| ==> RankSlice(z, i, i) == [Ranked(z)[j]])
      && (!(0 <= j < |z|) ==> RankSlice(z, i, i) == [])
  {
    OneSlice(Ranked(z), i);
  }

  /** The slice of the range `i`..`i` holds the one element `i` names. */
  lemma OneSlice(r: seq<(string, int)>, i: int)
    ensures var j := if i < 0 then i + |r| else i;
      var b := RangeBounds(|r|, i, i);
      (0 <= j < |r| ==> r[b.0..b.1] == [r[j]])
      && (!(0 <= j < |r|) ==> r[b.0..b.1] == [])
  {
    OneRange(|r|, i);
  }

  /** The member at rank `idx` is the only one of the ranks `idx`..`idx`. */
  lemma OneRankMember(z: map<string, int>, idx: int)
    requires 0 <= idx < |z|
    ensures RankMembers(z, idx, idx) == {Ranked(z)[idx].0}
  {
    OneMember(Ranked(z), idx);
  }

  lemma OneMember(r: seq<(string, int)>, idx: int)
    requires 0 <= idx < |r|
    ensures var b := RangeBounds(|r|, idx, idx);
      (set i | b.0 <= i < b.1 :: r[i].0) == {r[idx].0}
  {
    OneRange(|r|, idx);
    assert r[idx].0 in (set i | idx <= i < idx + 1 :: r[i].0);
  }

  /** The range `i`..`i` is the one index `i` names, if any. */
  lemma OneRange(n: nat, i: int)
    ensures var j := if i < 0 then i + n else i;
      (0 <= j < n ==> RangeBounds(n, i, i) == (j, j + 1))
      && (!(0 <= j < n) ==> RangeBounds(n, i, i) == (0, 0))
  {
  }

  lemma SubstrStep(st: Store, k: string, a: int, b: int)
    ensures var s := TextOrEmpty(st, k);
      var bounds := SubstrBounds(|s|, a, b);
      Step(st, Substr(k, a, b)) == Done(st, Bulk(s[bounds.0..bounds.1]))
  {
  }

  lemma ZRemStep(st: Store, k: string, a: int, b: int)
    ensures var z := Scores(st, k);
      Step(st, ZRemRangeByRank(k, a, b)) == Done(PutZSet(st, k, z - RankMembers(z, a, b)), Int(|RankSlice(z, a, b)|))
  {
  }

  lemma ZRangeStep(st: Store, k: string, a: int, b: int)
    ensures Step(st, ZRange(k, a, b)) == Done(st, Pairs(RankSlice(Scores(st, k), a, b)))
  {
  }

  /** Running two batches back to back is running their concatenation. */
  lemma {:induction false} ExecAppend(st: Store, a: seq<Cmd>, b: seq<Cmd>)
    ensures Exec(st, a + b).store == Exec(Exec(st, a).store, b).store
    ensures Exec(st, a + b).replies == Exec(st, a).replies + Exec(Exec(st, a).store, b).replies
    decreases |a|
  {
    if |a| > 0 {
      assert (a + b)[1..] == a[1..] + b;
      ExecAppend(Step(st, a[0]).store, a[1..], b);
    } else {
      assert a + b == b;
    }
  }

  /** The delete commands for `ks`, in order. */
  function Dels(ks: seq<string>): (r: seq<Cmd>)
    ensures |r| == |ks|
    ensures forall i :: 0 <= i < |ks| ==> r[i] == Del(ks[i])
  {
    if |ks| == 0 then [] else [Del(ks[0])] + Dels(ks[1..])
  }

  /** Deleting `ks` removes exactly those keys. */
  lemma {:induction false} ExecDels(st: Store, ks: seq<string>)
    ensures Exec(st, Dels(ks)).store == st - (set k | k in ks)
    decreases |ks|
  {
    if |ks| > 0 {
      ExecDels(st - {ks[0]}, ks[1..]);
      assert st - {ks[0]} - (set k | k in ks[1..]) == st - (set k | k in ks);
    }
  }

  /** Deleting the keys a batch created, none of which existed before,
      restores the store the batch started from. */
  lemma RestoreAfterDels(s: Store, st: Store, ks: seq<string>)
    requires AgreeOff(s, st, ks)
    requires forall k :: k in ks ==> k !in st
    ensures Exec(s, Dels(ks)).store == st
  {
    ExecDels(s, ks);
    var r := s - (set k | k in ks);
    forall k ensures k in r <==> k in st {
      if k !in ks {
        AgreeOffAt(s, st, ks, k);
      }
    }
    forall k | k in r ensures r[k] == st[k] {
      AgreeOffAt(s, st, ks, k);
    }
    assert r == st;
  }

  /** No command leaves an empty collection behind. */
  lemma StepWellFormed(st: Store, c: Cmd)
    requires WellFormed(st)
    ensures WellFormed(Step(st, c).store)
  {
    if c.Del? || c.SetStr? || c.Append? {
      StringStepWellFormed(st, c);
    } else if c.SAdd? || c.SRem? || c.SUnionStore? || c.SInterStore? || c.SDiffStore? {
      SetStepWellFormed(st, c);
    } else if c.ZAdd? || c.ZRemRangeByRank? || c.ZUnionStore? || c.ZInterStore? {
      ZSetStepWellFormed(st, c);
    } else if c.LSet? || c.RPush? || c.LPush? || c.RPop? || c.LPop? || c.LRem? {
      ListStepWellFormed(st, c);
    } else {
      ReadStepKeeps(st, c);
    }
  }

  lemma StringStepWellFormed(st: Store, c: Cmd)
    requires WellFormed(st) && (c.Del? || c.SetStr? || c.Append?)
    ensures WellFormed(Step(st, c).store)
  {
  }

  lemma SetStepWellFormed(st: Store, c: Cmd)
    requires WellFormed(st) && (c.SAdd? || c.SRem? || c.SUnionStore? || c.SInterStore? || c.SDiffStore?)
    ensures WellFormed(Step(st, c).store)
  {
  }

  lemma ZSetStepWellFormed(st: Store, c: Cmd)
    requires WellFormed(st) && (c.ZAdd? || c.ZRemRangeByRank? || c.ZUnionStore? || c.ZInterStore?)
    ensures WellFormed(Step(st, c).store)
  {
  }

  lemma ListStepWellFormed(st: Store, c: Cmd)
    requires WellFormed(st) && (c.LSet? || c.RPush? || c.LPush? || c.RPop? || c.LPop? || c.LRem?)
    ensures WellFormed(Step(st, c).store)
  {
  }

  /** Every other command only reads. */
  lemma ReadStepKeeps(st: Store, c: Cmd)
    requires !(c.Del? || c.SetStr? || c.Append?)
    requires !(c.SAdd? || c.SRem? || c.SUnionStore? || c.SInterStore? || c.SDiffStore?)
    requires !(c.ZAdd? || c.ZRemRangeByRank? || c.ZUnionStore? || c.ZInterStore?)
    requires !(c.LSet? || c.RPush? || c.LPush? || c.RPop? || c.LPop? || c.LRem?)
    ensures Step(st, c).store == st
  {
  }

  lemma {:induction false} ExecWellFormed(st: Store, cs: seq<Cmd>)
    requires WellFormed(st)
    ensures WellFormed(Exec(st, cs).store)
    decreases |cs|
  {
    if |cs| > 0 {
      StepWellFormed(st, cs[0]);
      ExecWellFormed(Step(st, cs[0]).store, cs[1..]);
    }
  }
}
