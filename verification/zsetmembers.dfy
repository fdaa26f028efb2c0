/** The rest of the `ZSet` proxy (redis_natives/zset.py) in the model: the
    decoded contents, the client-side algebra on (element, score) pairs
    (`union`, `difference`, `symmetric_difference` and the
    `difference_update` that writes a difference back), `pop`, and the
    index and slice reads.

    The proxy is constructed with `withscores=True`, so every read is of
    (member, score) pairs.
 */
module ZSetMembers {
  import opened Wrappers
  import opened Codec
  import opened Store
  import opened Engine
  import opened Order
  import opened Slices
  import opened Text
  import opened ZSetProxy

  // ----------------------------------------------------------------- data

  /** `data`: ZRANGE 0 -1 WITHSCORES in rank order, each pair through
      `type_convert_tuple`. */
  function Data(h: Handle, st: Store): (r: Result<seq<Pair>>)
    ensures r == DecodePairList(h.typ, Ranked(Scores(st, h.key)))
  {
    WholeRangeStep(st, h.key);
    DecodePairList(h.typ, Step(st, ZRange(h.key, 0, -1)).reply.ps)
  }

  /** `set(self.data)`, where every client-side operation starts. */
  function DataSet(h: Handle, st: Store): Result<set<Pair>> {
    match Data(h, st)
    case Ok(ps) => Ok(set p | p in ps)
    case Err(e) => Err(e)
  }

  /** The decoded contents are the sorted set's (member, score) pairs, each
      decoded, whatever the rank order. */
  lemma DataSetMeaning(h: Handle, st: Store)
    ensures DataSet(h, st) == DecodePairs(h.typ, Scores(st, h.key).Items)
  {
    var z := Scores(st, h.key);
    var rk := Ranked(z);
    var dp := DecodePairs(h.typ, PairSet(rk));
    assert DecodePairs(h.typ, z.Items) == dp by {
      RankedPairs(z);
    }
    DecodeListAsSet(h.typ, rk);
    DataSetOfList(h, st, rk);
    if dp.Ok? {
      assert DataSet(h, st).value == dp.value;
    } else {
      assert DataSet(h, st) == Err(ValueError);
    }
  }

  lemma DataSetOfList(h: Handle, st: Store, rk: seq<(string, int)>)
    requires rk == Ranked(Scores(st, h.key))
    ensures DataSet(h, st).Ok? <==> DecodePairList(h.typ, rk).Ok?
    ensures DataSet(h, st).Ok? ==> DataSet(h, st).value == set q | q in DecodePairList(h.typ, rk).value
  {
  }

  /** Decoding a list of pairs and then forgetting the order is decoding
      the set of its pairs. */
  lemma DecodeListAsSet(t: ElemType, ps: seq<(string, int)>)
    ensures DecodePairList(t, ps).Ok? <==> DecodePairs(t, PairSet(ps)).Ok?
    ensures DecodePairList(t, ps).Ok? ==>
      (set q | q in DecodePairList(t, ps).value) == DecodePairs(t, PairSet(ps)).value
  {
    var items := PairSet(ps);
    var dl := DecodePairList(t, ps);
    var dp := DecodePairs(t, items);
    if dl.Ok? {
      forall p | p in items ensures Decode(t, p.0).Ok? {
        var i :| 0 <= i < |ps| && ps[i] == p;
      }
      DecodeListMembers(t, ps, items);
    } else {
      var i :| 0 <= i < |ps| && !Decode(t, ps[i].0).Ok?;
      assert ps[i] in items;
    }
  }

  lemma DecodeListMembers(t: ElemType, ps: seq<(string, int)>, items: set<(string, int)>)
    requires forall p :: p in items <==> p in ps
    requires DecodePairList(t, ps).Ok? && DecodePairs(t, items).Ok?
    ensures (set q | q in DecodePairList(t, ps).value) == DecodePairs(t, items).value
  {
    var dl := DecodePairList(t, ps).value;
    var dp := DecodePairs(t, items).value;
    forall q | q in dl ensures q in dp {
      var i :| 0 <= i < |dl| && dl[i] == q;
      assert ps[i] in items && DecodePair(t, ps[i]) == Ok(q);
    }
    forall q | q in dp ensures q in dl {
      var p :| p in items && DecodePair(t, p) == Ok(q);
      var i :| 0 <= i < |ps| && ps[i] == p;
      assert dl[i] == q;
    }
  }

  /** A `str` sorted set reads back as its members with their scores. */
  lemma DataSetText(h: Handle, st: Store)
    requires h.typ == StrType
    ensures DataSet(h, st).Ok?
    ensures forall q :: q in DataSet(h, st).value <==>
      q.0.StrV? && q.0.s in Scores(st, h.key) && Scores(st, h.key)[q.0.s] == q.1
  {
    DataSetMeaning(h, st);
    var z := Scores(st, h.key);
    forall q ensures q in DataSet(h, st).value <==> q.0.StrV? && q.0.s in z && z[q.0.s] == q.1 {
      if q.0.StrV? && q.0.s in z && z[q.0.s] == q.1 {
        assert (q.0.s, q.1) in z.Items && DecodePair(StrType, (q.0.s, q.1)) == Ok(q);
      }
    }
  }

  // ------------------------------------------------- client-side algebra

  /** Every pair of any of the sets. */
  function UnionAll(ss: seq<set<Pair>>): (r: set<Pair>)
    ensures forall p :: p in r <==> exists i :: 0 <= i < |ss| && p in ss[i]
    decreases |ss|
  {
    if |ss| == 0 then {}
    else
      var rest := UnionAll(ss[1..]);
      assert forall p :: p in rest <==> exists i :: 1 <= i < |ss| && p in ss[i] by {
        forall p | p in rest ensures exists i :: 1 <= i < |ss| && p in ss[i] {
          var i :| 0 <= i < |ss[1..]| && p in ss[1..][i];
          assert p in ss[i + 1];
        }
      }
      ss[0] + rest
  }

  /** `union(*others)`: the decoded pairs and every pair of every other set,
      a pair being kept whole (one element may so appear with two scores). */
  function Union(h: Handle, st: Store, others: seq<set<Pair>>): (r: Result<set<Pair>>)
    ensures r.Ok? <==> DataSet(h, st).Ok?
    ensures r.Ok? ==> forall p :: p in r.value <==>
      p in DataSet(h, st).value || exists i :: 0 <= i < |others| && p in others[i]
  {
    match DataSet(h, st)
    case Err(e) => Err(e)
    case Ok(d) => Ok(d + UnionAll(others))
  }

  /** `difference(*others)`: the decoded pairs no other set holds; a pair
      goes only if the identical (element, score) pair is in an operand. */
  function Difference(h: Handle, st: Store, others: seq<set<Pair>>): (r: Result<set<Pair>>)
    ensures r.Ok? <==> DataSet(h, st).Ok?
    ensures r.Ok? ==> forall p :: p in r.value <==>
      p in DataSet(h, st).value && forall i :: 0 <= i < |others| ==> p !in others[i]
  {
    match DataSet(h, st)
    case Err(e) => Err(e)
    case Ok(d) => Ok(d - UnionAll(others))
  }

  /** The number of the sets holding `p`. */
  function Occurrences(p: Pair, ss: seq<set<Pair>>): nat
    decreases |ss|
  {
    if |ss| == 0 then 0 else (if p in ss[0] then 1 else 0) + Occurrences(p, ss[1..])
  }

  /** `data = data.symmetric_difference(other)` for each other set in turn:
      a pair ends up in the result when it is in `acc` or in an odd number
      of the sets, but not both. */
  function SymFold(acc: set<Pair>, ss: seq<set<Pair>>): (r: set<Pair>)
    ensures forall p :: p in r <==> ((p in acc) != (Occurrences(p, ss) % 2 == 1))
    decreases |ss|
  {
    if |ss| == 0 then acc
    else SymFold((acc - ss[0]) + (ss[0] - acc), ss[1..])
  }

  /** `symmetric_difference(*others)`: the decoded pairs folded through
      Python's set symmetric difference with each other set. */
  function SymmetricDifference(h: Handle, st: Store, others: seq<set<Pair>>): (r: Result<set<Pair>>)
    ensures r.Ok? <==> DataSet(h, st).Ok?
    ensures r.Ok? ==> forall p :: p in r.value <==>
      (p in DataSet(h, st).value) != (Occurrences(p, others) % 2 == 1)
  {
    match DataSet(h, st)
    case Err(e) => Err(e)
    case Ok(d) => Ok(SymFold(d, others))
  }

  /** With one other set this is the ordinary symmetric difference. */
  lemma SymmetricDifferenceOfOne(h: Handle, st: Store, o: set<Pair>)
    requires DataSet(h, st).Ok?
    ensures SymmetricDifference(h, st, [o]).value
         == (DataSet(h, st).value - o) + (o - DataSet(h, st).value)
  {
    SymFoldOne(DataSet(h, st).value, o);
  }

  lemma SymFoldOne(d: set<Pair>, o: set<Pair>)
    ensures SymFold(d, [o]) == (d - o) + (o - d)
  {
    var r := SymFold(d, [o]);
    forall p ensures p in r <==> p in (d - o) + (o - d) {
      assert Occurrences(p, [o]) == (if p in o then 1 else 0) by {
        assert [o][1..] == [];
      }
    }
  }

  // ---------------------------------------------------- difference_update

  /** The pairs as `difference_update` sends them: each element through the
      client's `str()`, with its score. */
  function EncodedPairs(ps: set<Pair>): set<(string, int)> {
    set p | p in ps :: (ClientText(p.0), p.1)
  }

  /** `difference_update(*others)`: a delete of the primary is queued on
      the shared pipe first; then the difference is computed (reading the
      primary directly, not through the pipe) and one ZADD per pair of it
      is queued; one execute. If reading the primary raises, the delete
      stays queued. Python's set iteration order is modelled as the pairs'
      rank order. */
  function DifferenceUpdate(h: Handle, st: Store, others: seq<set<Pair>>): (r: Outcome<()>)
    ensures r.value.Ok? <==> DataSet(h, st).Ok?
    ensures r.value.Err? ==> r == Outcome(h.(pipe := h.pipe + [Del(h.key)]), st, Err(DataSet(h, st).error))
  {
    var h1 := h.(pipe := h.pipe + [Del(h.key)]);
    match Difference(h, st, others)
    case Err(e) => Outcome(h1, st, Err(e))
    case Ok(d) =>
      Outcome(h.(pipe := []), Exec(st, h1.pipe + RawFill(h.key, Sorted(EncodedPairs(d)))).store, Ok(()))
  }

  /** The sorted set holding exactly the pairs `e` of `z`. */
  function Within(z: map<string, int>, e: set<(string, int)>): map<string, int> {
    map m | m in z && (m, z[m]) in e :: z[m]
  }

  lemma WithinItems(z: map<string, int>, e: set<(string, int)>)
    requires e <= z.Items
    ensures Within(z, e).Items == e
  {
    var w := Within(z, e);
    forall p ensures p in w.Items <==> p in e {
      if p in e {
        assert p in z.Items;
        assert p.0 in z && z[p.0] == p.1;
        assert p.0 in w && w[p.0] == p.1;
      }
      if p in w.Items {
        assert p.0 in w && w[p.0] == p.1;
        assert (p.0, z[p.0]) in e;
      }
    }
  }

  /** For a `str` handle the pairs of the difference, as sent, are pairs of
      the primary, and reading them back gives the difference. */
  lemma EncodedDifference(h: Handle, st: Store, d: set<Pair>)
    requires h.typ == StrType && DataSet(h, st).Ok? && d <= DataSet(h, st).value
    ensures EncodedPairs(d) <= Scores(st, h.key).Items
    ensures DecodePairs(StrType, EncodedPairs(d)) == Ok(d)
  {
    DataSetText(h, st);
    EncodedText(d, Scores(st, h.key));
  }

  /** Text pairs of `z`, sent as text and read back as text, are unchanged. */
  lemma EncodedText(d: set<Pair>, z: map<string, int>)
    requires forall q :: q in d ==> q.0.StrV? && q.0.s in z && z[q.0.s] == q.1
    ensures EncodedPairs(d) <= z.Items
    ensures DecodePairs(StrType, EncodedPairs(d)) == Ok(d)
  {
    var e := EncodedPairs(d);
    forall p | p in e ensures p in z.Items {
      var q :| q in d && p == (ClientText(q.0), q.1);
      assert p.0 in z && z[p.0] == p.1;
    }
    var r := DecodePairs(StrType, e);
    assert r.Ok? by {
      forall p | p in e ensures Decode(StrType, p.0).Ok? {
      }
    }
    forall q | q in d ensures q in r.value {
      assert (ClientText(q.0), q.1) in e;
      assert DecodePair(StrType, (ClientText(q.0), q.1)) == Ok(q);
    }
    forall q | q in r.value ensures q in d {
      var p :| p in e && DecodePair(StrType, p) == Ok(q);
      var q' :| q' in d && p == (ClientText(q'.0), q'.1);
      assert q' == q;
    }
    assert r.value == d;
  }

  /** From an idle `str` handle, `difference_update` leaves the primary
      holding exactly the difference and touches no other key. */
  lemma DifferenceUpdateCorrect(h: Handle, st: Store, others: seq<set<Pair>>)
    requires Idle(h) && h.typ == StrType
    ensures var r := DifferenceUpdate(h, st, others);
      r.h == h && r.value == Ok(())
      && DataSet(h, r.st) == Difference(h, st, others)
      && AgreeOff(r.st, st, [h.key])
  {
    DataSetText(h, st);
    var d := Difference(h, st, others).value;
    var k := h.key;
    var e := EncodedPairs(d);
    EncodedDifference(h, st, d);
    ReplacePairs(st, k, e);
    var s1 := Exec(st, [Del(k)] + RawFill(k, Sorted(e))).store;
    DataSetMeaning(h, s1);
  }

  /** A batch that starts with DEL runs the rest on the store without
      the key. */
  lemma DeleteFirst(st: Store, k: string, cs: seq<Cmd>)
    ensures Exec(st, [Del(k)] + cs).store == Exec(st - {k}, cs).store
  {
    var all := [Del(k)] + cs;
    assert all[0] == Del(k) && all[1..] == cs;
  }

  /** Deleting a sorted set and adding back some of its pairs leaves
      exactly those pairs. */
  lemma ReplacePairs(st: Store, k: string, e: set<(string, int)>)
    requires e <= Scores(st, k).Items
    ensures var s1 := Exec(st, [Del(k)] + RawFill(k, Sorted(e))).store;
      Scores(s1, k).Items == e && AgreeOff(s1, st, [k])
  {
    var w := Within(Scores(st, k), e);
    WithinItems(Scores(st, k), e);
    var s0 := st - {k};
    DeleteFirst(st, k, RawFill(k, Sorted(e)));
    RebuildFromPairs(s0, k, w);
    var s1 := Exec(s0, RawFill(k, Sorted(e))).store;
    AgreeOffIntro(s0, st, [k]);
    AgreeOffTrans(s1, s0, st, [k], [k]);
    AgreeOffWiden(s1, st, [k] + [k], [k]);
  }

  // ------------------------------------------------------------------ pop

  /** The batch `pop` runs after the commands already queued: ZRANGE of the
      one rank and ZREMRANGEBYRANK of it. */
  function PopCmds(k: string, idx: int): seq<Cmd> {
    [ZRange(k, idx, idx), ZRemRangeByRank(k, idx, idx)]
  }

  /** The popped member's text: ZCARD; `RedisKeyError` when empty;
      otherwise a rank picked as `pick % length` (for `randint(0, length -
      1)`), read and removed in one execute of the shared pipe, whose first
      reply's first member is taken. */
  function PopText(h: Handle, st: Store, pick: nat): (r: Outcome<string>)
    ensures Idle(h) && |Scores(st, h.key)| == 0 ==> r == Outcome(h, st, Err(RedisKeyError))
    ensures Idle(h) && |Scores(st, h.key)| > 0 ==>
      var z := Scores(st, h.key);
      var m := Ranked(z)[pick % |z|].0;
      r.h == h && r.value == Ok(m)
      && Scores(r.st, h.key) == z - {m}
      && AgreeOff(r.st, st, [h.key])
  {
    var n := Step(st, ZCard(h.key)).reply.n;
    if n == 0 then Outcome(h, st, Err(RedisKeyError))
    else
      var idx := pick % n;
      var ran := Exec(st, h.pipe + PopCmds(h.key, idx));
      PopBatch(st, h.key, idx);
      var first := ran.replies[0];
      var value := if first.Pairs? && |first.ps| > 0 then Ok(first.ps[0].0) else Err(TypeError);
      Outcome(h.(pipe := []), ran.store, value)
  }

  /** The two commands of `pop` at a rank inside the sorted set read the
      member there and remove exactly it. */
  lemma PopBatch(st: Store, k: string, idx: int)
    requires 0 <= idx < |Scores(st, k)|
    ensures var z := Scores(st, k);
      var m := Ranked(z)[idx].0;
      var ran := Exec(st, [] + PopCmds(k, idx));
      ran.replies[0].Pairs? && |ran.replies[0].ps| > 0 && ran.replies[0].ps[0].0 == m
      && Scores(ran.store, k) == z - {m}
      && AgreeOff(ran.store, st, [k])
  {
    var c1 := ZRange(k, idx, idx);
    var c2 := ZRemRangeByRank(k, idx, idx);
    assert [] + PopCmds(k, idx) == [c1] + [c2];
    ExecOne(st, c1);
    ExecAppend(st, [c1], [c2]);
    RankRead(st, k, idx);
    ExecOne(st, c2);
    RankRemoved(st, k, idx);
  }

  /** ZRANGE of one rank inside the sorted set reads the pair there. */
  lemma RankRead(st: Store, k: string, idx: int)
    requires 0 <= idx < |Scores(st, k)|
    ensures Step(st, ZRange(k, idx, idx)) == Done(st, Pairs([Ranked(Scores(st, k))[idx]]))
  {
    OneRank(Scores(st, k), idx);
    ZRangeStep(st, k, idx, idx);
  }

  /** ZREMRANGEBYRANK of one rank inside the sorted set removes the member
      there and nothing else. */
  lemma RankRemoved(st: Store, k: string, idx: int)
    requires 0 <= idx < |Scores(st, k)|
    ensures var z := Scores(st, k);
      var s := Step(st, ZRemRangeByRank(k, idx, idx)).store;
      Scores(s, k) == z - {Ranked(z)[idx].0} && AgreeOff(s, st, [k])
  {
    var z := Scores(st, k);
    OneRankMember(z, idx);
    ZRemStep(st, k, idx, idx);
    PutZSetAgrees(st, st, [], k, z - RankMembers(z, idx, idx));
  }

  /** `self.type(value)`: the handle's type constructor on the popped text.
      `str` keeps it, `int` parses it, and `bool` is Python's truth of a
      string: true for any non-empty text, "0" included. */
  function PyType(t: ElemType, text: string): (r: Result<Value>)
    ensures t == BoolType ==> r == Ok(BoolV(text != ""))
    ensures t != BoolType ==> r == Decode(t, text)
  {
    match t
    case StrType => Ok(StrV(text))
    case IntType =>
      (match ParseInt(text)
       case Some(n) => Ok(IntV(n))
       case None => Err(ValueError))
    case BoolType => Ok(BoolV(text != ""))
  }

  /** `pop()` as written: the popped text through `self.type`. */
  function PopAsWritten(h: Handle, st: Store, pick: nat): (r: Outcome<Value>)
    ensures var p := PopText(h, st, pick);
      r.h == p.h && r.st == p.st
      && (p.value.Err? ==> r.value == Err(p.value.error))
      && (p.value.Ok? ==> r.value == PyType(h.typ, p.value.value))
  {
    var p := PopText(h, st, pick);
    match p.value
    case Err(e) => Outcome(p.h, p.st, Err(e))
    case Ok(text) => Outcome(p.h, p.st, PyType(h.typ, text))
  }

  /** `pop()` reading the member back through `type_convert`, like every
      other read of the proxy. */
  function Pop(h: Handle, st: Store, pick: nat): (r: Outcome<Value>)
    ensures Idle(h) && |Scores(st, h.key)| == 0 ==> r == Outcome(h, st, Err(RedisKeyError))
    ensures Idle(h) && |Scores(st, h.key)| > 0 ==>
      var z := Scores(st, h.key);
      var m := Ranked(z)[pick % |z|].0;
      r.h == h && r.value == Decode(h.typ, m)
      && Scores(r.st, h.key) == z - {m}
      && |Scores(r.st, h.key)| == |z| - 1
      && AgreeOff(r.st, st, [h.key])
  {
    var p := PopText(h, st, pick);
    match p.value
    case Err(e) => Outcome(p.h, p.st, Err(e))
    case Ok(text) => Outcome(p.h, p.st, Decode(h.typ, text))
  }

  /** A `bool` sorted set whose only member is "0" pops `True` as written,
      where `type_convert` reads it as `False`. */
  lemma PopBoolZero(h: Handle, st: Store, pick: nat, score: int)
    requires Idle(h) && h.typ == BoolType
    requires Scores(st, h.key) == map["0" := score]
    ensures PopAsWritten(h, st, pick).value == Ok(BoolV(true))
    ensures Pop(h, st, pick).value == Ok(BoolV(false))
  {
    var z := Scores(st, h.key);
    assert |z| == 1 by {
      assert z.Keys == {"0"};
    }
    assert pick % 1 == 0;
    assert Ranked(z)[0].0 == "0";
    BoolZeroIsFalse();
  }

  // --------------------------------------------------------- index, slice

  /** `z[i]`: ZRANGE i i WITHSCORES, its first pair through
      `type_convert_tuple`; an empty reply has no first pair
      (`IndexError`). */
  function GetItem(h: Handle, st: Store, i: int): (r: Result<Pair>)
    ensures var rk := Ranked(Scores(st, h.key));
      var j := if i < 0 then i + |rk| else i;
      (0 <= j < |rk| ==> r == DecodePair(h.typ, rk[j]))
      && (!(0 <= j < |rk|) ==> r == Err(IndexError))
  {
    // the reply of ZRANGE i i (Store.ZRangeStep)
    var ps := RankSlice(Scores(st, h.key), i, i);
    RankHead(Scores(st, h.key), i, ps);
    if |ps| == 0 then Err(IndexError) else DecodePair(h.typ, ps[0])
  }

  /** The reply of ZRANGE i i holds the pair at the rank `i` names, or
      nothing when it names none. */
  lemma RankHead(z: map<string, int>, i: int, ps: seq<(string, int)>)
    requires ps == RankSlice(z, i, i)
    ensures var j := if i < 0 then i + |z| else i;
      (0 <= j < |z| ==> |ps| > 0 && ps[0] == Ranked(z)[j])
      && (!(0 <= j < |z|) ==> |ps| == 0)
  {
    OneRank(z, i);
  }

  /** `z[start:stop]` as the proxy sends it: ZRANGE of the inclusive
      translation, each pair through `type_convert_tuple`. */
  function GetSliceAsWritten(h: Handle, st: Store, start: Option<int>, stop: Option<int>): (r: Result<seq<Pair>>)
    ensures var rk := Ranked(Scores(st, h.key));
      var b := ReadBoundsAsWritten(|rk|, start, stop);
      r == DecodePairList(h.typ, rk[b.0..b.1])
  {
    var (a, b) := InclusiveRange(start, stop);
    DecodePairList(h.typ, Step(st, ZRange(h.key, a, b)).reply.ps)
  }

  /** `z[start:stop]` with a stop of 0 read as an empty slice: exactly
      Python's slice of the ranked pairs. */
  function GetSlice(h: Handle, st: Store, start: Option<int>, stop: Option<int>): (r: Result<seq<Pair>>)
    ensures var rk := Ranked(Scores(st, h.key));
      var b := PySlice(|rk|, start, stop);
      r == DecodePairList(h.typ, rk[b.0..b.1])
  {
    ReadBoundsIsPySlice(|Scores(st, h.key)|, start, stop);
    if stop == Some(0) then Ok([]) else GetSliceAsWritten(h, st, start, stop)
  }

  /** `z[s:0]` for a rank `s` inside the set: Python's slice is empty, the
      proxy reads every pair from rank `s` on. */
  lemma StopZeroReadsTail(h: Handle, st: Store, s: int)
    requires 0 <= s < |Scores(st, h.key)|
    ensures GetSlice(h, st, Some(s), Some(0)) == Ok([])
    ensures GetSliceAsWritten(h, st, Some(s), Some(0)) == DecodePairList(h.typ, Ranked(Scores(st, h.key))[s..])
  {
    var rk := Ranked(Scores(st, h.key));
    StopZeroReadsRest(|rk|, s);
    TailSlice(rk, s);
  }

  lemma TailSlice(rk: seq<(string, int)>, s: nat)
    requires s <= |rk|
    ensures rk[s..|rk|] == rk[s..]
  {
  }

  /** `z[start:stop] = v`: the value is prepared (which can raise for a
      `bool` handle), then slice assignment raises `TypeError`. */
  function SetSlice(h: Handle, v: Value): (r: Result<()>)
    ensures r.Err?
    ensures r.error == TypeError <==> Prepare(h.typ, v).Ok?
  {
    match Prepare(h.typ, v)
    case Err(e) => Err(e)
    case Ok(_) => Err(TypeError)
  }
}
