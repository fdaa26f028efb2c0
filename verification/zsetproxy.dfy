/** The server-side set algebra of the `ZSet` proxy (redis_natives/zset.py):
    `update`, `intersection_update` and `intersection`. Each is one batch:
    a ZADD per element of every local operand under its temporary name,
    the store's ZUNIONSTORE or ZINTERSTORE with the chosen aggregation,
    the deletes of the temporaries, one execute.

    A local operand is a Python set (or list) of (element, score) pairs.
 */
module ZSetProxy {
  import opened Wrappers
  import opened Codec
  import opened Store
  import opened TempKeys
  import opened Engine
  import opened Order

  type Pair = (Value, int)

  // ------------------------------------------------------------ operands

  /** The ZADDs `parse_args` queues for a local operand: each element as
      the client library sends it, with its score. */
  function ZFill(t: string, xs: seq<Pair>): (r: seq<Cmd>)
    ensures |r| == |xs|
    ensures forall i :: 0 <= i < |xs| ==> r[i] == ZAdd(t, ClientText(xs[i].0), xs[i].1)
  {
    if |xs| == 0 then [] else [ZAdd(t, ClientText(xs[0].0), xs[0].1)] + ZFill(t, xs[1..])
  }

  function ZFills(pending: seq<(string, seq<Pair>)>): seq<Cmd> {
    if |pending| == 0 then []
    else ZFills(pending[..|pending| - 1]) + ZFill(pending[|pending| - 1].0, pending[|pending| - 1].1)
  }

  /** The fill commands of the first `n` operands. */
  function ZFillCmds(ops: seq<Operand<Pair>>, n: nat): seq<Cmd>
    requires n <= |ops| && forall j :: 0 <= j < n ==> !ops[j].Other?
  {
    ZFills(Prefix(ops, n).pending)
  }

  /** The handle once the fills and then `cmds` are queued. */
  function ZQueue(q: Queued<Pair>, cmds: seq<Cmd>): Handle {
    q.h.(pipe := q.h.pipe + ZFills(q.pending) + cmds)
  }

  lemma ZQueueFresh(h: Handle, ops: seq<Operand<Pair>>, cmds: seq<Cmd>)
    requires h.pipe == [] && Accepted(ops)
    ensures ZQueue(ParseArgs(h, ops).value, cmds)
         == h.(pipe := ZFillCmds(ops, |ops|) + cmds, tmpKeys := h.tmpKeys + TempNames(ops, |ops|))
  {
    var r := ZQueue(ParseArgs(h, ops).value, cmds);
    ZQueuedPipe(h, ops, cmds);
    ZQueuedNames(h, ops, cmds);
    assert r == Handle(r.key, r.typ, r.pipe, r.tmpKeys);
  }

  lemma ZQueuedPipe(h: Handle, ops: seq<Operand<Pair>>, cmds: seq<Cmd>)
    requires h.pipe == [] && Accepted(ops)
    ensures ZQueue(ParseArgs(h, ops).value, cmds).pipe == ZFillCmds(ops, |ops|) + cmds
  {
  }

  lemma ZQueuedNames(h: Handle, ops: seq<Operand<Pair>>, cmds: seq<Cmd>)
    requires Accepted(ops)
    ensures ZQueue(ParseArgs(h, ops).value, cmds).tmpKeys == h.tmpKeys + TempNames(ops, |ops|)
    ensures ZQueue(ParseArgs(h, ops).value, cmds).key == h.key
    ensures ZQueue(ParseArgs(h, ops).value, cmds).typ == h.typ
  {
  }

  /** One more operand adds its own fill, if it is local, and nothing else. */
  lemma ZFillCmdsStep(ops: seq<Operand<Pair>>, n: nat)
    requires 0 < n <= |ops| && forall j :: 0 <= j < n ==> !ops[j].Other?
    ensures ops[n - 1].Remote? ==> ZFillCmds(ops, n) == ZFillCmds(ops, n - 1)
    ensures !ops[n - 1].Remote? ==>
      ZFillCmds(ops, n) == ZFillCmds(ops, n - 1) + ZFill(OperandTempKey(n - 1), Elements(ops[n - 1]))
  {
    var p := Prefix(ops, n - 1).pending;
    if !ops[n - 1].Remote? {
      var x := (OperandTempKey(n - 1), Elements(ops[n - 1]));
      assert (p + [x])[..|p|] == p;
    }
  }

  /** ZADD after ZADD, in order: a later pair overrides an earlier score
      for the same element. */
  function AddAll(z: map<string, int>, xs: seq<Pair>): (r: map<string, int>)
    decreases |xs|
  {
    if |xs| == 0 then z else AddAll(z[ClientText(xs[0].0) := xs[0].1], xs[1..])
  }

  /** The sorted set a local operand stands for once it is filled. */
  function PairScores(xs: seq<Pair>): map<string, int> {
    AddAll(map[], xs)
  }

  /** The sorted set an operand stands for: a remote one's scores, or the
      scores of a local operand's pairs. */
  function OperandScores(st: Store, o: Operand<Pair>): map<string, int> {
    match o
    case Remote(k) => Scores(st, k)
    case Other => map[]
    case _ => PairScores(Elements(o))
  }

  function OperandMaps(st: Store, ops: seq<Operand<Pair>>): (r: seq<map<string, int>>)
    ensures |r| == |ops|
    ensures forall i :: 0 <= i < |ops| ==> r[i] == OperandScores(st, ops[i])
  {
    if |ops| == 0 then [] else [OperandScores(st, ops[0])] + OperandMaps(st, ops[1..])
  }

  /** What the primary and the operands stand for, in argument order. */
  function AllMaps(st: Store, h: Handle, ops: seq<Operand<Pair>>): seq<map<string, int>> {
    [Scores(st, h.key)] + OperandMaps(st, ops)
  }

  /** Filling a key leaves exactly the pairs' scores added to it, and
      touches no other key. */
  lemma {:induction false} ZFillEffect(st: Store, t: string, xs: seq<Pair>)
    ensures Scores(Exec(st, ZFill(t, xs)).store, t) == AddAll(Scores(st, t), xs)
    ensures AgreeOff(Exec(st, ZFill(t, xs)).store, st, [t])
    decreases |xs|
  {
    if |xs| > 0 {
      var m := ClientText(xs[0].0);
      var z1 := Scores(st, t)[m := xs[0].1];
      var s1 := PutZSet(st, t, z1);
      assert Exec(st, ZFill(t, xs)).store == Exec(s1, ZFill(t, xs[1..])).store by {
        assert ZFill(t, xs) == [ZAdd(t, m, xs[0].1)] + ZFill(t, xs[1..]);
        assert Step(st, ZAdd(t, m, xs[0].1)).store == s1;
      }
      ZFillEffect(s1, t, xs[1..]);
      PutZSetAgrees(st, st, [], t, z1);
      AgreeOffTrans(Exec(s1, ZFill(t, xs[1..])).store, s1, st, [t], [t]);
      AgreeOffWiden(Exec(s1, ZFill(t, xs[1..])).store, st, [t] + [t], [t]);
    } else {
      AgreeOffIntro(st, st, [t]);
    }
  }

  /** What the fills of the first `n` operands have left in `s`. */
  ghost predicate ZFilledUpTo(s: Store, st: Store, ops: seq<Operand<Pair>>, n: nat)
    requires n <= |ops|
  {
    AgreeOff(s, st, TempNames(ops, n))
    && forall j :: 0 <= j < n ==> Scores(s, OperandKey(ops[j], j)) == OperandScores(st, ops[j])
  }

  lemma ZFilledRemote(st: Store, s0: Store, h: Handle, ops: seq<Operand<Pair>>, extra: seq<string>, n: nat)
    requires 0 < n <= |ops| && ops[n - 1].Remote? && Fresh(st, h, ops, extra)
    requires ZFilledUpTo(s0, st, ops, n - 1)
    ensures ZFilledUpTo(s0, st, ops, n)
  {
    assert TempNames(ops, n) == TempNames(ops, n - 1);
    NotTemp(st, h, ops, extra, n - 1, ops[n - 1].key);
    AgreeOffReads(s0, st, TempNames(ops, n - 1), ops[n - 1].key);
  }

  lemma ZFilledLocal(st: Store, s0: Store, s1: Store, ops: seq<Operand<Pair>>, n: nat)
    requires 0 < n <= |ops| && (ops[n - 1].Local? || ops[n - 1].LocalList?)
    requires OperandTempKey(n - 1) !in st && OperandTempKey(n - 1) !in TempNames(ops, n - 1)
    requires forall j :: 0 <= j < n - 1 ==> OperandKey(ops[j], j) != OperandTempKey(n - 1)
    requires ZFilledUpTo(s0, st, ops, n - 1)
    requires AgreeOff(s1, s0, [OperandTempKey(n - 1)])
    requires Scores(s1, OperandTempKey(n - 1)) == AddAll(Scores(s0, OperandTempKey(n - 1)), Elements(ops[n - 1]))
    ensures ZFilledUpTo(s1, st, ops, n)
  {
    var t := OperandTempKey(n - 1);
    var before := TempNames(ops, n - 1);
    assert TempNames(ops, n) == before + [t];
    AgreeOffTrans(s1, s0, st, [t], before);
    AgreeOffReads(s0, st, before, t);
    assert Scores(s1, OperandKey(ops[n - 1], n - 1)) == OperandScores(st, ops[n - 1]);
    ZEarlierKeysKept(s1, s0, st, ops, n - 1, t);
    forall j | 0 <= j < n ensures Scores(s1, OperandKey(ops[j], j)) == OperandScores(st, ops[j]) {
      if j < n - 1 {
      }
    }
  }

  lemma ZEarlierKeysKept(s1: Store, s0: Store, st: Store, ops: seq<Operand<Pair>>, n: nat, t: string)
    requires n <= |ops| && AgreeOff(s1, s0, [t])
    requires forall j :: 0 <= j < n ==> OperandKey(ops[j], j) != t
    requires forall j :: 0 <= j < n ==> Scores(s0, OperandKey(ops[j], j)) == OperandScores(st, ops[j])
    ensures forall j :: 0 <= j < n ==> Scores(s1, OperandKey(ops[j], j)) == OperandScores(st, ops[j])
  {
    forall j | 0 <= j < n
      ensures Scores(s1, OperandKey(ops[j], j)) == OperandScores(st, ops[j])
    {
      AgreeOffReads(s1, s0, [t], OperandKey(ops[j], j));
    }
  }

  /** After the fill commands of the first `n` operands, each of their keys
      holds the sorted set the operand stands for, and nothing but their
      temporary names has changed. */
  lemma {:induction false} ZFilled(st: Store, h: Handle, ops: seq<Operand<Pair>>, extra: seq<string>, n: nat)
    requires n <= |ops| && Accepted(ops) && Fresh(st, h, ops, extra)
    ensures ZFilledUpTo(Exec(st, ZFillCmds(ops, n)).store, st, ops, n)
    decreases n
  {
    if n > 0 {
      ZFilled(st, h, ops, extra, n - 1);
      var s0 := Exec(st, ZFillCmds(ops, n - 1)).store;
      ZFillCmdsStep(ops, n);
      if ops[n - 1].Remote? {
        ZFilledRemote(st, s0, h, ops, extra, n);
      } else {
        var fill := ZFill(OperandTempKey(n - 1), Elements(ops[n - 1]));
        ExecAppend(st, ZFillCmds(ops, n - 1), fill);
        LocalNameFree(st, h, ops, extra, n);
        ZFillEffect(s0, OperandTempKey(n - 1), Elements(ops[n - 1]));
        ZFilledLocal(st, s0, Exec(s0, fill).store, ops, n);
      }
    }
  }

  /** Once the operands are filled, the keys the primitive is given hold the
      primary's sorted set followed by what each operand stands for. */
  lemma ZKeysRead(st: Store, h: Handle, ops: seq<Operand<Pair>>, extra: seq<string>)
    requires Accepted(ops) && Fresh(st, h, ops, extra)
    ensures AgreeOff(Exec(st, ZFillCmds(ops, |ops|)).store, st, TempNames(ops, |ops|))
    ensures ScoreMaps(Exec(st, ZFillCmds(ops, |ops|)).store, ParseArgs(h, ops).value.keys) == AllMaps(st, h, ops)
  {
    var s1 := Exec(st, ZFillCmds(ops, |ops|)).store;
    ZFilled(st, h, ops, extra, |ops|);
    assert Scores(s1, h.key) == Scores(st, h.key) by {
      NotTemp(st, h, ops, extra, |ops|, h.key);
      AgreeOffReads(s1, st, TempNames(ops, |ops|), h.key);
    }
    ZOperandKeysRead(s1, st, h, ops);
  }

  lemma ZOperandKeysRead(s1: Store, st: Store, h: Handle, ops: seq<Operand<Pair>>)
    requires Accepted(ops) && Scores(s1, h.key) == Scores(st, h.key)
    requires forall j :: 0 <= j < |ops| ==> Scores(s1, OperandKey(ops[j], j)) == OperandScores(st, ops[j])
    ensures ScoreMaps(s1, ParseArgs(h, ops).value.keys) == AllMaps(st, h, ops)
  {
    var keys := ParseArgs(h, ops).value.keys;
    var a := ScoreMaps(s1, keys);
    var os := OperandMaps(st, ops);
    var b := [Scores(st, h.key)] + os;
    assert |a| == |b|;
    forall i | 0 <= i < |a| ensures a[i] == b[i] {
      if i == 0 {
        assert keys[0] == h.key;
      } else {
        assert keys[i] == OperandKey(ops[i - 1], i - 1);
        assert b[i] == os[i - 1];
      }
    }
    assert a == b;
  }

  lemma ZTempsAbsent(st: Store, h: Handle, ops: seq<Operand<Pair>>, extra: seq<string>)
    requires Fresh(st, h, ops, extra)
    ensures forall t :: t in TempNames(ops, |ops|) ==> t !in st
    ensures forall t :: t in extra ==> t !in st
  {
    forall t | t in TempNames(ops, |ops|) || t in extra ensures t !in st {
      FreshName(st, h, ops, extra, |ops|, t);
    }
  }

  // ----------------------------------------------------- algebra commands

  datatype ZOp = UnionOp | InterOp

  function StoreCmd(op: ZOp, dst: string, ks: seq<string>, agg: Aggregate): Cmd {
    match op
    case UnionOp => ZUnionStore(dst, ks, agg)
    case InterOp => ZInterStore(dst, ks, agg)
  }

  /** The sorted-set algebra the two storing primitives compute. */
  function MapAlgebra(op: ZOp, ms: seq<map<string, int>>, agg: Aggregate): map<string, int>
    requires |ms| > 0
  {
    match op
    case UnionOp => UnionMaps(ms, agg)
    case InterOp => InterMaps(ms, agg)
  }

  lemma StoreCmdStep(s: Store, op: ZOp, dst: string, ks: seq<string>, agg: Aggregate)
    requires |ks| > 0
    ensures Step(s, StoreCmd(op, dst, ks, agg)).store == PutZSet(s, dst, MapAlgebra(op, ScoreMaps(s, ks), agg))
  {
    match op
    case UnionOp => UnionStoreStep(s, dst, ks, agg);
    case InterOp => InterStoreStep(s, dst, ks, agg);
  }

  lemma UnionStoreStep(s: Store, dst: string, ks: seq<string>, agg: Aggregate)
    requires |ks| > 0
    ensures Step(s, ZUnionStore(dst, ks, agg)).store == PutZSet(s, dst, UnionMaps(ScoreMaps(s, ks), agg))
  {
  }

  lemma InterStoreStep(s: Store, dst: string, ks: seq<string>, agg: Aggregate)
    requires |ks| > 0
    ensures Step(s, ZInterStore(dst, ks, agg)).store == PutZSet(s, dst, InterMaps(ScoreMaps(s, ks), agg))
  {
  }

  /** ZRANGE 0 -1 replies with the whole sorted set in rank order. */
  lemma WholeRangeStep(s: Store, k: string)
    ensures Step(s, ZRange(k, 0, -1)) == Done(s, Pairs(Ranked(Scores(s, k))))
  {
    var r := Ranked(Scores(s, k));
    WholeRange(|r|);
    assert r[0..|r|] == r;
  }

  /** `update` and `intersection_update`: one batch storing the algebra at
      the primary key. */
  function StoreOp(h: Handle, st: Store, ops: seq<Operand<Pair>>, op: ZOp, agg: Aggregate): Outcome<()> {
    match ParseArgs(h, ops)
    case Err(e) => Outcome(h, st, Err(e))
    case Ok(q) =>
      var c := DeleteTemporary(ZQueue(q, [StoreCmd(op, h.key, q.keys, agg)]));
      Flush(c.h, st)
  }

  function Update(h: Handle, st: Store, ops: seq<Operand<Pair>>, agg: Aggregate): Outcome<()> {
    StoreOp(h, st, ops, UnionOp, agg)
  }

  function IntersectionUpdate(h: Handle, st: Store, ops: seq<Operand<Pair>>, agg: Aggregate): Outcome<()> {
    StoreOp(h, st, ops, InterOp, agg)
  }

  /** The batch of an update operation stores the union or intersection of
      the primary and the operands, scores aggregated, at the primary key
      and changes nothing else; a rejected operand raises before anything
      is queued, as the corrected `parse_args` does. */
  lemma StoreOpCorrect(h: Handle, st: Store, ops: seq<Operand<Pair>>, op: ZOp, agg: Aggregate)
    requires Idle(h) && Fresh(st, h, ops, [])
    ensures StoreOp(h, st, ops, op, agg)
         == if Accepted(ops) then Outcome(h, PutZSet(st, h.key, MapAlgebra(op, AllMaps(st, h, ops), agg)), Ok(()))
            else Outcome(h, st, Err(RedisTypeError))
  {
    if Accepted(ops) {
      var fills := ZFillCmds(ops, |ops|);
      var temps := TempNames(ops, |ops|);
      var q := ParseArgs(h, ops).value;
      var c := StoreCmd(op, h.key, q.keys, agg);
      assert ZQueue(q, [c]) == h.(pipe := fills + [c], tmpKeys := temps) by {
        ZQueueFresh(h, ops, [c]);
        assert h.tmpKeys + temps == temps;
      }
      Batch(h, st, fills, temps, c);
      StoreRestored(h, st, ops, op, agg);
    }
  }

  lemma StoreRestored(h: Handle, st: Store, ops: seq<Operand<Pair>>, op: ZOp, agg: Aggregate)
    requires Accepted(ops) && Fresh(st, h, ops, [])
    ensures var s1 := Exec(st, ZFillCmds(ops, |ops|)).store;
      var c := StoreCmd(op, h.key, ParseArgs(h, ops).value.keys, agg);
      Exec(Step(s1, c).store, Dels(TempNames(ops, |ops|))).store
        == PutZSet(st, h.key, MapAlgebra(op, AllMaps(st, h, ops), agg))
  {
    var temps := TempNames(ops, |ops|);
    var s1 := Exec(st, ZFillCmds(ops, |ops|)).store;
    var keys := ParseArgs(h, ops).value.keys;
    var r := MapAlgebra(op, AllMaps(st, h, ops), agg);
    assert AgreeOff(s1, st, temps) && ScoreMaps(s1, keys) == AllMaps(st, h, ops) by {
      ZKeysRead(st, h, ops, []);
    }
    StoreCmdStep(s1, op, h.key, keys, agg);
    PutZSetAgrees(s1, st, temps, h.key, r);
    assert forall t :: t in temps ==> t !in PutZSet(st, h.key, r) by {
      NotTemp(st, h, ops, [], |ops|, h.key);
      ZTempsAbsent(st, h, ops, []);
    }
    RestoreAfterDels(PutZSet(s1, h.key, r), PutZSet(st, h.key, r), temps);
  }

  /** A member's score after `update`: the aggregate of its scores in the
      primary and the operands that hold it; it is a member iff one of them
      holds it. */
  lemma UpdateCorrect(h: Handle, st: Store, ops: seq<Operand<Pair>>, agg: Aggregate, m: string)
    requires Idle(h) && Fresh(st, h, ops, []) && Accepted(ops)
    ensures var r := Update(h, st, ops, agg);
      var z := Scores(r.st, h.key);
      var ms := AllMaps(st, h, ops);
      r.value == Ok(()) && r.h == h
      && (m in z <==> exists i :: 0 <= i < |ms| && m in ms[i])
      && (m in z ==> z[m] == Fold(agg, ScoresOf(ms, m)))
  {
    StoreOpCorrect(h, st, ops, UnionOp, agg);
    if m in UnionMaps(AllMaps(st, h, ops), agg) {
      UnionMapsScore(AllMaps(st, h, ops), agg, m);
    }
  }

  /** A member's score after `intersection_update`: the aggregate of its
      scores in all of the primary and the operands; it is a member iff all
      of them hold it. */
  lemma IntersectionUpdateCorrect(h: Handle, st: Store, ops: seq<Operand<Pair>>, agg: Aggregate, m: string)
    requires Idle(h) && Fresh(st, h, ops, []) && Accepted(ops)
    ensures var r := IntersectionUpdate(h, st, ops, agg);
      var z := Scores(r.st, h.key);
      var ms := AllMaps(st, h, ops);
      r.value == Ok(()) && r.h == h
      && (m in z <==> forall i :: 0 <= i < |ms| ==> m in ms[i])
      && (m in z ==> z[m] == Fold(agg, ScoresOf(ms, m)))
  {
    StoreOpCorrect(h, st, ops, InterOp, agg);
    if m in InterMaps(AllMaps(st, h, ops), agg) {
      InterMapsScore(AllMaps(st, h, ops), agg, m);
    }
  }

  // ---------------------------------------------------------- intersection

  /** The (member, score) pairs of a reply. */
  function PairSet(ps: seq<(string, int)>): set<(string, int)> {
    set p | p in ps
  }

  /** A pair reply decoded through the handle's type, as a set. */
  function DecodeRanked(t: ElemType, reply: Result<Reply>): Result<set<Pair>> {
    match reply
    case Ok(Pairs(ps)) => DecodePairs(t, PairSet(ps))
    case Ok(_) => Err(ResponseError)
    case Err(e) => Err(e)
  }

  /** The pairs of a sorted set in rank order are its (member, score) pairs. */
  lemma RankedPairs(z: map<string, int>)
    ensures PairSet(Ranked(z)) == z.Items
  {
    var r := Ranked(z);
    forall p ensures p in PairSet(r) <==> p in z.Items {
      if p in r {
        var i :| 0 <= i < |r| && r[i] == p;
        assert p.0 in z && z[p.0] == p.1;
      }
      if p in z.Items {
        assert p.0 in z && p == (p.0, z[p.0]);
      }
    }
  }

  /** The commands `intersection` queues after the fills. */
  function InterCmds(keys: seq<string>, agg: Aggregate): seq<Cmd> {
    [ZInterStore(IntersectionKey, keys, agg), ZRange(IntersectionKey, 0, -1)]
  }

  /** `intersection`: the operands are filled, the fixed name is registered
      as one more temporary, ZINTERSTORE writes under it and ZRANGE reads it
      back past the deletes. */
  function Intersection(h: Handle, st: Store, ops: seq<Operand<Pair>>, agg: Aggregate): Outcome<set<Pair>> {
    match ParseArgs(h, ops)
    case Err(e) => Outcome(h, st, Err(e))
    case Ok(q) =>
      var q2 := q.(h := q.h.(tmpKeys := q.h.tmpKeys + [IntersectionKey]));
      var c := DeleteTemporary(ZQueue(q2, InterCmds(q.keys, agg)));
      var ex := GetPipeValue(c.h, st, c.count);
      Outcome(ex.h, ex.st, DecodeRanked(h.typ, ex.value))
  }

  /** `intersection` returns the intersection of the primary and the
      operands with aggregated scores, decoded through the handle's type,
      and leaves the store and the handle as it found them; a rejected
      operand raises as the corrected `parse_args` does. */
  lemma IntersectionCorrect(h: Handle, st: Store, ops: seq<Operand<Pair>>, agg: Aggregate)
    requires Idle(h) && Fresh(st, h, ops, [IntersectionKey])
    ensures Intersection(h, st, ops, agg)
         == Outcome(h, st, if Accepted(ops) then DecodePairs(h.typ, InterMaps(AllMaps(st, h, ops), agg).Items)
                           else Err(RedisTypeError))
  {
    if Accepted(ops) {
      var z := InterMaps(AllMaps(st, h, ops), agg);
      InterCleared(h, ops, agg);
      InterReply(h, st, ops, agg);
      RankedPairs(z);
    }
  }

  /** The handle `intersection` executes: fills, ZINTERSTORE, ZRANGE and one
      delete per temporary, the fixed name last. */
  lemma InterCleared(h: Handle, ops: seq<Operand<Pair>>, agg: Aggregate)
    requires Idle(h) && Accepted(ops)
    ensures var q := ParseArgs(h, ops).value;
      var temps := TempNames(ops, |ops|) + [IntersectionKey];
      var q2 := q.(h := q.h.(tmpKeys := q.h.tmpKeys + [IntersectionKey]));
      DeleteTemporary(ZQueue(q2, InterCmds(q.keys, agg)))
        == Cleared(h.(pipe := (ZFillCmds(ops, |ops|) + [ZInterStore(IntersectionKey, q.keys, agg)])
                              + [ZRange(IntersectionKey, 0, -1)] + Dels(temps), tmpKeys := []), |temps|)
  {
    var q := ParseArgs(h, ops).value;
    var q2 := q.(h := q.h.(tmpKeys := q.h.tmpKeys + [IntersectionKey]));
    var fills := ZFillCmds(ops, |ops|);
    var cmds := InterCmds(q.keys, agg);
    ZQueueFresh(h, ops, cmds);
    assert h.tmpKeys + TempNames(ops, |ops|) == TempNames(ops, |ops|);
    assert ZQueue(q2, cmds) == h.(pipe := fills + cmds, tmpKeys := TempNames(ops, |ops|) + [IntersectionKey]);
    assert fills + cmds == (fills + [cmds[0]]) + [cmds[1]];
  }

  /** Executing that handle replies, past the deletes, with the whole
      intersection and leaves the store as it was. */
  lemma InterReply(h: Handle, st: Store, ops: seq<Operand<Pair>>, agg: Aggregate)
    requires Idle(h) && Accepted(ops) && Fresh(st, h, ops, [IntersectionKey])
    ensures var keys := ParseArgs(h, ops).value.keys;
      var temps := TempNames(ops, |ops|) + [IntersectionKey];
      var hd := h.(pipe := (ZFillCmds(ops, |ops|) + [ZInterStore(IntersectionKey, keys, agg)])
                           + [ZRange(IntersectionKey, 0, -1)] + Dels(temps), tmpKeys := []);
      GetPipeValue(hd, st, |temps|) == Outcome(h, st, Ok(Pairs(Ranked(InterMaps(AllMaps(st, h, ops), agg)))))
  {
    var keys := ParseArgs(h, ops).value.keys;
    var temps := TempNames(ops, |ops|) + [IntersectionKey];
    var a := ZInterStore(IntersectionKey, keys, agg);
    var fills := ZFillCmds(ops, |ops|);
    GetPipeValueSkipsDeletes(h.(pipe := fills + [a]), st, ZRange(IntersectionKey, 0, -1), temps);
    InterBatch(h, st, ops, agg);
  }

  /** After the fills and ZINTERSTORE, the ZRANGE replies with the whole
      intersection and the deletes restore the store. */
  lemma InterBatch(h: Handle, st: Store, ops: seq<Operand<Pair>>, agg: Aggregate)
    requires Accepted(ops) && Fresh(st, h, ops, [IntersectionKey])
    ensures var fills := ZFillCmds(ops, |ops|);
      var keys := ParseArgs(h, ops).value.keys;
      var s2 := Exec(st, fills + [ZInterStore(IntersectionKey, keys, agg)]).store;
      var z := InterMaps(AllMaps(st, h, ops), agg);
      Step(s2, ZRange(IntersectionKey, 0, -1)) == Done(s2, Pairs(Ranked(z)))
      && Exec(st, (fills + [ZInterStore(IntersectionKey, keys, agg)]) + [ZRange(IntersectionKey, 0, -1)]
                  + Dels(TempNames(ops, |ops|) + [IntersectionKey])).store == st
  {
    var fills := ZFillCmds(ops, |ops|);
    var temps := TempNames(ops, |ops|);
    var keys := ParseArgs(h, ops).value.keys;
    var a := ZInterStore(IntersectionKey, keys, agg);
    var b := ZRange(IntersectionKey, 0, -1);
    var s1 := Exec(st, fills).store;
    var z := InterMaps(AllMaps(st, h, ops), agg);
    assert AgreeOff(s1, st, temps) && ScoreMaps(s1, keys) == AllMaps(st, h, ops) by {
      ZKeysRead(st, h, ops, [IntersectionKey]);
    }
    var s2 := PutZSet(s1, IntersectionKey, z);
    assert Exec(st, fills + [a]).store == s2 by {
      ExecAppend(st, fills, [a]);
      ExecOne(s1, a);
      InterStoreStep(s1, IntersectionKey, keys, agg);
    }
    WholeRangeStep(s2, IntersectionKey);
    ExecThree(st, fills + [a], [b], Dels(temps + [IntersectionKey]));
    ExecOne(s2, b);
    PutZSetAgrees(s1, st, temps, IntersectionKey, z);
    AgreeOffTrans(s2, s1, st, [IntersectionKey], temps);
    ZTempsAbsent(st, h, ops, [IntersectionKey]);
    RestoreAfterDels(s2, st, temps + [IntersectionKey]);
  }

  // ------------------------------------------------- symmetric difference

  /** ZADD of (member, score) pairs read back from the store, in order. */
  function RawFill(k: string, ps: seq<(string, int)>): (r: seq<Cmd>)
    ensures |r| == |ps|
    ensures forall i :: 0 <= i < |ps| ==> r[i] == ZAdd(k, ps[i].0, ps[i].1)
  {
    if |ps| == 0 then [] else [ZAdd(k, ps[0].0, ps[0].1)] + RawFill(k, ps[1..])
  }

  /** The sorted set after ZADD of each pair in turn. */
  function AddPairs(z: map<string, int>, ps: seq<(string, int)>): map<string, int>
    decreases |ps|
  {
    if |ps| == 0 then z else AddPairs(z[ps[0].0 := ps[0].1], ps[1..])
  }

  lemma {:induction false} RawFillEffect(st: Store, k: string, ps: seq<(string, int)>)
    ensures Scores(Exec(st, RawFill(k, ps)).store, k) == AddPairs(Scores(st, k), ps)
    ensures AgreeOff(Exec(st, RawFill(k, ps)).store, st, [k])
    decreases |ps|
  {
    if |ps| > 0 {
      var z1 := Scores(st, k)[ps[0].0 := ps[0].1];
      var s1 := PutZSet(st, k, z1);
      assert Exec(st, RawFill(k, ps)).store == Exec(s1, RawFill(k, ps[1..])).store by {
        assert RawFill(k, ps) == [ZAdd(k, ps[0].0, ps[0].1)] + RawFill(k, ps[1..]);
        assert Step(st, ZAdd(k, ps[0].0, ps[0].1)).store == s1;
      }
      RawFillEffect(s1, k, ps[1..]);
      PutZSetAgrees(st, st, [], k, z1);
      AgreeOffTrans(Exec(s1, RawFill(k, ps[1..])).store, s1, st, [k], [k]);
      AgreeOffWiden(Exec(s1, RawFill(k, ps[1..])).store, st, [k] + [k], [k]);
    } else {
      AgreeOffIntro(st, st, [k]);
    }
  }

  /** Adding pairs taken from a sorted set `u` to a part of `u` gives a
      part of `u` holding every member added, whatever the order. */
  lemma {:induction false} AddPairsWithin(acc: map<string, int>, ps: seq<(string, int)>, u: map<string, int>)
    requires forall m :: m in acc ==> m in u && acc[m] == u[m]
    requires forall i :: 0 <= i < |ps| ==> ps[i].0 in u && u[ps[i].0] == ps[i].1
    ensures forall m :: m in acc ==> m in AddPairs(acc, ps)
    ensures forall i :: 0 <= i < |ps| ==> ps[i].0 in AddPairs(acc, ps)
    ensures forall m :: m in AddPairs(acc, ps) ==> m in u && AddPairs(acc, ps)[m] == u[m]
    decreases |ps|
  {
    if |ps| > 0 {
      var acc1 := acc[ps[0].0 := ps[0].1];
      AddPairsWithin(acc1, ps[1..], u);
      forall i | 1 <= i < |ps| ensures ps[i].0 in AddPairs(acc, ps) {
        assert ps[1..][i - 1] == ps[i];
      }
    }
  }

  /** ZADD of every pair of a sorted set, in rank order, onto an absent key
      rebuilds it. */
  lemma RebuildFromPairs(st: Store, k: string, z: map<string, int>)
    requires k !in st
    ensures Scores(Exec(st, RawFill(k, Sorted(z.Items))).store, k) == z
    ensures AgreeOff(Exec(st, RawFill(k, Sorted(z.Items))).store, st, [k])
  {
    RawFillEffect(st, k, Sorted(z.Items));
    PairsRebuild(z);
  }

  /** Adding the pairs of a sorted set to an empty one gives it back. */
  lemma PairsRebuild(z: map<string, int>)
    ensures AddPairs(map[], Sorted(z.Items)) == z
  {
    var ps := Sorted(z.Items);
    forall i | 0 <= i < |ps| ensures ps[i].0 in z && z[ps[i].0] == ps[i].1 {
      assert ps[i] in z.Items;
    }
    forall m | m in z ensures (m, z[m]) in ps {
      assert (m, z[m]) in z.Items;
    }
    AddAllPairs(z, ps);
  }

  /** Adding a list holding exactly the pairs of `z` to an empty sorted
      set gives `z`. */
  lemma AddAllPairs(z: map<string, int>, ps: seq<(string, int)>)
    requires forall i :: 0 <= i < |ps| ==> ps[i].0 in z && z[ps[i].0] == ps[i].1
    requires forall m :: m in z ==> (m, z[m]) in ps
    ensures AddPairs(map[], ps) == z
  {
    AddPairsWithin(map[], ps, z);
    var r := AddPairs(map[], ps);
    forall m | m in z ensures m in r {
      var i :| 0 <= i < |ps| && ps[i] == (m, z[m]);
    }
    assert r == z;
  }

  /** What `symmetric_difference_update` leaves: the members some but not
      all of the sorted sets hold, with their summed union score. */
  function SomeNotAll(ms: seq<map<string, int>>): map<string, int>
    requires |ms| > 0
  {
    var u := UnionMaps(ms, Sum);
    var i := InterMaps(ms, Sum);
    map m | m in u && m !in i :: u[m]
  }

  /** The union's pairs less the intersection's pairs are the pairs of the
      members outside the intersection, because a member of every set gets
      the same summed score in both. */
  lemma UnionLessInter(ms: seq<map<string, int>>)
    requires |ms| > 0
    ensures UnionMaps(ms, Sum).Items - InterMaps(ms, Sum).Items == SomeNotAll(ms).Items
  {
    var u := UnionMaps(ms, Sum);
    var i := InterMaps(ms, Sum);
    var d := SomeNotAll(ms);
    forall p ensures p in u.Items - i.Items <==> p in d.Items {
      if p.0 in i {
        SumUnionInterAgree(ms, p.0);
      }
    }
  }

  /** The commands after the fills: both storing primitives under the two
      generated names, then a read of each. */
  function SymCmds(keys: seq<string>, u: string, i: string): seq<Cmd> {
    [ZInterStore(i, keys, Sum), ZUnionStore(u, keys, Sum), ZRange(u, 0, -1), ZRange(i, 0, -1)]
  }

  /** The pairs of the first reply that are not in the second. */
  function PairDiff(a: Reply, b: Reply): Result<set<(string, int)>> {
    if a.Pairs? && b.Pairs? then Ok(PairSet(a.ps) - PairSet(b.ps)) else Err(ResponseError)
  }

  /** `symmetric_difference_update`: two generated names replace whatever
      was registered; one batch stores and reads back the union and the
      intersection (scores summed); a second batch deletes the primary and
      adds back every pair of the union that is not a pair of the
      intersection. The result is an empty Python set. The generated names
      are the parameters `u` and `i`. */
  function SymmetricDifferenceUpdate(h: Handle, st: Store, ops: seq<Operand<Pair>>, u: string, i: string)
    : Outcome<set<Pair>>
  {
    var h0 := h.(tmpKeys := [u, i]);
    match ParseArgs(h0, ops)
    case Err(e) => Outcome(h0, st, Err(e))
    case Ok(q) =>
      var c := DeleteTemporary(ZQueue(q, SymCmds(q.keys, u, i)));
      var ran := Exec(st, c.h.pipe);
      var n := |ran.replies|;
      if n < c.count + 2 then Outcome(c.h.(pipe := []), ran.store, Err(IndexError))
      else
        match PairDiff(ran.replies[n - 2 - c.count], ran.replies[n - 1 - c.count])
        case Err(e) => Outcome(c.h.(pipe := []), ran.store, Err(e))
        case Ok(d) =>
          var w := Exec(ran.store, [Del(h.key)] + RawFill(h.key, Sorted(d)));
          Outcome(c.h.(pipe := []), w.store, Ok({}))
  }

  /** The first batch queued on an idle handle: the fills, then the four
      commands, with the two generated names registered before the
      operand temporaries. */
  lemma ZSymQueued(h: Handle, ops: seq<Operand<Pair>>, u: string, i: string)
    requires Idle(h) && Accepted(ops)
    ensures var keys := ParseArgs(h, ops).value.keys;
      var q := ParseArgs(h.(tmpKeys := [u, i]), ops).value;
      var temps := [u, i] + TempNames(ops, |ops|);
      DeleteTemporary(ZQueue(q, SymCmds(q.keys, u, i)))
        == Cleared(h.(pipe := (ZFillCmds(ops, |ops|) + SymCmds(keys, u, i)[..2]) + SymCmds(keys, u, i)[2..]
                              + Dels(temps)), |temps|)
  {
    var h0 := h.(tmpKeys := [u, i]);
    var keys := ParseArgs(h, ops).value.keys;
    var cmds := SymCmds(keys, u, i);
    assert ParseArgs(h0, ops).value.keys == keys by {
      ParseArgsKeys(h0, h, ops);
    }
    ZQueueFresh(h0, ops, cmds);
    assert ZFillCmds(ops, |ops|) + cmds == (ZFillCmds(ops, |ops|) + cmds[..2]) + cmds[2..];
  }

  /** After the fills and the two storing primitives, the union and the
      intersection of everything, scores summed, sit under `u` and `i`, and
      nothing but those and the operand names differs from the start. */
  lemma ZSymStored(st: Store, h: Handle, ops: seq<Operand<Pair>>, u: string, i: string)
    requires Accepted(ops) && Fresh(st, h, ops, [u, i])
    ensures var keys := ParseArgs(h, ops).value.keys;
      var s3 := Exec(st, ZFillCmds(ops, |ops|) + SymCmds(keys, u, i)[..2]).store;
      Scores(s3, u) == UnionMaps(AllMaps(st, h, ops), Sum)
      && Scores(s3, i) == InterMaps(AllMaps(st, h, ops), Sum)
      && AgreeOff(s3, st, [u, i] + TempNames(ops, |ops|))
      && u != i
  {
    var keys := ParseArgs(h, ops).value.keys;
    var temps := TempNames(ops, |ops|);
    var fills := ZFillCmds(ops, |ops|);
    var s1 := Exec(st, fills).store;
    assert AgreeOff(s1, st, temps) && ScoreMaps(s1, keys) == AllMaps(st, h, ops) by {
      ZKeysRead(st, h, ops, [u, i]);
    }
    assert forall j :: 0 <= j < |keys| ==> keys[j] != u && keys[j] != i by {
      KeysApart(st, h, ops, [u, i]);
      assert u in [u, i] && i in [u, i];
    }
    assert u != i by {
      var names := TempNames(ops, |ops|) + [u, i];
      assert names[|names| - 2] == u && names[|names| - 1] == i;
    }
    var s2 := ZSymInterStored(s1, keys, u, i);
    var s3 := ZSymUnionStored(s2, keys, u, i);
    SymStoresExec(st, fills, keys, u, i);
    AgreeOffChain(s3, s2, s1, st, u, i, temps);
  }

  lemma SymStoresExec(st: Store, fills: seq<Cmd>, keys: seq<string>, u: string, i: string)
    ensures Exec(st, fills + SymCmds(keys, u, i)[..2]).store
         == Step(Step(Exec(st, fills).store, ZInterStore(i, keys, Sum)).store, ZUnionStore(u, keys, Sum)).store
  {
    assert SymCmds(keys, u, i)[..2] == [ZInterStore(i, keys, Sum), ZUnionStore(u, keys, Sum)];
    ExecAppend(st, fills, SymCmds(keys, u, i)[..2]);
    ExecTwo(Exec(st, fills).store, ZInterStore(i, keys, Sum), ZUnionStore(u, keys, Sum));
  }

  lemma ZSymInterStored(s1: Store, keys: seq<string>, u: string, i: string) returns (s2: Store)
    requires |keys| > 0 && forall j :: 0 <= j < |keys| ==> keys[j] != u && keys[j] != i
    ensures s2 == Step(s1, ZInterStore(i, keys, Sum)).store
    ensures Scores(s2, i) == InterMaps(ScoreMaps(s1, keys), Sum)
    ensures ScoreMaps(s2, keys) == ScoreMaps(s1, keys)
    ensures AgreeOff(s2, s1, [i])
  {
    var z := InterMaps(ScoreMaps(s1, keys), Sum);
    InterStoreStep(s1, i, keys, Sum);
    s2 := PutZSet(s1, i, z);
    assert AgreeOff(s2, s1, [i]) by {
      PutZSetAgrees(s1, s1, [], i, z);
    }
    assert ScoreMaps(s2, keys) == ScoreMaps(s1, keys) by {
      AgreeOffWiden(s2, s1, [i], [u, i]);
      AgreeOffScoreMaps(s2, s1, [u, i], keys);
    }
  }

  lemma ZSymUnionStored(s2: Store, keys: seq<string>, u: string, i: string) returns (s3: Store)
    requires |keys| > 0 && u != i
    ensures s3 == Step(s2, ZUnionStore(u, keys, Sum)).store
    ensures Scores(s3, u) == UnionMaps(ScoreMaps(s2, keys), Sum)
    ensures Scores(s3, i) == Scores(s2, i)
    ensures AgreeOff(s3, s2, [u])
  {
    UnionStoreStep(s2, u, keys, Sum);
    s3 := PutZSet(s2, u, UnionMaps(ScoreMaps(s2, keys), Sum));
    PutZSetAgrees(s2, s2, [], u, UnionMaps(ScoreMaps(s2, keys), Sum));
    assert i !in [u];
    AgreeOffReads(s3, s2, [u], i);
  }

  /** Two whole-set reads reply with both sorted sets and change nothing. */
  lemma TwoReads(s: Store, u: string, i: string)
    ensures Exec(s, [ZRange(u, 0, -1), ZRange(i, 0, -1)])
         == Ran(s, [Pairs(Ranked(Scores(s, u))), Pairs(Ranked(Scores(s, i)))])
  {
    WholeRangeStep(s, u);
    WholeRangeStep(s, i);
    ExecOne(s, ZRange(i, 0, -1));
  }

  /** The replies of a batch `pre + [x, y] + deletes`: counted from the end
      past the deletes, the second-to-last and the last reply before them
      are those of `x` and `y`. */
  lemma RepliesBeforeDeletes(st: Store, pre: seq<Cmd>, rd: seq<Cmd>, ks: seq<string>)
    requires |rd| == 2
    ensures var ran := Exec(st, pre + rd + Dels(ks));
      var s := Exec(st, pre).store;
      var n := |ran.replies|;
      n >= |ks| + 2
      && ran.replies[n - 2 - |ks|] == Exec(s, rd).replies[0]
      && ran.replies[n - 1 - |ks|] == Exec(s, rd).replies[1]
      && ran.store == Exec(Exec(s, rd).store, Dels(ks)).store
  {
    var a := Exec(st, pre);
    var b := Exec(a.store, rd);
    var c := Exec(b.store, Dels(ks));
    ExecThree(st, pre, rd, Dels(ks));
    assert Exec(st, pre + rd + Dels(ks)).replies == a.replies + b.replies + c.replies;
    IndexBeforeTail(a.replies, b.replies, c.replies);
  }

  /** In `x + y + z` with `y` of length 2, counting back past `z` reaches `y`. */
  lemma IndexBeforeTail(x: seq<Reply>, y: seq<Reply>, z: seq<Reply>)
    requires |y| == 2
    ensures var w := x + y + z;
      |w| >= |z| + 2 && w[|w| - 2 - |z|] == y[0] && w[|w| - 1 - |z|] == y[1]
  {
  }

  /** The first batch replies with the union and the intersection, past the
      deletes, and restores the store. */
  lemma ZSymFirstBatch(h: Handle, st: Store, ops: seq<Operand<Pair>>, u: string, i: string)
    requires Idle(h) && Accepted(ops) && Fresh(st, h, ops, [u, i])
    ensures var q := ParseArgs(h.(tmpKeys := [u, i]), ops).value;
      var c := DeleteTemporary(ZQueue(q, SymCmds(q.keys, u, i)));
      var ran := Exec(st, c.h.pipe);
      var n := |ran.replies|;
      var ms := AllMaps(st, h, ops);
      c.h.(pipe := []) == h && ran.store == st && n >= c.count + 2
      && ran.replies[n - 2 - c.count] == Pairs(Ranked(UnionMaps(ms, Sum)))
      && ran.replies[n - 1 - c.count] == Pairs(Ranked(InterMaps(ms, Sum)))
  {
    var keys := ParseArgs(h, ops).value.keys;
    var temps := [u, i] + TempNames(ops, |ops|);
    var pre := ZFillCmds(ops, |ops|) + SymCmds(keys, u, i)[..2];
    var rd := SymCmds(keys, u, i)[2..];
    ZSymQueued(h, ops, u, i);
    assert rd == [ZRange(u, 0, -1), ZRange(i, 0, -1)];
    RepliesBeforeDeletes(st, pre, rd, temps);
    var s3 := Exec(st, pre).store;
    ZSymStored(st, h, ops, u, i);
    TwoReads(s3, u, i);
    ZTempsAbsent(st, h, ops, [u, i]);
    assert forall t :: t in temps ==> t !in st;
    RestoreAfterDels(s3, st, temps);
  }

  /** The second batch: the primary is deleted and rebuilt from the pairs
      of `z`; nothing else changes. */
  lemma ZSymSecondBatch(st: Store, k: string, z: map<string, int>)
    ensures Scores(Exec(st, [Del(k)] + RawFill(k, Sorted(z.Items))).store, k) == z
    ensures AgreeOff(Exec(st, [Del(k)] + RawFill(k, Sorted(z.Items))).store, st, [k])
  {
    var s0 := st - {k};
    ExecAppend(st, [Del(k)], RawFill(k, Sorted(z.Items)));
    ExecOne(st, Del(k));
    RebuildFromPairs(s0, k, z);
    AgreeOffIntro(s0, st, [k]);
    AgreeOffTrans(Exec(s0, RawFill(k, Sorted(z.Items))).store, s0, st, [k], [k]);
    AgreeOffWiden(Exec(s0, RawFill(k, Sorted(z.Items))).store, st, [k] + [k], [k]);
  }

  /** `symmetric_difference_update` leaves at the primary key exactly the
      members some but not all of the primary and the operands hold, each
      with its summed score, changes no other key, returns an empty set and
      leaves the handle idle. A rejected operand raises as the corrected
      `parse_args` does: only the two generated names stay registered. */
  lemma SymmetricDifferenceUpdateCorrect(h: Handle, st: Store, ops: seq<Operand<Pair>>, u: string, i: string)
    requires Idle(h) && Fresh(st, h, ops, [u, i])
    ensures var r := SymmetricDifferenceUpdate(h, st, ops, u, i);
      if Accepted(ops) then
        r.h == h && r.value == Ok({})
        && Scores(r.st, h.key) == SomeNotAll(AllMaps(st, h, ops))
        && AgreeOff(r.st, st, [h.key])
      else r == Outcome(h.(tmpKeys := [u, i]), st, Err(RedisTypeError))
  {
    if Accepted(ops) {
      var ms := AllMaps(st, h, ops);
      ZSymFirstBatch(h, st, ops, u, i);
      RankedPairs(UnionMaps(ms, Sum));
      RankedPairs(InterMaps(ms, Sum));
      UnionLessInter(ms);
      ZSymSecondBatch(st, h.key, SomeNotAll(ms));
    }
  }

  /** Held by some but not all, with the summed score of the sets that
      hold it. */
  lemma SomeNotAllMeaning(ms: seq<map<string, int>>, m: string)
    requires |ms| > 0
    ensures m in SomeNotAll(ms)
        <==> (exists i :: 0 <= i < |ms| && m in ms[i]) && !(forall i :: 0 <= i < |ms| ==> m in ms[i])
    ensures m in SomeNotAll(ms) ==> SomeNotAll(ms)[m] == Fold(Sum, ScoresOf(ms, m))
  {
    if m in SomeNotAll(ms) {
      UnionMapsScore(ms, Sum, m);
    }
  }
}
