/** The `Set` proxy (redis_natives/set.py): a Python `set` interface over
    one store key holding a set.

    Every multi-set operation is one pipelined batch: fill a temporary key
    per local operand, run the store's multi-key primitive, delete the
    temporaries, execute, and read the primitive's reply from the end of the
    reply list. The lemmas say what each batch computes, in terms of the set
    algebra on what the keys hold, and that the store ends as it began
    (apart from the primary key for the `*_update` forms).
 */
module SetProxy {
  import opened Wrappers
  import opened Text
  import opened Codec
  import opened Store
  import opened TempKeys
  import opened Engine

  // ------------------------------------------------------------ operands

  /** The SADDs `parse_args` queues for a local operand: each element as
      the client library sends it. */
  function SetFill(t: string, xs: seq<Value>): (r: seq<Cmd>)
    ensures |r| == |xs|
    ensures forall i :: 0 <= i < |xs| ==> r[i] == SAdd(t, ClientText(xs[i]))
  {
    if |xs| == 0 then [] else [SAdd(t, ClientText(xs[0]))] + SetFill(t, xs[1..])
  }

  /** The SADDs for every pending operand, in order. */
  function SetFills(pending: seq<(string, seq<Value>)>): seq<Cmd> {
    if |pending| == 0 then []
    else SetFills(pending[..|pending| - 1]) + SetFill(pending[|pending| - 1].0, pending[|pending| - 1].1)
  }

  /** The fill commands of the first `n` operands. */
  function FillCmds(ops: seq<Operand<Value>>, n: nat): seq<Cmd>
    requires n <= |ops| && forall j :: 0 <= j < n ==> !ops[j].Other?
  {
    SetFills(Prefix(ops, n).pending)
  }

  /** The handle once the fills and then `cmds` are queued. */
  function Queue(q: Queued<Value>, cmds: seq<Cmd>): Handle {
    q.h.(pipe := q.h.pipe + SetFills(q.pending) + cmds)
  }

  /** Queuing on a handle with an empty pipeline: the fills, then `cmds`,
      with the operand temporaries registered after the names already there. */
  lemma QueueFresh(h: Handle, ops: seq<Operand<Value>>, cmds: seq<Cmd>)
    requires h.pipe == [] && Accepted(ops)
    ensures Queue(ParseArgs(h, ops).value, cmds)
         == h.(pipe := FillCmds(ops, |ops|) + cmds, tmpKeys := h.tmpKeys + TempNames(ops, |ops|))
  {
    var r := Queue(ParseArgs(h, ops).value, cmds);
    QueuedPipe(h, ops, cmds);
    QueuedNames(h, ops, cmds);
    assert r == Handle(r.key, r.typ, r.pipe, r.tmpKeys);
  }

  lemma QueuedPipe(h: Handle, ops: seq<Operand<Value>>, cmds: seq<Cmd>)
    requires h.pipe == [] && Accepted(ops)
    ensures Queue(ParseArgs(h, ops).value, cmds).pipe == FillCmds(ops, |ops|) + cmds
  {
  }

  lemma QueuedNames(h: Handle, ops: seq<Operand<Value>>, cmds: seq<Cmd>)
    requires Accepted(ops)
    ensures Queue(ParseArgs(h, ops).value, cmds).tmpKeys == h.tmpKeys + TempNames(ops, |ops|)
    ensures Queue(ParseArgs(h, ops).value, cmds).key == h.key
    ensures Queue(ParseArgs(h, ops).value, cmds).typ == h.typ
  {
  }

  /** One more operand adds its own fill, if it is local, and nothing else. */
  lemma FillCmdsStep(ops: seq<Operand<Value>>, n: nat)
    requires 0 < n <= |ops| && forall j :: 0 <= j < n ==> !ops[j].Other?
    ensures ops[n - 1].Remote? ==> FillCmds(ops, n) == FillCmds(ops, n - 1)
    ensures !ops[n - 1].Remote? ==>
      FillCmds(ops, n) == FillCmds(ops, n - 1) + SetFill(OperandTempKey(n - 1), Elements(ops[n - 1]))
  {
    var p := Prefix(ops, n - 1).pending;
    if !ops[n - 1].Remote? {
      var x := (OperandTempKey(n - 1), Elements(ops[n - 1]));
      assert (p + [x])[..|p|] == p;
    }
  }

  function Texts(xs: seq<Value>): set<string> {
    set x | x in xs :: ClientText(x)
  }

  /** The members an operand stands for: a remote set's members, or the
      client's texts of a local operand's elements. */
  function OperandTexts(st: Store, o: Operand<Value>): set<string> {
    match o
    case Remote(k) => Members(st, k)
    case Other => {}
    case _ => Texts(Elements(o))
  }

  function OperandSets(st: Store, ops: seq<Operand<Value>>): (r: seq<set<string>>)
    ensures |r| == |ops|
    ensures forall i :: 0 <= i < |ops| ==> r[i] == OperandTexts(st, ops[i])
  {
    if |ops| == 0 then [] else [OperandTexts(st, ops[0])] + OperandSets(st, ops[1..])
  }

  /** Filling a key adds exactly the elements' texts to it and touches no
      other key. */
  lemma {:induction false} SetFillEffect(st: Store, t: string, xs: seq<Value>)
    ensures Members(Exec(st, SetFill(t, xs)).store, t) == Members(st, t) + Texts(xs)
    ensures AgreeOff(Exec(st, SetFill(t, xs)).store, st, [t])
    decreases |xs|
  {
    if |xs| > 0 {
      var m := ClientText(xs[0]);
      var s1 := PutSet(st, t, Members(st, t) + {m});
      assert Exec(st, SetFill(t, xs)).store == Exec(s1, SetFill(t, xs[1..])).store by {
        assert SetFill(t, xs) == [SAdd(t, m)] + SetFill(t, xs[1..]);
        assert Step(st, SAdd(t, m)).store == s1;
      }
      SetFillEffect(s1, t, xs[1..]);
      assert Texts(xs) == {m} + Texts(xs[1..]) by {
        assert forall x :: x in xs <==> x == xs[0] || x in xs[1..];
      }
      PutSetAgrees(st, st, [], t, Members(st, t) + {m});
      AgreeOffTrans(Exec(s1, SetFill(t, xs[1..])).store, s1, st, [t], [t]);
      AgreeOffWiden(Exec(s1, SetFill(t, xs[1..])).store, st, [t] + [t], [t]);
    } else {
      AgreeOffIntro(st, st, [t]);
    }
  }

  /** What the fills of the first `n` operands have left in `s`: each of
      their keys holds what the operand stands for, and nothing but their
      temporary names differs from `st`. */
  ghost predicate FilledUpTo(s: Store, st: Store, ops: seq<Operand<Value>>, n: nat)
    requires n <= |ops|
  {
    AgreeOff(s, st, TempNames(ops, n))
    && forall j :: 0 <= j < n ==> Members(s, OperandKey(ops[j], j)) == OperandTexts(st, ops[j])
  }

  /** A remote operand queues nothing and its key is none of the temporaries. */
  lemma FilledRemote(st: Store, s0: Store, h: Handle, ops: seq<Operand<Value>>, extra: seq<string>, n: nat)
    requires 0 < n <= |ops| && ops[n - 1].Remote? && Fresh(st, h, ops, extra)
    requires FilledUpTo(s0, st, ops, n - 1)
    ensures FilledUpTo(s0, st, ops, n)
  {
    assert TempNames(ops, n) == TempNames(ops, n - 1);
    NotTemp(st, h, ops, extra, n - 1, ops[n - 1].key);
    AgreeOffReads(s0, st, TempNames(ops, n - 1), ops[n - 1].key);
  }

  /** A local operand's fill writes its elements under its own name, which
      no earlier key uses, and disturbs no key written before. */
  lemma FilledLocal(st: Store, s0: Store, s1: Store, ops: seq<Operand<Value>>, n: nat)
    requires 0 < n <= |ops| && (ops[n - 1].Local? || ops[n - 1].LocalList?)
    requires OperandTempKey(n - 1) !in st && OperandTempKey(n - 1) !in TempNames(ops, n - 1)
    requires forall j :: 0 <= j < n - 1 ==> OperandKey(ops[j], j) != OperandTempKey(n - 1)
    requires FilledUpTo(s0, st, ops, n - 1)
    requires AgreeOff(s1, s0, [OperandTempKey(n - 1)])
    requires Members(s1, OperandTempKey(n - 1)) == Members(s0, OperandTempKey(n - 1)) + Texts(Elements(ops[n - 1]))
    ensures FilledUpTo(s1, st, ops, n)
  {
    var t := OperandTempKey(n - 1);
    var before := TempNames(ops, n - 1);
    assert TempNames(ops, n) == before + [t];
    AgreeOffTrans(s1, s0, st, [t], before);
    AgreeOffReads(s0, st, before, t);
    assert Members(s1, OperandKey(ops[n - 1], n - 1)) == OperandTexts(st, ops[n - 1]);
    EarlierKeysKept(s1, s0, st, ops, n - 1, t);
    forall j | 0 <= j < n ensures Members(s1, OperandKey(ops[j], j)) == OperandTexts(st, ops[j]) {
      if j < n - 1 {
      }
    }
  }

  /** Writing `t` leaves the keys of the first `n` operands, none of which
      is `t`, reading as they did. */
  lemma EarlierKeysKept(s1: Store, s0: Store, st: Store, ops: seq<Operand<Value>>, n: nat, t: string)
    requires n <= |ops| && AgreeOff(s1, s0, [t])
    requires forall j :: 0 <= j < n ==> OperandKey(ops[j], j) != t
    requires forall j :: 0 <= j < n ==> Members(s0, OperandKey(ops[j], j)) == OperandTexts(st, ops[j])
    ensures forall j :: 0 <= j < n ==> Members(s1, OperandKey(ops[j], j)) == OperandTexts(st, ops[j])
  {
    forall j | 0 <= j < n
      ensures Members(s1, OperandKey(ops[j], j)) == OperandTexts(st, ops[j])
    {
      AgreeOffReads(s1, s0, [t], OperandKey(ops[j], j));
    }
  }

  /** After the fill commands of the first `n` operands, each of their keys
      holds what the operand stands for, and nothing but their temporary
      names has changed. */
  lemma {:induction false} SetFilled(st: Store, h: Handle, ops: seq<Operand<Value>>, extra: seq<string>, n: nat)
    requires n <= |ops| && Accepted(ops) && Fresh(st, h, ops, extra)
    ensures FilledUpTo(Exec(st, FillCmds(ops, n)).store, st, ops, n)
    decreases n
  {
    if n > 0 {
      SetFilled(st, h, ops, extra, n - 1);
      var s0 := Exec(st, FillCmds(ops, n - 1)).store;
      FillCmdsStep(ops, n);
      if ops[n - 1].Remote? {
        FilledRemote(st, s0, h, ops, extra, n);
      } else {
        var fill := SetFill(OperandTempKey(n - 1), Elements(ops[n - 1]));
        ExecAppend(st, FillCmds(ops, n - 1), fill);
        LocalNameFree(st, h, ops, extra, n);
        SetFillEffect(s0, OperandTempKey(n - 1), Elements(ops[n - 1]));
        FilledLocal(st, s0, Exec(s0, fill).store, ops, n);
      }
    }
  }

  /** Once the operands are filled, the keys the primitive is given hold the
      primary's members followed by what each operand stands for. */
  lemma KeysRead(st: Store, h: Handle, ops: seq<Operand<Value>>, extra: seq<string>)
    requires Accepted(ops) && Fresh(st, h, ops, extra)
    ensures AgreeOff(Exec(st, FillCmds(ops, |ops|)).store, st, TempNames(ops, |ops|))
    ensures MemberSets(Exec(st, FillCmds(ops, |ops|)).store, ParseArgs(h, ops).value.keys)
         == [Members(st, h.key)] + OperandSets(st, ops)
  {
    var s1 := Exec(st, FillCmds(ops, |ops|)).store;
    SetFilled(st, h, ops, extra, |ops|);
    assert Members(s1, h.key) == Members(st, h.key) by {
      NotTemp(st, h, ops, extra, |ops|, h.key);
      AgreeOffReads(s1, st, TempNames(ops, |ops|), h.key);
    }
    OperandKeysRead(s1, st, h, ops);
  }

  /** Once every operand's key reads as the operand and the primary's key
      as before, the keys handed to a primitive read as the primary and
      the operands. */
  lemma OperandKeysRead(s1: Store, st: Store, h: Handle, ops: seq<Operand<Value>>)
    requires Accepted(ops) && Members(s1, h.key) == Members(st, h.key)
    requires forall j :: 0 <= j < |ops| ==> Members(s1, OperandKey(ops[j], j)) == OperandTexts(st, ops[j])
    ensures MemberSets(s1, ParseArgs(h, ops).value.keys) == [Members(st, h.key)] + OperandSets(st, ops)
  {
    var keys := ParseArgs(h, ops).value.keys;
    var a := MemberSets(s1, keys);
    var os := OperandSets(st, ops);
    var b := [Members(st, h.key)] + os;
    assert |a| == |b|;
    forall i | 0 <= i < |a| ensures a[i] == b[i] {
      if i == 0 {
        assert keys[0] == h.key;
      } else {
        assert keys[i] == OperandKey(ops[i - 1], i - 1);
        assert b[i] == os[i - 1];
      }
    }
    assert a == b;
  }

  /** No name a call uses is a key of the store it starts from. */
  lemma TempsAbsent(st: Store, h: Handle, ops: seq<Operand<Value>>, extra: seq<string>)
    requires Fresh(st, h, ops, extra)
    ensures forall t :: t in TempNames(ops, |ops|) ==> t !in st
    ensures forall t :: t in extra ==> t !in st
  {
    forall t | t in TempNames(ops, |ops|) || t in extra ensures t !in st {
      FreshName(st, h, ops, extra, |ops|, t);
    }
  }

  // ----------------------------------------------------- algebra commands

  datatype SetOp = UnionOp | InterOp | DiffOp

  function ReadCmd(op: SetOp, ks: seq<string>): Cmd {
    match op
    case UnionOp => SUnion(ks)
    case InterOp => SInter(ks)
    case DiffOp => SDiff(ks)
  }

  function StoreCmd(op: SetOp, dst: string, ks: seq<string>): Cmd {
    match op
    case UnionOp => SUnionStore(dst, ks)
    case InterOp => SInterStore(dst, ks)
    case DiffOp => SDiffStore(dst, ks)
  }

  /** The set algebra the three primitives compute. */
  function Algebra(op: SetOp, ss: seq<set<string>>): set<string>
    requires |ss| > 0
  {
    match op
    case UnionOp => UnionSets(ss)
    case InterOp => InterSets(ss)
    case DiffOp => DiffSets(ss)
  }

  /** A set reply decoded through the handle's type. */
  function DecodeMembers(t: ElemType, reply: Result<Reply>): Result<set<Value>> {
    match reply
    case Ok(MemberSet(ms)) => DecodeAll(t, ms)
    case Ok(_) => Err(ResponseError)
    case Err(e) => Err(e)
  }

  /** `union`, `intersection` and `difference`: one batch whose reply is
      read back past the deletes of the temporaries. */
  function ReadOp(h: Handle, st: Store, ops: seq<Operand<Value>>, op: SetOp): Outcome<set<Value>> {
    match ParseArgs(h, ops)
    case Err(e) => Outcome(h, st, Err(e))
    case Ok(q) =>
      var c := DeleteTemporary(Queue(q, [ReadCmd(op, q.keys)]));
      var ex := GetPipeValue(c.h, st, c.count);
      Outcome(ex.h, ex.st, DecodeMembers(h.typ, ex.value))
  }

  /** `update`, `intersection_update` and `difference_update`: the same
      batch, storing the result at the primary key. */
  function StoreOp(h: Handle, st: Store, ops: seq<Operand<Value>>, op: SetOp): Outcome<()> {
    match ParseArgs(h, ops)
    case Err(e) => Outcome(h, st, Err(e))
    case Ok(q) =>
      var c := DeleteTemporary(Queue(q, [StoreCmd(op, h.key, q.keys)]));
      Flush(c.h, st)
  }

  /** What the primary and the operands stand for, in argument order. */
  function AllSets(st: Store, h: Handle, ops: seq<Operand<Value>>): seq<set<string>> {
    [Members(st, h.key)] + OperandSets(st, ops)
  }

  /** The read primitives leave the store alone and reply with the algebra
      of what the keys hold. */
  lemma ReadCmdStep(s: Store, op: SetOp, ks: seq<string>)
    requires |ks| > 0
    ensures Step(s, ReadCmd(op, ks)) == Done(s, MemberSet(Algebra(op, MemberSets(s, ks))))
  {
    match op
    case UnionOp => UnionReadStep(s, ks);
    case InterOp => InterReadStep(s, ks);
    case DiffOp => DiffReadStep(s, ks);
  }

  lemma UnionReadStep(s: Store, ks: seq<string>)
    requires |ks| > 0
    ensures Step(s, SUnion(ks)) == Done(s, MemberSet(UnionSets(MemberSets(s, ks))))
  {
  }

  lemma InterReadStep(s: Store, ks: seq<string>)
    requires |ks| > 0
    ensures Step(s, SInter(ks)) == Done(s, MemberSet(InterSets(MemberSets(s, ks))))
  {
  }

  lemma DiffReadStep(s: Store, ks: seq<string>)
    requires |ks| > 0
    ensures Step(s, SDiff(ks)) == Done(s, MemberSet(DiffSets(MemberSets(s, ks))))
  {
  }

  /** The storing primitives write the algebra of what the keys hold at the
      destination. */
  lemma StoreCmdStep(s: Store, op: SetOp, dst: string, ks: seq<string>)
    requires |ks| > 0
    ensures Step(s, StoreCmd(op, dst, ks)).store == PutSet(s, dst, Algebra(op, MemberSets(s, ks)))
  {
    match op
    case UnionOp => UnionStoreStep(s, dst, ks);
    case InterOp => InterStoreStep(s, dst, ks);
    case DiffOp => DiffStoreStep(s, dst, ks);
  }

  lemma UnionStoreStep(s: Store, dst: string, ks: seq<string>)
    requires |ks| > 0
    ensures Step(s, SUnionStore(dst, ks)).store == PutSet(s, dst, UnionSets(MemberSets(s, ks)))
  {
  }

  lemma InterStoreStep(s: Store, dst: string, ks: seq<string>)
    requires |ks| > 0
    ensures Step(s, SInterStore(dst, ks)).store == PutSet(s, dst, InterSets(MemberSets(s, ks)))
  {
  }

  lemma DiffStoreStep(s: Store, dst: string, ks: seq<string>)
    requires |ks| > 0
    ensures Step(s, SDiffStore(dst, ks)).store == PutSet(s, dst, DiffSets(MemberSets(s, ks)))
  {
  }

  /** The batch of a read operation computes the set algebra of the
      primary and the operands, leaves the store as it found it and the
      handle idle; a rejected operand raises before anything is queued, as the
      corrected `parse_args` does (`ParseArgsAsWritten` keeps the earlier
      operands' fills and names). */
  lemma ReadOpCorrect(h: Handle, st: Store, ops: seq<Operand<Value>>, op: SetOp)
    requires Idle(h) && Fresh(st, h, ops, [])
    ensures ReadOp(h, st, ops, op)
         == Outcome(h, st, if Accepted(ops) then DecodeAll(h.typ, Algebra(op, AllSets(st, h, ops))) else Err(RedisTypeError))
  {
    if Accepted(ops) {
      var fills := FillCmds(ops, |ops|);
      var temps := TempNames(ops, |ops|);
      var q := ParseArgs(h, ops).value;
      var c := ReadCmd(op, q.keys);
      assert Queue(q, [c]) == h.(pipe := fills + [c], tmpKeys := temps) by {
        QueueFresh(h, ops, [c]);
        assert h.tmpKeys + temps == temps;
      }
      Batch(h, st, fills, temps, c);
      ReadRestored(h, st, ops, op);
    }
  }

  /** After the fills, the reading primitive replies with the algebra of the
      primary and the operands, and the deletes restore the store. */
  lemma ReadRestored(h: Handle, st: Store, ops: seq<Operand<Value>>, op: SetOp)
    requires Accepted(ops) && Fresh(st, h, ops, [])
    ensures var s1 := Exec(st, FillCmds(ops, |ops|)).store;
      Step(s1, ReadCmd(op, ParseArgs(h, ops).value.keys)) == Done(s1, MemberSet(Algebra(op, AllSets(st, h, ops))))
      && Exec(s1, Dels(TempNames(ops, |ops|))).store == st
  {
    var s1 := Exec(st, FillCmds(ops, |ops|)).store;
    KeysRead(st, h, ops, []);
    ReadCmdStep(s1, op, ParseArgs(h, ops).value.keys);
    TempsAbsent(st, h, ops, []);
    RestoreAfterDels(s1, st, TempNames(ops, |ops|));
  }

  /** The batch of an update operation stores the set algebra of the
      primary and the operands at the primary key and changes nothing else. */
  lemma StoreOpCorrect(h: Handle, st: Store, ops: seq<Operand<Value>>, op: SetOp)
    requires Idle(h) && Fresh(st, h, ops, [])
    ensures StoreOp(h, st, ops, op)
         == if Accepted(ops) then Outcome(h, PutSet(st, h.key, Algebra(op, AllSets(st, h, ops))), Ok(()))
            else Outcome(h, st, Err(RedisTypeError))
  {
    if Accepted(ops) {
      var fills := FillCmds(ops, |ops|);
      var temps := TempNames(ops, |ops|);
      var q := ParseArgs(h, ops).value;
      var c := StoreCmd(op, h.key, q.keys);
      assert Queue(q, [c]) == h.(pipe := fills + [c], tmpKeys := temps) by {
        QueueFresh(h, ops, [c]);
        assert h.tmpKeys + temps == temps;
      }
      Batch(h, st, fills, temps, c);
      StoreRestored(h, st, ops, op);
    }
  }

  /** Fills, the storing primitive and the deletes together leave the
      algebra at the primary key and every other key as it was. */
  lemma StoreRestored(h: Handle, st: Store, ops: seq<Operand<Value>>, op: SetOp)
    requires Accepted(ops) && Fresh(st, h, ops, [])
    ensures var s1 := Exec(st, FillCmds(ops, |ops|)).store;
      var c := StoreCmd(op, h.key, ParseArgs(h, ops).value.keys);
      Exec(Step(s1, c).store, Dels(TempNames(ops, |ops|))).store
        == PutSet(st, h.key, Algebra(op, AllSets(st, h, ops)))
  {
    var temps := TempNames(ops, |ops|);
    var s1 := Exec(st, FillCmds(ops, |ops|)).store;
    var keys := ParseArgs(h, ops).value.keys;
    var r := Algebra(op, AllSets(st, h, ops));
    assert AgreeOff(s1, st, temps) && MemberSets(s1, keys) == AllSets(st, h, ops) by {
      KeysRead(st, h, ops, []);
    }
    StoreCmdStep(s1, op, h.key, keys);
    PutSetAgrees(s1, st, temps, h.key, r);
    assert forall t :: t in temps ==> t !in PutSet(st, h.key, r) by {
      NotTemp(st, h, ops, [], |ops|, h.key);
      TempsAbsent(st, h, ops, []);
    }
    RestoreAfterDels(PutSet(s1, h.key, r), PutSet(st, h.key, r), temps);
  }

  // ----------------------------------------------------- public operations

  function Union(h: Handle, st: Store, ops: seq<Operand<Value>>): Outcome<set<Value>> {
    ReadOp(h, st, ops, UnionOp)
  }

  function Update(h: Handle, st: Store, ops: seq<Operand<Value>>): Outcome<()> {
    StoreOp(h, st, ops, UnionOp)
  }

  function Intersection(h: Handle, st: Store, ops: seq<Operand<Value>>): Outcome<set<Value>> {
    ReadOp(h, st, ops, InterOp)
  }

  function IntersectionUpdate(h: Handle, st: Store, ops: seq<Operand<Value>>): Outcome<()> {
    StoreOp(h, st, ops, InterOp)
  }

  function Difference(h: Handle, st: Store, ops: seq<Operand<Value>>): Outcome<set<Value>> {
    ReadOp(h, st, ops, DiffOp)
  }

  function DifferenceUpdate(h: Handle, st: Store, ops: seq<Operand<Value>>): Outcome<()> {
    StoreOp(h, st, ops, DiffOp)
  }

  /** A text is in the union of the primary and the operands exactly when
      the primary or some operand holds it. */
  lemma UnionOfAll(st: Store, h: Handle, ops: seq<Operand<Value>>, x: string)
    ensures x in UnionSets(AllSets(st, h, ops))
        <==> x in Members(st, h.key) || exists i :: 0 <= i < |ops| && x in OperandTexts(st, ops[i])
  {
    var ss := AllSets(st, h, ops);
    if x in UnionSets(ss) && x !in Members(st, h.key) {
      var i :| 0 <= i < |ss| && x in ss[i];
      assert ss[i] == OperandTexts(st, ops[i - 1]);
      assert x in OperandTexts(st, ops[i - 1]);
    }
    if x in Members(st, h.key) {
      assert x in ss[0];
    }
    if exists i :: 0 <= i < |ops| && x in OperandTexts(st, ops[i]) {
      var i :| 0 <= i < |ops| && x in OperandTexts(st, ops[i]);
      assert ss[i + 1] == OperandTexts(st, ops[i]);
      assert x in ss[i + 1];
    }
  }

  /** A text is in the intersection exactly when the primary and every
      operand hold it. */
  lemma InterOfAll(st: Store, h: Handle, ops: seq<Operand<Value>>, x: string)
    ensures x in InterSets(AllSets(st, h, ops))
        <==> x in Members(st, h.key) && forall i :: 0 <= i < |ops| ==> x in OperandTexts(st, ops[i])
  {
    var ss := AllSets(st, h, ops);
    if x in Members(st, h.key) && forall i :: 0 <= i < |ops| ==> x in OperandTexts(st, ops[i]) {
      forall i | 0 <= i < |ss| ensures x in ss[i] {
        if i > 0 {
          assert ss[i] == OperandTexts(st, ops[i - 1]);
        }
      }
    }
    if x in InterSets(ss) {
      forall i | 0 <= i < |ops| ensures x in OperandTexts(st, ops[i]) {
        assert x in ss[i + 1];
      }
      assert x in ss[0];
    }
  }

  /** A text is in the difference exactly when the primary holds it and no
      operand does. */
  lemma DiffOfAll(st: Store, h: Handle, ops: seq<Operand<Value>>, x: string)
    ensures x in DiffSets(AllSets(st, h, ops))
        <==> x in Members(st, h.key) && forall i :: 0 <= i < |ops| ==> x !in OperandTexts(st, ops[i])
  {
    var ss := AllSets(st, h, ops);
    if x in DiffSets(ss) {
      forall i | 0 <= i < |ops| ensures x !in OperandTexts(st, ops[i]) {
        assert ss[i + 1] == OperandTexts(st, ops[i]);
      }
    }
    if x in Members(st, h.key) && forall i :: 0 <= i < |ops| ==> x !in OperandTexts(st, ops[i]) {
      forall i | 0 < i < |ss| ensures x !in ss[i] {
        assert ss[i] == OperandTexts(st, ops[i - 1]);
      }
    }
  }

  /** `union`: the decoded members of the primary or of any operand; the
      store and the handle are as they were. */
  lemma UnionCorrect(h: Handle, st: Store, ops: seq<Operand<Value>>, x: string)
    requires Idle(h) && Fresh(st, h, ops, []) && Accepted(ops)
    ensures var r := Union(h, st, ops);
      r.h == h && r.st == st && r.value == DecodeAll(h.typ, UnionSets(AllSets(st, h, ops)))
    ensures x in UnionSets(AllSets(st, h, ops))
        <==> x in Members(st, h.key) || exists i :: 0 <= i < |ops| && x in OperandTexts(st, ops[i])
  {
    ReadOpCorrect(h, st, ops, UnionOp);
    UnionOfAll(st, h, ops, x);
  }

  /** `update`: the primary ends up holding the union; nothing else changes. */
  lemma UpdateCorrect(h: Handle, st: Store, ops: seq<Operand<Value>>, x: string)
    requires Idle(h) && Fresh(st, h, ops, []) && Accepted(ops)
    ensures var r := Update(h, st, ops);
      r.h == h && r.value == Ok(()) && r.st == PutSet(st, h.key, UnionSets(AllSets(st, h, ops)))
    ensures x in Members(Update(h, st, ops).st, h.key)
        <==> x in Members(st, h.key) || exists i :: 0 <= i < |ops| && x in OperandTexts(st, ops[i])
  {
    StoreOpCorrect(h, st, ops, UnionOp);
    UnionOfAll(st, h, ops, x);
  }

  /** `intersection`: the decoded members common to the primary and every
      operand, local and remote alike. */
  lemma IntersectionCorrect(h: Handle, st: Store, ops: seq<Operand<Value>>, x: string)
    requires Idle(h) && Fresh(st, h, ops, []) && Accepted(ops)
    ensures var r := Intersection(h, st, ops);
      r.h == h && r.st == st && r.value == DecodeAll(h.typ, InterSets(AllSets(st, h, ops)))
    ensures x in InterSets(AllSets(st, h, ops))
        <==> x in Members(st, h.key) && forall i :: 0 <= i < |ops| ==> x in OperandTexts(st, ops[i])
  {
    ReadOpCorrect(h, st, ops, InterOp);
    InterOfAll(st, h, ops, x);
  }

  /** `intersection_update`: the primary keeps the members every operand
      holds; nothing else changes. */
  lemma IntersectionUpdateCorrect(h: Handle, st: Store, ops: seq<Operand<Value>>, x: string)
    requires Idle(h) && Fresh(st, h, ops, []) && Accepted(ops)
    ensures var r := IntersectionUpdate(h, st, ops);
      r.h == h && r.value == Ok(()) && r.st == PutSet(st, h.key, InterSets(AllSets(st, h, ops)))
    ensures x in Members(IntersectionUpdate(h, st, ops).st, h.key)
        <==> x in Members(st, h.key) && forall i :: 0 <= i < |ops| ==> x in OperandTexts(st, ops[i])
  {
    StoreOpCorrect(h, st, ops, InterOp);
    InterOfAll(st, h, ops, x);
  }

  /** `difference`: the decoded members of the primary found in no operand. */
  lemma DifferenceCorrect(h: Handle, st: Store, ops: seq<Operand<Value>>, x: string)
    requires Idle(h) && Fresh(st, h, ops, []) && Accepted(ops)
    ensures var r := Difference(h, st, ops);
      r.h == h && r.st == st && r.value == DecodeAll(h.typ, DiffSets(AllSets(st, h, ops)))
    ensures x in DiffSets(AllSets(st, h, ops))
        <==> x in Members(st, h.key) && forall i :: 0 <= i < |ops| ==> x !in OperandTexts(st, ops[i])
  {
    ReadOpCorrect(h, st, ops, DiffOp);
    DiffOfAll(st, h, ops, x);
  }

  /** `difference_update`: the primary loses every member some operand
      holds; nothing else changes. */
  lemma DifferenceUpdateCorrect(h: Handle, st: Store, ops: seq<Operand<Value>>, x: string)
    requires Idle(h) && Fresh(st, h, ops, []) && Accepted(ops)
    ensures var r := DifferenceUpdate(h, st, ops);
      r.h == h && r.value == Ok(()) && r.st == PutSet(st, h.key, DiffSets(AllSets(st, h, ops)))
    ensures x in Members(DifferenceUpdate(h, st, ops).st, h.key)
        <==> x in Members(st, h.key) && forall i :: 0 <= i < |ops| ==> x !in OperandTexts(st, ops[i])
  {
    StoreOpCorrect(h, st, ops, DiffOp);
    DiffOfAll(st, h, ops, x);
  }

  // ------------------------------------------------- symmetric difference

  /** The batch shared by `symmetric_difference` and its update: store the
      intersection and the union of all keys under the clock-derived names,
      then `last` combines the two. */
  function SymBatch(q: Queued<Value>, u: string, i: string, last: Cmd): Handle {
    Queue(q, [SInterStore(i, q.keys), SUnionStore(u, q.keys), last])
  }

  /** The symmetric-difference batch queued on an idle handle: the fills,
      both storing primitives and `last`, with the two extra names
      registered before the operand temporaries. */
  lemma SymQueued(h: Handle, ops: seq<Operand<Value>>, u: string, i: string, last: Cmd)
    requires Idle(h) && Accepted(ops)
    ensures var keys := ParseArgs(h, ops).value.keys;
      SymBatch(ParseArgs(h.(tmpKeys := [u, i]), ops).value, u, i, last)
        == h.(pipe := FillCmds(ops, |ops|) + [SInterStore(i, keys), SUnionStore(u, keys)] + [last],
              tmpKeys := [u, i] + TempNames(ops, |ops|))
  {
    var h0 := h.(tmpKeys := [u, i]);
    var keys := ParseArgs(h, ops).value.keys;
    var mid := [SInterStore(i, keys), SUnionStore(u, keys)];
    assert ParseArgs(h0, ops).value.keys == keys by {
      ParseArgsKeys(h0, h, ops);
    }
    QueueFresh(h0, ops, mid + [last]);
    assert FillCmds(ops, |ops|) + mid + [last] == FillCmds(ops, |ops|) + (mid + [last]);
  }

  /** `symmetric_difference`: the names `<seconds>union` and `<seconds>inter`
      replace whatever was registered, the operands are parsed, and the
      difference of the stored union and intersection is read back. */
  function SymmetricDifference(h: Handle, st: Store, ops: seq<Operand<Value>>, seconds: nat): Outcome<set<Value>> {
    var u := UnionKey(seconds);
    var i := InterKey(seconds);
    var h0 := h.(tmpKeys := [u, i]);
    match ParseArgs(h0, ops)
    case Err(e) => Outcome(h0, st, Err(e))
    case Ok(q) =>
      var c := DeleteTemporary(SymBatch(q, u, i, SDiff([u, i])));
      var ex := GetPipeValue(c.h, st, c.count);
      Outcome(ex.h, ex.st, DecodeMembers(h.typ, ex.value))
  }

  /** `symmetric_difference_update`: the same batch, storing the difference
      at the primary key. */
  function SymmetricDifferenceUpdate(h: Handle, st: Store, ops: seq<Operand<Value>>, seconds: nat): Outcome<()> {
    var u := UnionKey(seconds);
    var i := InterKey(seconds);
    var h0 := h.(tmpKeys := [u, i]);
    match ParseArgs(h0, ops)
    case Err(e) => Outcome(h0, st, Err(e))
    case Ok(q) =>
      var c := DeleteTemporary(SymBatch(q, u, i, SDiffStore(h.key, [u, i])));
      Flush(c.h, st)
  }

  /** What a symmetric difference computes: the texts some of the primary
      and the operands hold but not all of them. */
  function SomeNotAll(st: Store, h: Handle, ops: seq<Operand<Value>>): set<string> {
    UnionSets(AllSets(st, h, ops)) - InterSets(AllSets(st, h, ops))
  }

  /** After the fills and the two storing primitives, the union and the
      intersection of everything sit under the extra names `u` and `i`,
      and nothing but those and the operand names differs from the start. */
  lemma SymStored(st: Store, h: Handle, ops: seq<Operand<Value>>, u: string, i: string)
    requires Accepted(ops) && Fresh(st, h, ops, [u, i])
    ensures var keys := ParseArgs(h, ops).value.keys;
      var s3 := Exec(Exec(st, FillCmds(ops, |ops|)).store, [SInterStore(i, keys), SUnionStore(u, keys)]).store;
      Members(s3, u) == UnionSets(AllSets(st, h, ops))
      && Members(s3, i) == InterSets(AllSets(st, h, ops))
      && AgreeOff(s3, st, [u, i] + TempNames(ops, |ops|))
  {
    var keys := ParseArgs(h, ops).value.keys;
    var temps := TempNames(ops, |ops|);
    var s1 := Exec(st, FillCmds(ops, |ops|)).store;
    assert AgreeOff(s1, st, temps) && MemberSets(s1, keys) == AllSets(st, h, ops) by {
      KeysRead(st, h, ops, [u, i]);
    }
    assert forall j :: 0 <= j < |keys| ==> keys[j] != u && keys[j] != i by {
      KeysApart(st, h, ops, [u, i]);
      assert u in [u, i] && i in [u, i];
    }
    assert u != i by {
      var names := TempNames(ops, |ops|) + [u, i];
      assert names[|names| - 2] == u && names[|names| - 1] == i;
    }
    var s2 := SymInterStored(s1, keys, u, i);
    var s3 := SymUnionStored(s2, keys, u, i);
    ExecTwo(s1, SInterStore(i, keys), SUnionStore(u, keys));
    AgreeOffChain(s3, s2, s1, st, u, i, temps);
  }

  /** The first storing primitive: the intersection goes under `i`, and the
      keys, none of which is `u` or `i`, read as before. */
  lemma SymInterStored(s1: Store, keys: seq<string>, u: string, i: string) returns (s2: Store)
    requires |keys| > 0 && forall j :: 0 <= j < |keys| ==> keys[j] != u && keys[j] != i
    ensures s2 == Step(s1, SInterStore(i, keys)).store
    ensures Members(s2, i) == InterSets(MemberSets(s1, keys))
    ensures MemberSets(s2, keys) == MemberSets(s1, keys)
    ensures AgreeOff(s2, s1, [i])
  {
    InterStoreStep(s1, i, keys);
    s2 := PutSet(s1, i, InterSets(MemberSets(s1, keys)));
    PutSetAgrees(s1, s1, [], i, InterSets(MemberSets(s1, keys)));
    AgreeOffWiden(s2, s1, [i], [u, i]);
    AgreeOffMemberSets(s2, s1, [u, i], keys);
  }

  /** The second storing primitive: the union goes under `u` and the
      intersection under `i` stays. */
  lemma SymUnionStored(s2: Store, keys: seq<string>, u: string, i: string) returns (s3: Store)
    requires |keys| > 0 && u != i
    ensures s3 == Step(s2, SUnionStore(u, keys)).store
    ensures Members(s3, u) == UnionSets(MemberSets(s2, keys))
    ensures Members(s3, i) == Members(s2, i)
    ensures AgreeOff(s3, s2, [u])
  {
    UnionStoreStep(s2, u, keys);
    s3 := PutSet(s2, u, UnionSets(MemberSets(s2, keys)));
    PutSetAgrees(s2, s2, [], u, UnionSets(MemberSets(s2, keys)));
    assert i !in [u];
    AgreeOffReads(s3, s2, [u], i);
  }

  /** `symmetric_difference` reads the texts held by some but not all of
      the primary and the operands; the store ends as it began and the
      handle is idle. A rejected operand raises as the corrected `parse_args`
      does: only the two clock names stay registered, while as written the
      earlier operands' fills and names stay as well. */
  lemma SymmetricDifferenceCorrect(h: Handle, st: Store, ops: seq<Operand<Value>>, seconds: nat)
    requires Idle(h) && Fresh(st, h, ops, [UnionKey(seconds), InterKey(seconds)])
    ensures SymmetricDifference(h, st, ops, seconds)
         == if Accepted(ops) then Outcome(h, st, DecodeAll(h.typ, SomeNotAll(st, h, ops)))
            else Outcome(h.(tmpKeys := [UnionKey(seconds), InterKey(seconds)]), st, Err(RedisTypeError))
  {
    if Accepted(ops) {
      SymReadBatch(h, st, ops, UnionKey(seconds), InterKey(seconds));
    }
  }

  /** The read batch for arbitrary fresh names `u` and `i`. */
  lemma SymReadBatch(h: Handle, st: Store, ops: seq<Operand<Value>>, u: string, i: string)
    requires Idle(h) && Accepted(ops) && Fresh(st, h, ops, [u, i])
    ensures var q := ParseArgs(h.(tmpKeys := [u, i]), ops).value;
      var c := DeleteTemporary(SymBatch(q, u, i, SDiff([u, i])));
      var ex := GetPipeValue(c.h, st, c.count);
      ex == Outcome(h, st, Ok(MemberSet(SomeNotAll(st, h, ops))))
  {
    var q := ParseArgs(h.(tmpKeys := [u, i]), ops).value;
    var keys := ParseArgs(h, ops).value.keys;
    var mid := [SInterStore(i, keys), SUnionStore(u, keys)];
    var fills := FillCmds(ops, |ops|) + mid;
    var temps := [u, i] + TempNames(ops, |ops|);
    assert SymBatch(q, u, i, SDiff([u, i])) == h.(pipe := fills + [SDiff([u, i])], tmpKeys := temps) by {
      SymQueued(h, ops, u, i, SDiff([u, i]));
    }
    Batch(h, st, fills, temps, SDiff([u, i]));
    SymAfterStores(st, h, ops, u, i);
    var s3 := Exec(st, fills).store;
    ReadCmdStep(s3, DiffOp, [u, i]);
    RestoreAfterDels(s3, st, temps);
  }

  /** After the fills and both storing primitives, the difference of the
      two extra keys is the symmetric difference, nothing but temporaries
      has changed and no temporary existed before. */
  lemma SymAfterStores(st: Store, h: Handle, ops: seq<Operand<Value>>, u: string, i: string)
    requires Accepted(ops) && Fresh(st, h, ops, [u, i])
    ensures var keys := ParseArgs(h, ops).value.keys;
      var s3 := Exec(st, FillCmds(ops, |ops|) + [SInterStore(i, keys), SUnionStore(u, keys)]).store;
      var temps := [u, i] + TempNames(ops, |ops|);
      DiffSets(MemberSets(s3, [u, i])) == SomeNotAll(st, h, ops)
      && AgreeOff(s3, st, temps)
      && (forall t :: t in temps ==> t !in st)
      && h.key !in temps
  {
    var keys := ParseArgs(h, ops).value.keys;
    ExecAppend(st, FillCmds(ops, |ops|), [SInterStore(i, keys), SUnionStore(u, keys)]);
    SymStored(st, h, ops, u, i);
    TempsAbsent(st, h, ops, [u, i]);
    NotTemp(st, h, ops, [u, i], |ops|, h.key);
  }

  /** `symmetric_difference_update` stores the texts held by some but not
      all of the primary and the operands at the primary key and changes
      nothing else; a rejected operand raises as the corrected `parse_args`
      does. */
  lemma SymmetricDifferenceUpdateCorrect(h: Handle, st: Store, ops: seq<Operand<Value>>, seconds: nat)
    requires Idle(h) && Fresh(st, h, ops, [UnionKey(seconds), InterKey(seconds)])
    ensures SymmetricDifferenceUpdate(h, st, ops, seconds)
         == if Accepted(ops) then Outcome(h, PutSet(st, h.key, SomeNotAll(st, h, ops)), Ok(()))
            else Outcome(h.(tmpKeys := [UnionKey(seconds), InterKey(seconds)]), st, Err(RedisTypeError))
  {
    if Accepted(ops) {
      SymStoreBatch(h, st, ops, UnionKey(seconds), InterKey(seconds));
    }
  }

  /** The update batch for arbitrary fresh names `u` and `i`. */
  lemma SymStoreBatch(h: Handle, st: Store, ops: seq<Operand<Value>>, u: string, i: string)
    requires Idle(h) && Accepted(ops) && Fresh(st, h, ops, [u, i])
    ensures var q := ParseArgs(h.(tmpKeys := [u, i]), ops).value;
      var c := DeleteTemporary(SymBatch(q, u, i, SDiffStore(h.key, [u, i])));
      Flush(c.h, st) == Outcome(h, PutSet(st, h.key, SomeNotAll(st, h, ops)), Ok(()))
  {
    var q := ParseArgs(h.(tmpKeys := [u, i]), ops).value;
    var keys := ParseArgs(h, ops).value.keys;
    var mid := [SInterStore(i, keys), SUnionStore(u, keys)];
    var fills := FillCmds(ops, |ops|) + mid;
    var temps := [u, i] + TempNames(ops, |ops|);
    var last := SDiffStore(h.key, [u, i]);
    assert SymBatch(q, u, i, last) == h.(pipe := fills + [last], tmpKeys := temps) by {
      SymQueued(h, ops, u, i, last);
    }
    Batch(h, st, fills, temps, last);
    SymAfterStores(st, h, ops, u, i);
    var s3 := Exec(st, fills).store;
    var d := SomeNotAll(st, h, ops);
    DiffStoreStep(s3, h.key, [u, i]);
    PutSetAgrees(s3, st, temps, h.key, d);
    RestoreAfterDels(PutSet(s3, h.key, d), PutSet(st, h.key, d), temps);
  }

  /** Held by some but not all: with a single operand this is the ordinary
      symmetric difference of the primary and the operand. */
  lemma SomeNotAllMeaning(st: Store, h: Handle, ops: seq<Operand<Value>>, x: string)
    ensures x in SomeNotAll(st, h, ops)
        <==> (x in Members(st, h.key) || exists i :: 0 <= i < |ops| && x in OperandTexts(st, ops[i]))
             && !(x in Members(st, h.key) && forall i :: 0 <= i < |ops| ==> x in OperandTexts(st, ops[i]))
    ensures |ops| == 1 ==>
      (x in SomeNotAll(st, h, ops) <==> (x in Members(st, h.key)) != (x in OperandTexts(st, ops[0])))
  {
    UnionOfAll(st, h, ops, x);
    InterOfAll(st, h, ops, x);
  }

  /** With `parse_args` corrected, any operation given an operand that is
      neither a set, a list nor a `Set` raises `RedisTypeError` and leaves
      handle and store alone. */
  lemma RejectedOperand(h: Handle, st: Store, ops: seq<Operand<Value>>, op: SetOp)
    requires !Accepted(ops)
    ensures ReadOp(h, st, ops, op) == Outcome(h, st, Err(RedisTypeError))
    ensures StoreOp(h, st, ops, op) == Outcome(h, st, Err(RedisTypeError))
  {
  }

  // ------------------------------------------- a rejected operand, as written

  /** The batch of a read once `parse_args` has handed back `q`: the
      primitive after the fills, the deletes, and the reply read back. */
  function ReadQueued(q: Queued<Value>, st: Store, op: SetOp, t: ElemType): Outcome<set<Value>> {
    var c := DeleteTemporary(Queue(q, [ReadCmd(op, q.keys)]));
    var ex := GetPipeValue(c.h, st, c.count);
    Outcome(ex.h, ex.st, DecodeMembers(t, ex.value))
  }

  /** `union`, `intersection` and `difference` as written: when an operand
      is rejected, the fills of the operands before it stay queued on the
      shared pipeline and their names stay registered. */
  function ReadOpAsWritten(h: Handle, st: Store, ops: seq<Operand<Value>>, op: SetOp): (r: Outcome<set<Value>>)
    ensures Accepted(ops) ==> r == ReadOp(h, st, ops, op)
    ensures !Accepted(ops) ==> r.value == Err(RedisTypeError) && r.st == st
  {
    var a := ParseArgsAsWritten(h, ops);
    match a.keys
    case Err(e) => Outcome(a.h.(pipe := a.h.pipe + SetFills(a.pending)), st, Err(e))
    case Ok(keys) => ReadQueued(Queued(a.h, keys, a.pending), st, op, h.typ)
  }

  /** Whatever is already queued runs first; the reply is still the
      primitive's, read past the deletes. */
  lemma ReadQueuedValue(q: Queued<Value>, st: Store, op: SetOp, t: ElemType)
    ensures ReadQueued(q, st, op, t).value
         == DecodeMembers(t, Ok(Step(Exec(st, q.h.pipe + SetFills(q.pending)).store, ReadCmd(op, q.keys)).reply))
  {
    var c := ReadCmd(op, q.keys);
    var cl := DeleteTemporary(Queue(q, [c]));
    var fills := q.h.pipe + SetFills(q.pending);
    assert cl.h == cl.h.(pipe := fills + [c] + Dels(q.h.tmpKeys)) && cl.count == |q.h.tmpKeys|;
    GetPipeValueSkipsDeletes(cl.h.(pipe := fills), st, c, q.h.tmpKeys);
  }

  /** `s.union({"a"}, 5)` raises, but leaves `SADD __tmp__0 a` queued; the
      next `s.union({"b"})` reuses the name `__tmp__0`, so its answer holds
      "a" as well, where the corrected operation answers `{"b"}`. */
  lemma LeakedFillCounterexample()
    ensures var h := Handle("s", StrType, [], []);
      var first := ReadOpAsWritten(h, map[], [Local([StrV("a")]), Other], UnionOp);
      first.value == Err(RedisTypeError)
      && first.h.pipe == [SAdd(OperandTempKey(0), "a")]
      && ReadOpAsWritten(first.h, map[], [Local([StrV("b")])], UnionOp).value == Ok({StrV("a"), StrV("b")})
      && ReadOp(h, map[], [Local([StrV("b")])], UnionOp).value == Ok({StrV("b")})
  {
    LeakedCalls(Handle("s", StrType, [], []), map[], "a", "b");
  }

  /** The same two calls on any fresh `str` handle over an empty store. */
  lemma LeakedCalls(h: Handle, st: Store, a: string, b: string)
    requires Idle(h) && h.typ == StrType && st == map[] && h.key != OperandTempKey(0)
    ensures var first := ReadOpAsWritten(h, st, [Local([StrV(a)]), Other], UnionOp);
      first.value == Err(RedisTypeError)
      && first.h.pipe == [SAdd(OperandTempKey(0), a)]
      && ReadOpAsWritten(first.h, st, [Local([StrV(b)])], UnionOp).value == Ok({StrV(a), StrV(b)})
      && ReadOp(h, st, [Local([StrV(b)])], UnionOp).value == Ok({StrV(b)})
  {
    var t := OperandTempKey(0);
    var ops1 := [Local([StrV(a)]), Other];
    var ops2 := [Local([StrV(b)])];
    LeakedFirstCall(h, st, ops1, StrV(a), UnionOp);
    var h1 := h.(pipe := [SAdd(t, a)], tmpKeys := [t]);
    LeakedSecondCall(h1, st, ops2, t, a, b);
    CleanCall(h, st, ops2, b);
  }

  /** A rejected second operand leaves the first operand's fill queued and
      its name registered. */
  lemma LeakedFirstCall(h: Handle, st: Store, ops: seq<Operand<Value>>, x: Value, op: SetOp)
    requires Idle(h) && ops == [Local([x]), Other]
    ensures ReadOpAsWritten(h, st, ops, op)
         == Outcome(h.(pipe := [SAdd(OperandTempKey(0), ClientText(x))], tmpKeys := [OperandTempKey(0)]), st, Err(RedisTypeError))
  {
    assert FirstOther(ops) == Some(1);
    FirstLocal(ops, x);
  }

  lemma LeakedSecondCall(h: Handle, st: Store, ops: seq<Operand<Value>>, t: string, a: string, b: string)
    requires h.pipe == [SAdd(t, a)] && h.tmpKeys == [t] && h.typ == StrType && t == OperandTempKey(0)
    requires st == map[] && h.key != t && ops == [Local([StrV(b)])]
    ensures ReadOpAsWritten(h, st, ops, UnionOp).value == Ok({StrV(a), StrV(b)})
  {
    var fills := [SAdd(t, a), SAdd(t, b)];
    var reply := Step(Exec(st, fills).store, SUnion([h.key, t])).reply;
    assert ReadOpAsWritten(h, st, ops, UnionOp).value == DecodeMembers(StrType, Ok(reply)) by {
      SecondCallRead(h, st, ops, t, a, b);
    }
    TwoAddsUnion(st, h.key, t, a, b);
    TextsRead(a, b);
  }

  lemma SecondCallRead(h: Handle, st: Store, ops: seq<Operand<Value>>, t: string, a: string, b: string)
    requires h.pipe == [SAdd(t, a)] && h.tmpKeys == [t] && h.typ == StrType && t == OperandTempKey(0)
    requires ops == [Local([StrV(b)])]
    ensures ReadOpAsWritten(h, st, ops, UnionOp).value
         == DecodeMembers(StrType, Ok(Step(Exec(st, [SAdd(t, a), SAdd(t, b)]).store, SUnion([h.key, t])).reply))
  {
    OneLocalRead(h, st, ops, b);
    assert h.pipe + [SAdd(t, b)] == [SAdd(t, a), SAdd(t, b)];
  }

  /** A union with one single-element Python set runs its SADD after
      whatever the pipeline already holds, then SUNION. */
  lemma OneLocalRead(h: Handle, st: Store, ops: seq<Operand<Value>>, b: string)
    requires ops == [Local([StrV(b)])]
    ensures var t := OperandTempKey(0);
      ReadOpAsWritten(h, st, ops, UnionOp).value
        == DecodeMembers(h.typ, Ok(Step(Exec(st, h.pipe + [SAdd(t, b)]).store, SUnion([h.key, t])).reply))
  {
    var t := OperandTempKey(0);
    var q := ParseArgs(h, ops).value;
    assert q.keys == [h.key, t] by {
      assert q.keys[1] == t;
    }
    assert q.h.pipe + SetFills(q.pending) == h.pipe + [SAdd(t, b)] by {
      FirstLocal(ops, StrV(b));
    }
    assert ReadOpAsWritten(h, st, ops, UnionOp) == ReadQueued(q, st, UnionOp, h.typ);
    ReadQueuedValue(q, st, UnionOp, h.typ);
  }

  lemma CleanCall(h: Handle, st: Store, ops: seq<Operand<Value>>, b: string)
    requires Idle(h) && h.typ == StrType && st == map[] && h.key != OperandTempKey(0)
    requires ops == [Local([StrV(b)])]
    ensures ReadOp(h, st, ops, UnionOp).value == Ok({StrV(b)})
  {
    var t := OperandTempKey(0);
    var reply := Step(Exec(st, [SAdd(t, b)]).store, SUnion([h.key, t])).reply;
    assert ReadOp(h, st, ops, UnionOp).value == DecodeMembers(StrType, Ok(reply)) by {
      OneLocalRead(h, st, ops, b);
      assert h.pipe + [SAdd(t, b)] == [SAdd(t, b)];
    }
    assert reply == MemberSet({b}) by {
      var s := Exec(st, [SAdd(t, b)]).store;
      ExecOne(st, SAdd(t, b));
      UnionOfPair(s, h.key, t);
      assert Members(s, h.key) + Members(s, t) == {b};
    }
    TextRead(b);
  }

  /** A first operand that is a one-element Python set is registered under
      position 0's name and filled with one SADD. */
  lemma FirstLocal(ops: seq<Operand<Value>>, x: Value)
    requires |ops| > 0 && ops[0] == Local([x])
    ensures TempNames(ops, 1) == [OperandTempKey(0)]
    ensures Prefix(ops, 1).pending == [(OperandTempKey(0), [x])]
    ensures SetFills(Prefix(ops, 1).pending) == [SAdd(OperandTempKey(0), ClientText(x))]
  {
    var t := OperandTempKey(0);
    assert SetFills([(t, [x])]) == SetFills([]) + SetFill(t, [x]);
  }

  /** A `str` handle reads a reply of one or two texts as those texts. */
  lemma TextsRead(a: string, b: string)
    ensures DecodeMembers(StrType, Ok(MemberSet({a, b}))) == Ok({StrV(a), StrV(b)})
  {
    DecodeText({a, b});
    assert DecodeAll(StrType, {a, b}).value == {StrV(a), StrV(b)};
  }

  lemma TextRead(b: string)
    ensures DecodeAll(StrType, {b}) == Ok({StrV(b)})
  {
    DecodeText({b});
    assert DecodeAll(StrType, {b}).value == {StrV(b)};
  }

  lemma TwoAddsUnion(st: Store, k: string, t: string, a: string, b: string)
    requires st == map[] && k != t
    ensures Step(Exec(st, [SAdd(t, a), SAdd(t, b)]).store, SUnion([k, t])).reply == MemberSet({a, b})
  {
    var s := Exec(st, [SAdd(t, a), SAdd(t, b)]).store;
    TwoAdds(st, t, a, b);
    UnionOfPair(s, k, t);
    assert Members(s, k) + Members(s, t) == {a, b};
  }

  /** Two adds under an empty key leave both texts there and nothing else. */
  lemma TwoAdds(st: Store, t: string, a: string, b: string)
    requires st == map[]
    ensures var s := Exec(st, [SAdd(t, a), SAdd(t, b)]).store;
      Members(s, t) == {a, b} && forall k :: k != t ==> Members(s, k) == {}
  {
    ExecTwo(st, SAdd(t, a), SAdd(t, b));
  }

  lemma UnionOfPair(s: Store, k1: string, k2: string)
    ensures Step(s, SUnion([k1, k2])).reply == MemberSet(Members(s, k1) + Members(s, k2))
  {
    assert MemberSets(s, [k1, k2]) == [Members(s, k1), Members(s, k2)];
    assert [Members(s, k1), Members(s, k2)][..1] == [Members(s, k1)];
  }
}
