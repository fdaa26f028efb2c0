/** The single-key operations of the `Set` proxy (redis_natives/set.py) and
    the two comparisons `SetOperatorMixin` builds on the set algebra
    (redis_natives/datatypes.py). These go straight to the client, not
    through the proxy's pipeline, so the handle is only read.
 */
module SetMembers {
  import opened Wrappers
  import opened Codec
  import opened Store
  import opened Engine
  import opened SetProxy

  /** The text the handle stores for `v` once `type_prepare` has run. */
  function Stored(h: Handle, v: Value): Result<string> {
    Encode(h.typ, v)
  }

  // ----------------------------------------------------------------- reads

  /** `len(s)`: SCARD of the primary key. */
  function Len(h: Handle, st: Store): (r: int)
    ensures r == |Members(st, h.key)|
  {
    Step(st, SCard(h.key)).reply.n
  }

  /** `s.data`: the members, each through the declared type's conversion. */
  function Data(h: Handle, st: Store): Result<set<Value>> {
    DecodeAll(h.typ, Members(st, h.key))
  }

  /** `v in s`: SISMEMBER of the prepared value; preparing a bool-typed
      handle's non-numeric text raises `ValueError` first. */
  function Contains(h: Handle, st: Store, v: Value): (r: Result<bool>)
    ensures r.Err? <==> Stored(h, v).Err?
    ensures r.Ok? ==> (r.value <==> Stored(h, v).value in Members(st, h.key))
  {
    match Stored(h, v)
    case Err(e) => Err(e)
    case Ok(t) => Ok(t in Members(st, h.key))
  }

  // ---------------------------------------------------------------- writes

  /** `add`: SADD of the prepared value; the reply counts the members added. */
  function Add(h: Handle, st: Store, v: Value): (r: Outcome<int>)
    ensures r.h == h
    ensures r.value.Err? <==> Stored(h, v).Err?
    ensures r.value.Err? ==> r.st == st
    ensures r.value.Ok? ==>
      var t := Stored(h, v).value;
      Members(r.st, h.key) == Members(st, h.key) + {t}
      && r.value.value == (if t in Members(st, h.key) then 0 else 1)
      && AgreeOff(r.st, st, [h.key])
  {
    match Stored(h, v)
    case Err(e) => Outcome(h, st, Err(e))
    case Ok(t) =>
      var d := Step(st, SAdd(h.key, t));
      PutSetAgrees(st, st, [], h.key, Members(st, h.key) + {t});
      Outcome(h, d.store, Ok(d.reply.n))
  }

  /** `discard`: SREM of the prepared value, whether or not it is a member. */
  function Discard(h: Handle, st: Store, v: Value): (r: Outcome<()>)
    ensures r.h == h
    ensures r.value.Err? <==> Stored(h, v).Err?
    ensures r.value.Err? ==> r.st == st
    ensures r.value.Ok? ==>
      Members(r.st, h.key) == Members(st, h.key) - {Stored(h, v).value}
      && AgreeOff(r.st, st, [h.key])
  {
    match Stored(h, v)
    case Err(e) => Outcome(h, st, Err(e))
    case Ok(t) =>
      PutSetAgrees(st, st, [], h.key, Members(st, h.key) - {t});
      Outcome(h, Step(st, SRem(h.key, t)).store, Ok(()))
  }

  /** `remove`: SREM of the prepared value; when SREM removed nothing the
      proxy raises `RedisKeyError`. */
  function Remove(h: Handle, st: Store, v: Value): (r: Outcome<()>)
    ensures r.h == h
  {
    match Stored(h, v)
    case Err(e) => Outcome(h, st, Err(e))
    case Ok(t) =>
      var d := Step(st, SRem(h.key, t));
      if d.reply.n == 0 then Outcome(h, d.store, Err(RedisKeyError))
      else Outcome(h, d.store, Ok(()))
  }

  /** `clear`: deletes the primary key. */
  function Clear(h: Handle, st: Store): (r: Outcome<int>)
    ensures r.h == h
    ensures Members(r.st, h.key) == {} && AgreeOff(r.st, st, [h.key])
    ensures r.value == Ok(if h.key in st then 1 else 0)
  {
    var d := Step(st, Del(h.key));
    AgreeOffIntro(d.store, st, [h.key]);
    Outcome(h, d.store, Ok(d.reply.n))
  }

  /** `copy(key)`: SUNIONSTORE of the primary alone into `key`, and a new
      proxy on `key`, declared `str` whatever the original's type. */
  function Copy(h: Handle, st: Store, key: string): (r: Outcome<Handle>)
    ensures r.h == h
    ensures r.value.Ok? && r.value.value == Handle(key, StrType, [], [])
    ensures Members(r.st, key) == Members(st, h.key)
    ensures AgreeOff(r.st, st, [key])
  {
    var s := Step(st, SUnionStore(key, [h.key])).store;
    assert MemberSets(st, [h.key]) == [Members(st, h.key)];
    UnionOfOne(Members(st, h.key));
    PutSetAgrees(st, st, [], key, Members(st, h.key));
    Outcome(h, s, Ok(Handle(key, StrType, [], [])))
  }

  /** The union of a single set is that set. */
  lemma UnionOfOne(s: set<string>)
    ensures UnionSets([s]) == s
  {
    assert [s][1..] == [];
  }

  // ------------------------------------------------------------ comparisons

  /** `issubset(other)`: the decoded members against a Python set. */
  function IsSubset(h: Handle, st: Store, other: set<Value>): (r: Result<bool>)
    ensures r.Ok? <==> Data(h, st).Ok?
    ensures r.Ok? ==> (r.value <==> forall v :: v in Data(h, st).value ==> v in other)
  {
    match Data(h, st)
    case Err(e) => Err(e)
    case Ok(d) => Ok(d <= other)
  }

  /** On a `str` proxy `issubset` compares the member texts themselves. */
  lemma IsSubsetText(h: Handle, st: Store, other: set<Value>)
    requires h.typ == StrType
    ensures IsSubset(h, st, other) == Ok(forall x :: x in Members(st, h.key) ==> StrV(x) in other)
  {
    DecodeText(Members(st, h.key));
  }

  /** After `add(v)`, the proxy is a subset of `other` exactly when it was
      one before and `other` holds `v`. */
  lemma AddThenIsSubset(h: Handle, st: Store, v: Value, other: set<Value>)
    requires HasType(v, h.typ) && Data(h, st).Ok?
    ensures IsSubset(h, Add(h, st, v).st, other) == Ok(IsSubset(h, st, other).value && v in other)
  {
    AddThenData(h, st, v);
  }

  /** `Comparable` on two `Set` proxies compares their member counts: a
      subset is never larger, it is smaller exactly when it is a proper
      subset, and it is at least as large only when the two are equal. */
  lemma CompareSubsets(h1: Handle, h2: Handle, st: Store)
    requires Members(st, h1.key) <= Members(st, h2.key)
    ensures Compare(Le, Len(h1, st), Len(h2, st))
    ensures Compare(Lt, Len(h1, st), Len(h2, st)) <==> Members(st, h1.key) != Members(st, h2.key)
    ensures Compare(Ge, Len(h1, st), Len(h2, st)) <==> Members(st, h1.key) == Members(st, h2.key)
  {
    SubsetNoLarger(Members(st, h1.key), Members(st, h2.key));
    SubsetSameSize(Members(st, h1.key), Members(st, h2.key));
  }

  /** `isdisjoint(*others)`: whether the intersection, read back through the
      declared type, is empty. */
  function IsDisjoint(h: Handle, st: Store, ops: seq<Operand<Value>>): Outcome<bool> {
    var r := Intersection(h, st, ops);
    match r.value
    case Err(e) => Outcome(r.h, r.st, Err(e))
    case Ok(s) => Outcome(r.h, r.st, Ok(|s| == 0))
  }

  /** `issuperset(other)`: whether the union with `other`, read back through
      the declared type, has as many elements as the primary has members. */
  function IsSuperset(h: Handle, st: Store, other: Operand<Value>): Outcome<bool> {
    var r := Union(h, st, [other]);
    match r.value
    case Err(e) => Outcome(r.h, r.st, Err(e))
    case Ok(s) => Outcome(r.h, r.st, Ok(|s| == Len(h, r.st)))
  }

  // ---------------------------------------------------------------- lemmas

  /** After `add(v)`, `v in s` holds. */
  lemma AddThenContains(h: Handle, st: Store, v: Value)
    requires Stored(h, v).Ok?
    ensures Contains(h, Add(h, st, v).st, v) == Ok(true)
  {
  }

  /** After `discard(v)`, `v in s` no longer holds. */
  lemma DiscardThenContains(h: Handle, st: Store, v: Value)
    requires Stored(h, v).Ok?
    ensures Contains(h, Discard(h, st, v).st, v) == Ok(false)
  {
  }

  /** `remove` changes the store exactly as `discard` does, and raises
      `RedisKeyError` exactly when the value was not a member. */
  lemma RemoveCorrect(h: Handle, st: Store, v: Value)
    ensures Remove(h, st, v).st == Discard(h, st, v).st
    ensures Remove(h, st, v).value == Err(RedisKeyError) <==> Contains(h, st, v) == Ok(false)
    ensures Remove(h, st, v).value.Ok? <==> Contains(h, st, v) == Ok(true)
    ensures Stored(h, v).Err? ==> Remove(h, st, v).value == Err(Stored(h, v).error)
  {
  }

  /** The reply of `add` is by how much the cardinality grew. */
  lemma AddGrowsLen(h: Handle, st: Store, v: Value)
    requires Stored(h, v).Ok?
    ensures Len(h, Add(h, st, v).st) == Len(h, st) + Add(h, st, v).value.value
  {
    var t := Stored(h, v).value;
    if t !in Members(st, h.key) {
      assert |Members(st, h.key) + {t}| == |Members(st, h.key)| + 1;
    } else {
      assert Members(st, h.key) + {t} == Members(st, h.key);
    }
  }

  /** Adding a value that was not a member and then discarding it gives the
      store back, provided the primary key held a set or nothing. */
  lemma AddDiscardRoundTrip(h: Handle, st: Store, v: Value)
    requires WellFormed(st) && (h.key in st ==> st[h.key].SetE?)
    requires Contains(h, st, v) == Ok(false)
    ensures Discard(h, Add(h, st, v).st, v).st == st
  {
    var s2 := Discard(h, Add(h, st, v).st, v).st;
    var t := Stored(h, v).value;
    assert Members(s2, h.key) == Members(st, h.key);
    AgreeOffTrans(s2, Add(h, st, v).st, st, [h.key], [h.key]);
    forall k ensures k in s2 <==> k in st {
      if k != h.key {
        AgreeOffAt(s2, st, [h.key] + [h.key], k);
      }
    }
    forall k | k in s2 ensures s2[k] == st[k] {
      if k != h.key {
        AgreeOffAt(s2, st, [h.key] + [h.key], k);
      }
    }
  }

  /** A value of the declared type added to a readable set is read back
      with the others. */
  lemma AddThenData(h: Handle, st: Store, v: Value)
    requires HasType(v, h.typ) && Data(h, st).Ok?
    ensures Data(h, Add(h, st, v).st) == Ok(Data(h, st).value + {v})
  {
    RoundTrip(h.typ, v);
    var m := Members(st, h.key);
    var m2 := m + {Render(v)};
    assert Members(Add(h, st, v).st, h.key) == m2;
    var d := Data(h, st).value;
    assert DecodeAll(h.typ, m2).Ok?;
    var d2 := DecodeAll(h.typ, m2).value;
    forall w ensures w in d2 <==> w in d + {v} {
      if w in d2 {
        var x :| x in m2 && Decode(h.typ, x) == Ok(w);
      }
    }
    assert d2 == d + {v};
  }

  /** The copy is a `str` proxy: whatever the original's type, its members
      read back as their stored text. */
  lemma CopyReadsText(h: Handle, st: Store, key: string)
    ensures var r := Copy(h, st, key);
      Data(r.value.value, r.st) == Ok(set x | x in Members(st, h.key) :: StrV(x))
  {
    var r := Copy(h, st, key);
    var raw := Members(st, h.key);
    var d := DecodeAll(StrType, raw).value;
    forall w ensures w in d <==> w in (set x | x in raw :: StrV(x)) {
      if w in d {
        var x :| x in raw && Decode(StrType, x) == Ok(w);
      }
    }
    assert d == set x | x in raw :: StrV(x);
    assert Members(r.st, r.value.value.key) == raw;
    assert Data(r.value.value, r.st) == DecodeAll(StrType, raw);
  }

  /** `isdisjoint`: true exactly when no text is held by the primary and
      every operand, with the store left as it was and the handle idle. */
  lemma IsDisjointCorrect(h: Handle, st: Store, ops: seq<Operand<Value>>, x: string)
    requires Idle(h) && Fresh(st, h, ops, [])
    ensures var r := IsDisjoint(h, st, ops);
      r.h == h && r.st == st
      && (!Accepted(ops) ==> r.value == Err(RedisTypeError))
      && (Accepted(ops) && r.value.Ok? ==> (r.value.value <==> InterSets(AllSets(st, h, ops)) == {}))
      && (Accepted(ops) && InterSets(AllSets(st, h, ops)) == {} ==> r.value == Ok(true))
    ensures x in InterSets(AllSets(st, h, ops))
        <==> x in Members(st, h.key) && forall i :: 0 <= i < |ops| ==> x in OperandTexts(st, ops[i])
  {
    ReadOpCorrect(h, st, ops, InterOp);
    InterOfAll(st, h, ops, x);
    if Accepted(ops) {
      var raw := InterSets(AllSets(st, h, ops));
      var dec := DecodeAll(h.typ, raw);
      if dec.Ok? && raw != {} {
        var y :| y in raw;
        assert Decode(h.typ, y).value in dec.value;
      }
    }
  }

  /** Tagging texts as `str` values keeps their number. */
  lemma {:induction false} TextCount(raw: set<string>)
    ensures |set x | x in raw :: StrV(x)| == |raw|
    decreases |raw|
  {
    if raw != {} {
      var y :| y in raw;
      var rest := raw - {y};
      TextCount(rest);
      assert (set x | x in raw :: StrV(x)) == (set x | x in rest :: StrV(x)) + {StrV(y)};
      assert StrV(y) !in (set x | x in rest :: StrV(x));
    }
  }

  /** A finite set has as many elements as a superset of it only when the
      two are equal. */
  lemma SubsetSameSize(a: set<string>, b: set<string>)
    requires a <= b
    ensures |a| == |b| <==> a == b
  {
    if a != b {
      var y :| y in b && y !in a;
      SubsetNoLarger(a, b - {y});
      assert |b - {y}| == |b| - 1;
    }
  }

  lemma {:induction false} SubsetNoLarger(a: set<string>, b: set<string>)
    requires a <= b
    ensures |a| <= |b|
    decreases |a|
  {
    if a != {} {
      var y :| y in a;
      SubsetNoLarger(a - {y}, b - {y});
    }
  }

  /** `issuperset` on a `str` proxy: true exactly when every text the
      operand stands for is a member of the primary; nothing is changed. */
  lemma IsSupersetCorrect(h: Handle, st: Store, other: Operand<Value>)
    requires h.typ == StrType && Idle(h) && Fresh(st, h, [other], [])
    ensures var r := IsSuperset(h, st, other);
      r.h == h && r.st == st
      && r.value == if other.Other? then Err(RedisTypeError)
                    else Ok(OperandTexts(st, other) <= Members(st, h.key))
  {
    ReadOpCorrect(h, st, [other], UnionOp);
    if !other.Other? {
      var m := Members(st, h.key);
      var u := UnionSets(AllSets(st, h, [other]));
      assert u == m + OperandTexts(st, other) by {
        UnionWithOne(st, h, other);
      }
      DecodedCount(u);
      SubsetSameSize(m, u);
    }
  }

  /** The union with one operand is the primary's members and its texts. */
  lemma UnionWithOne(st: Store, h: Handle, other: Operand<Value>)
    ensures UnionSets(AllSets(st, h, [other])) == Members(st, h.key) + OperandTexts(st, other)
  {
    var u := UnionSets(AllSets(st, h, [other]));
    forall x ensures x in u <==> x in Members(st, h.key) + OperandTexts(st, other) {
      UnionOfAll(st, h, [other], x);
    }
  }

  /** Reading texts back through `str` keeps their number. */
  lemma DecodedCount(u: set<string>)
    ensures DecodeAll(StrType, u).Ok? && |DecodeAll(StrType, u).value| == |u|
  {
    var d := DecodeAll(StrType, u).value;
    assert d == set x | x in u :: StrV(x) by {
      forall w ensures w in d <==> w in (set x | x in u :: StrV(x)) {
        if w in d {
          var x :| x in u && Decode(StrType, x) == Ok(w);
        }
      }
    }
    TextCount(u);
  }
}
