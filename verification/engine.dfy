/** The shared machinery of the `Set` and `ZSet` proxies (`SetOperatorMixin`
    in redis_natives/datatypes.py): turning operands into store keys,
    registering and deleting temporary keys, and reading one reply out of an
    executed pipeline.

    A proxy's pipeline and its list of temporary keys live on the object and
    survive between calls; `Handle` carries both explicitly.
 */
module Engine {
  import opened Wrappers
  import opened Text
  import opened Codec
  import opened Store
  import opened TempKeys

  /** A proxy object: its key, declared element type, the commands queued on
      its pipeline and the temporary keys registered for deletion. */
  datatype Handle = Handle(key: string, typ: ElemType, pipe: seq<Cmd>, tmpKeys: seq<string>)

  /** Nothing queued and nothing registered: the state between two calls. */
  predicate Idle(h: Handle) {
    h.pipe == [] && h.tmpKeys == []
  }

  /** An argument of a set operation: a Python `set` (given in its iteration
      order), a Python `list`, another proxy of the same class (by its key),
      or anything else. */
  datatype Operand<T> = Local(elems: seq<T>) | LocalList(items: seq<T>) | Remote(key: string) | Other

  /** `set(xs)` for a list, keeping the first occurrence of each element. */
  function Dedup<T(==,!new)>(xs: seq<T>): (r: seq<T>)
    ensures forall x :: x in r <==> x in xs
    ensures forall i, j :: 0 <= i < j < |r| ==> r[i] != r[j]
    decreases |xs|
  {
    if |xs| == 0 then []
    else
      var r := Dedup(xs[..|xs| - 1]);
      if xs[|xs| - 1] in r then r else r + [xs[|xs| - 1]]
  }

  /** The elements a local operand contributes. */
  function Elements<T(==,!new)>(o: Operand<T>): seq<T>
    requires o.Local? || o.LocalList?
  {
    if o.Local? then o.elems else Dedup(o.items)
  }

  /** The key an accepted operand at position `i` is read from. */
  function OperandKey<T>(o: Operand<T>, i: nat): string {
    if o.Remote? then o.key else OperandTempKey(i)
  }

  predicate Accepted<T>(ops: seq<Operand<T>>) {
    forall i :: 0 <= i < |ops| ==> !ops[i].Other?
  }

  /** The temporary names of the local operands among `ops[..n]`, in order. */
  function TempNames<T>(ops: seq<Operand<T>>, n: nat): seq<string>
    requires n <= |ops|
  {
    if n == 0 then []
    else TempNames(ops, n - 1) + (if ops[n - 1].Local? || ops[n - 1].LocalList? then [OperandTempKey(n - 1)] else [])
  }

  /** The keys of the remote operands. */
  function RemoteKeys<T>(ops: seq<Operand<T>>): (r: seq<string>)
    ensures forall i :: 0 <= i < |ops| && ops[i].Remote? ==> ops[i].key in r
  {
    if |ops| == 0 then []
    else (if ops[0].Remote? then [ops[0].key] else []) + RemoteKeys(ops[1..])
  }

  /** `t` names no key of the store, is not the primary's key and is not the
      key of any remote operand. */
  predicate Unused<T>(st: Store, h: Handle, ops: seq<Operand<T>>, t: string) {
    t !in st && t != h.key && t !in RemoteKeys(ops)
  }

  /** The temporary names a call uses, the operand names followed by the
      `extra` ones an operation adds, are unused and pairwise distinct. */
  predicate Fresh<T>(st: Store, h: Handle, ops: seq<Operand<T>>, extra: seq<string>) {
    var names := TempNames(ops, |ops|) + extra;
    (forall i :: 0 <= i < |names| ==> Unused(st, h, ops, names[i]))
    && (forall i, j :: 0 <= i < j < |names| ==> names[i] != names[j])
  }

  /** No operand name at position `m` or later is among those of `ops[..n]`
      when `n <= m`. */
  lemma {:induction false} TempNamesBelow<T>(ops: seq<Operand<T>>, n: nat, m: nat)
    requires n <= m && n <= |ops|
    ensures OperandTempKey(m) !in TempNames(ops, n)
    decreases n
  {
    if n > 0 {
      TempNamesBelow(ops, n - 1, m);
      OperandTempKeyInjective(n - 1, m);
    }
  }

  /** The names of a shorter prefix are a prefix of the names of a longer one. */
  lemma {:induction false} TempNamesPrefix<T>(ops: seq<Operand<T>>, n: nat, m: nat)
    requires n <= m <= |ops|
    ensures TempNames(ops, n) <= TempNames(ops, m)
    decreases m
  {
    if n < m {
      TempNamesPrefix(ops, n, m - 1);
    }
  }

  /** A name used by a call is unused in the store it starts from. */
  lemma FreshName<T>(st: Store, h: Handle, ops: seq<Operand<T>>, extra: seq<string>, n: nat, t: string)
    requires Fresh(st, h, ops, extra) && n <= |ops|
    requires t in TempNames(ops, n) || t in extra
    ensures Unused(st, h, ops, t)
  {
    TempNamesPrefix(ops, n, |ops|);
    var names := TempNames(ops, |ops|) + extra;
    if t in TempNames(ops, n) {
      var i :| 0 <= i < |TempNames(ops, n)| && TempNames(ops, n)[i] == t;
      assert names[i] == t;
    } else {
      var i :| 0 <= i < |extra| && extra[i] == t;
      assert names[|TempNames(ops, |ops|)| + i] == t;
    }
  }

  /** A key that is in use, the primary's or a remote operand's, is none of
      the names a call uses. */
  lemma NotTemp<T>(st: Store, h: Handle, ops: seq<Operand<T>>, extra: seq<string>, n: nat, k: string)
    requires Fresh(st, h, ops, extra) && n <= |ops|
    requires k in st || k == h.key || k in RemoteKeys(ops)
    ensures k !in TempNames(ops, n) && k !in extra
  {
    TempNamesPrefix(ops, n, |ops|);
    var names := TempNames(ops, |ops|) + extra;
    forall i | 0 <= i < |TempNames(ops, n)| ensures TempNames(ops, n)[i] != k {
      assert TempNames(ops, n)[i] == names[i];
    }
    forall i | 0 <= i < |extra| ensures extra[i] != k {
      assert extra[i] == names[|TempNames(ops, |ops|)| + i];
    }
  }

  /** The name a local operand is filled under is free: not in the store,
      not registered before, and no earlier operand's key. */
  lemma LocalNameFree<T>(st: Store, h: Handle, ops: seq<Operand<T>>, extra: seq<string>, n: nat)
    requires 0 < n <= |ops| && (ops[n - 1].Local? || ops[n - 1].LocalList?) && Fresh(st, h, ops, extra)
    ensures OperandTempKey(n - 1) !in st && OperandTempKey(n - 1) !in TempNames(ops, n - 1)
    ensures forall j :: 0 <= j < n - 1 ==> OperandKey(ops[j], j) != OperandTempKey(n - 1)
  {
    TempNamesBelow(ops, n - 1, n - 1);
    assert TempNames(ops, n) == TempNames(ops, n - 1) + [OperandTempKey(n - 1)];
    FreshName(st, h, ops, extra, n, OperandTempKey(n - 1));
    forall j | 0 <= j < n - 1 ensures OperandKey(ops[j], j) != OperandTempKey(n - 1) {
      EarlierKeyDiffers(st, h, ops, extra, n, j);
    }
  }

  /** The key of an earlier operand is not the name a later local operand
      is filled under. */
  lemma EarlierKeyDiffers<T>(st: Store, h: Handle, ops: seq<Operand<T>>, extra: seq<string>, n: nat, j: nat)
    requires 0 <= j < n - 1 && n <= |ops| && (ops[n - 1].Local? || ops[n - 1].LocalList?) && Fresh(st, h, ops, extra)
    ensures OperandKey(ops[j], j) != OperandTempKey(n - 1)
  {
    if ops[j].Remote? {
      assert TempNames(ops, n) == TempNames(ops, n - 1) + [OperandTempKey(n - 1)];
      NotTemp(st, h, ops, extra, n, ops[j].key);
    } else {
      OperandTempKeyInjective(j, n - 1);
    }
  }

  /** The operand at position `j`, when local, contributes its name. */
  lemma {:induction false} TempNamesHas<T>(ops: seq<Operand<T>>, n: nat, j: nat)
    requires j < n <= |ops| && (ops[j].Local? || ops[j].LocalList?)
    ensures OperandTempKey(j) in TempNames(ops, n)
    decreases n
  {
    if j < n - 1 {
      TempNamesHas(ops, n - 1, j);
    }
  }

  /** An accepted operand's key is none of the extra names of a call. */
  lemma OperandKeyNotExtra<T>(st: Store, h: Handle, ops: seq<Operand<T>>, extra: seq<string>, j: nat, t: string)
    requires j < |ops| && !ops[j].Other? && Fresh(st, h, ops, extra) && t in extra
    ensures OperandKey(ops[j], j) != t
  {
    if ops[j].Remote? {
      NotTemp(st, h, ops, extra, |ops|, ops[j].key);
    } else {
      var ts := TempNames(ops, |ops|);
      var names := ts + extra;
      TempNamesHas(ops, |ops|, j);
      var a :| 0 <= a < |ts| && ts[a] == OperandTempKey(j);
      var b :| 0 <= b < |extra| && extra[b] == t;
      assert names[a] == OperandTempKey(j) && names[|ts| + b] == t;
    }
  }

  /** What `parse_args` has produced after the first `n` operands: one key
      per operand, the temporary names in order, and for each local operand
      the name it is to be filled under with the elements it holds. The
      commands that fill a name depend on the proxy's class and are queued
      by the proxy. */
  datatype Parsed<T> = Parsed(keys: seq<string>, temps: seq<string>, pending: seq<(string, seq<T>)>)

  function Prefix<T(==,!new)>(ops: seq<Operand<T>>, n: nat): (p: Parsed<T>)
    requires n <= |ops| && forall j :: 0 <= j < n ==> !ops[j].Other?
    ensures |p.keys| == n
    decreases n
  {
    if n == 0 then Parsed([], [], [])
    else
      var p := Prefix(ops, n - 1);
      var o := ops[n - 1];
      if o.Remote? then Parsed(p.keys + [o.key], p.temps, p.pending)
      else
        var t := OperandTempKey(n - 1);
        Parsed(p.keys + [t], p.temps + [t], p.pending + [(t, Elements(o))])
  }

  /** The prefix's keys are the operands' keys, and its names the local
      operands' temporary names, in order. */
  lemma {:induction false} PrefixKeys<T(!new)>(ops: seq<Operand<T>>, n: nat)
    requires n <= |ops| && forall j :: 0 <= j < n ==> !ops[j].Other?
    ensures forall j :: 0 <= j < n ==> Prefix(ops, n).keys[j] == OperandKey(ops[j], j)
    ensures Prefix(ops, n).temps == TempNames(ops, n)
    decreases n
  {
    if n > 0 {
      PrefixKeys(ops, n - 1);
      var p := Prefix(ops, n - 1);
      var r := Prefix(ops, n);
      assert r.keys == p.keys + [OperandKey(ops[n - 1], n - 1)];
      forall j | 0 <= j < n ensures r.keys[j] == OperandKey(ops[j], j) {
        if j < n - 1 {
          assert r.keys[j] == p.keys[j];
        }
      }
    }
  }

  /** The position of the first rejected operand, if any. */
  function FirstOther<T>(ops: seq<Operand<T>>): (r: Option<nat>)
    ensures r.None? <==> Accepted(ops)
    ensures r.Some? ==> r.value < |ops| && ops[r.value].Other? && forall j :: 0 <= j < r.value ==> !ops[j].Other?
  {
    if |ops| == 0 then None
    else if ops[0].Other? then Some(0)
    else
      match FirstOther(ops[1..])
      case None => None
      case Some(j) => Some(j + 1)
  }

  datatype Queued<T> = Queued(h: Handle, keys: seq<string>, pending: seq<(string, seq<T>)>)

  /** `parse_args` as the operations use it: the primary's key, then one key
      per operand; local operands are registered under their temporary
      names and handed back to be filled. A rejected operand raises
      `RedisTypeError` and registers nothing. */
  function ParseArgs<T(==,!new)>(h: Handle, ops: seq<Operand<T>>): (r: Result<Queued<T>>)
    ensures r.Ok? <==> Accepted(ops)
    ensures r.Err? ==> r.error == RedisTypeError
    ensures r.Ok? ==> |r.value.keys| == |ops| + 1 && r.value.keys[0] == h.key
    ensures r.Ok? ==> forall i :: 0 <= i < |ops| ==> r.value.keys[i + 1] == OperandKey(ops[i], i)
    ensures r.Ok? ==> r.value.h == h.(tmpKeys := h.tmpKeys + TempNames(ops, |ops|))
    ensures r.Ok? ==> r.value.pending == Prefix(ops, |ops|).pending
  {
    if FirstOther(ops).Some? then Err(RedisTypeError)
    else
      var p := Prefix(ops, |ops|);
      PrefixKeys(ops, |ops|);
      Ok(Queued(h.(tmpKeys := h.tmpKeys + p.temps), [h.key] + p.keys, p.pending))
  }

  /** The keys `parse_args` hands back do not depend on the names already
      registered. */
  lemma ParseArgsKeys<T(!new)>(h1: Handle, h2: Handle, ops: seq<Operand<T>>)
    requires Accepted(ops) && h1.key == h2.key
    ensures ParseArgs(h1, ops).value.keys == ParseArgs(h2, ops).value.keys
  {
  }

  /** None of the keys `parse_args` hands back is an extra name of the call. */
  lemma KeysApart<T(!new)>(st: Store, h: Handle, ops: seq<Operand<T>>, extra: seq<string>)
    requires Accepted(ops) && Fresh(st, h, ops, extra)
    ensures var keys := ParseArgs(h, ops).value.keys;
      forall j, t :: 0 <= j < |keys| && t in extra ==> keys[j] != t
  {
    var keys := ParseArgs(h, ops).value.keys;
    forall j, t | 0 <= j < |keys| && t in extra ensures keys[j] != t {
      if j == 0 {
        NotTemp(st, h, ops, extra, |ops|, h.key);
      } else {
        OperandKeyNotExtra(st, h, ops, extra, j - 1, t);
      }
    }
  }

  datatype Attempt<T> = Attempt(h: Handle, keys: Result<seq<string>>, pending: seq<(string, seq<T>)>)

  /** `parse_args` as written: the operands before a rejected one have
      already been registered as temporaries, and their fills queued on the
      shared pipeline, when `RedisTypeError` is raised; both stay there. */
  function ParseArgsAsWritten<T(==,!new)>(h: Handle, ops: seq<Operand<T>>): (r: Attempt<T>)
    ensures r.keys.Err? <==> !Accepted(ops)
    ensures Accepted(ops) ==> ParseArgs(h, ops) == Ok(Queued(r.h, r.keys.value, r.pending))
    ensures !Accepted(ops) ==>
      var j := FirstOther(ops).value;
      r.h == h.(tmpKeys := h.tmpKeys + TempNames(ops, j)) && r.pending == Prefix(ops, j).pending
  {
    match FirstOther(ops)
    case Some(j) =>
      var p := Prefix(ops, j);
      PrefixKeys(ops, j);
      Attempt(h.(tmpKeys := h.tmpKeys + p.temps), Err(RedisTypeError), p.pending)
    case None =>
      var p := Prefix(ops, |ops|);
      Attempt(h.(tmpKeys := h.tmpKeys + p.temps), Ok([h.key] + p.keys), p.pending)
  }

  datatype Cleared = Cleared(h: Handle, count: nat)

  /** `_delete_temporary`: one delete per registered name, in order; the
      list of names is emptied and its length returned. */
  function DeleteTemporary(h: Handle): (r: Cleared)
    ensures r.count == |h.tmpKeys|
    ensures r.h.tmpKeys == [] && r.h.key == h.key && r.h.typ == h.typ
    ensures |r.h.pipe| == |h.pipe| + r.count && r.h.pipe[..|h.pipe|] == h.pipe
    ensures forall j :: 0 <= j < r.count ==> r.h.pipe[|h.pipe| + j] == Del(h.tmpKeys[j])
    ensures r.h.pipe == h.pipe + Dels(h.tmpKeys)
  {
    var p := h.pipe + Dels(h.tmpKeys);
    assert p[..|h.pipe|] == h.pipe;
    Cleared(h.(pipe := p, tmpKeys := []), |h.tmpKeys|)
  }

  /** What a proxy call leaves behind: the handle, the store, and the value
      returned or the exception raised. */
  datatype Outcome<+T> = Outcome(h: Handle, st: Store, value: Result<T>)

  /** Executes the pipeline and picks the reply `i` places before the last
      one (`execute()[-i - 1]`); Python raises `IndexError` when there is
      no such reply. */
  function GetPipeValue(h: Handle, st: Store, i: nat): (r: Outcome<Reply>)
    ensures r.h == h.(pipe := []) && r.st == Exec(st, h.pipe).store
    ensures r.value.Ok? <==> i < |h.pipe|
    ensures r.value.Err? ==> r.value.error == IndexError
  {
    var ran := Exec(st, h.pipe);
    var reply := if i < |ran.replies| then Ok(ran.replies[|ran.replies| - 1 - i]) else Err(IndexError);
    Outcome(h.(pipe := []), ran.store, reply)
  }

  /** `execute()` whose replies are not looked at; the operation returns
      `None`. */
  function Flush(h: Handle, st: Store): Outcome<()> {
    Outcome(h.(pipe := []), Exec(st, h.pipe).store, Ok(()))
  }

  /** Three batches back to back are their concatenation. */
  lemma ExecThree(st: Store, a: seq<Cmd>, b: seq<Cmd>, c: seq<Cmd>)
    ensures Exec(st, a + b + c).store == Exec(Exec(Exec(st, a).store, b).store, c).store
    ensures Exec(st, a + b + c).replies
         == Exec(st, a).replies + Exec(Exec(st, a).store, b).replies + Exec(Exec(Exec(st, a).store, b).store, c).replies
  {
    ExecAppend(st, a + b, c);
    ExecAppend(st, a, b);
  }

  /** When the last `|ks|` queued commands are deletes, `get_pipe_value`
      with their count returns the reply of the command just before them. */
  lemma {:induction false} GetPipeValueSkipsDeletes(h: Handle, st: Store, c: Cmd, ks: seq<string>)
    ensures GetPipeValue(h.(pipe := h.pipe + [c] + Dels(ks)), st, |ks|).value
         == Ok(Step(Exec(st, h.pipe).store, c).reply)
  {
    ExecThree(st, h.pipe, [c], Dels(ks));
    var s1 := Exec(st, h.pipe).store;
    assert Exec(s1, [c]).replies == [Step(s1, c).reply];
  }

  /** A batch of one: the command's effect and its reply. */
  lemma ExecOne(st: Store, c: Cmd)
    ensures Exec(st, [c]) == Ran(Step(st, c).store, [Step(st, c).reply])
  {
  }

  /** A batch of two runs the second command on the first one's store. */
  lemma ExecTwo(st: Store, c1: Cmd, c2: Cmd)
    ensures Exec(st, [c1, c2]).store == Step(Step(st, c1).store, c2).store
  {
    ExecOne(st, c1);
    ExecOne(Step(st, c1).store, c2);
    ExecAppend(st, [c1], [c2]);
    assert [c1] + [c2] == [c1, c2];
  }

  /** The batch every multi-key operation runs from an idle handle: the
      fills, one command `c`, the deletes of the temporaries. Reading the
      reply past the deletes yields `c`'s reply; the store ends as `c` left
      it with the temporaries deleted; the handle is idle again. */
  lemma Batch(h: Handle, st: Store, fills: seq<Cmd>, temps: seq<string>, c: Cmd)
    requires Idle(h)
    ensures var cl := DeleteTemporary(h.(pipe := fills + [c], tmpKeys := temps));
      var ex := GetPipeValue(cl.h, st, cl.count);
      var d := Step(Exec(st, fills).store, c);
      ex == Outcome(h, Exec(d.store, Dels(temps)).store, Ok(d.reply))
      && Flush(cl.h, st) == Outcome(h, Exec(d.store, Dels(temps)).store, Ok(()))
  {
    var hd := h.(pipe := fills);
    GetPipeValueSkipsDeletes(hd, st, c, temps);
    ExecThree(st, fills, [c], Dels(temps));
    ExecOne(Exec(st, fills).store, c);
  }

  /** The comparison operators of `Comparable`: a proxy compares by its
      length with the length of the other operand. */
  datatype Comparison = Lt | Le | Gt | Ge

  function Compare(op: Comparison, mine: nat, theirs: nat): bool {
    match op
    case Lt => mine < theirs
    case Le => mine <= theirs
    case Gt => mine > theirs
    case Ge => mine >= theirs
  }
}
