/** The `List` proxy (redis_natives/list.py): a Python sequence over one
    store list. Every operation is one client call, or a short series of
    them, straight to the store; the handle is only read.

    Values go in through `type_prepare` and the client's `str()` (the
    codec's `Encode`) and come back through `type_convert` (`Decode`).
 */
module ListProxy {
  import opened Wrappers
  import opened Codec
  import opened Store
  import opened Engine
  import opened Slices

  /** The position LINDEX and LSET address for index `i` of a list of
      length `n`: a negative index counts from the end. */
  function Position(n: nat, i: int): int {
    if i < 0 then i + n else i
  }

  /** The key holds a (non-empty) list or nothing at all. */
  predicate HoldsList(st: Store, k: string) {
    k in st ==> st[k].ListE? && st[k].items != []
  }

  // ----------------------------------------------------------------- reads

  /** `len(l)`: LLEN. */
  function Len(h: Handle, st: Store): (r: nat)
    ensures r == |Items(st, h.key)|
  {
    Step(st, LLen(h.key)).reply.n
  }

  /** `el in l`: the prepared value's text looked up in the whole list, as
      read by LRANGE 0 -1. */
  function Contains(h: Handle, st: Store, v: Value): (r: Result<bool>)
    ensures r.Err? <==> Encode(h.typ, v).Err?
    ensures r.Ok? ==> (r.value <==> Encode(h.typ, v).value in Items(st, h.key))
  {
    match Encode(h.typ, v)
    case Err(e) => Err(e)
    case Ok(t) =>
      var xs := Items(st, h.key);
      WholeRange(|xs|);
      assert xs[0..|xs|] == xs;
      Ok(t in Step(st, LRange(h.key, 0, -1)).reply.items)
  }

  /** `l[i]`: LINDEX through the declared type. Outside the list the store
      answers nil, which `type_convert` turns into "None" for a `str`
      handle and into `TypeError` for the others. */
  function GetIndex(h: Handle, st: Store, i: int): (r: Result<Value>)
    ensures var xs := Items(st, h.key);
      0 <= Position(|xs|, i) < |xs| ==> r == Decode(h.typ, xs[Position(|xs|, i)])
    ensures var xs := Items(st, h.key);
      !(0 <= Position(|xs|, i) < |xs|) ==> r == DecodeNil(h.typ)
  {
    DecodeReply(h.typ, TextOf(Step(st, LIndex(h.key, i)).reply))
  }

  /** `l[start:stop]` as the proxy sends it: LRANGE of the inclusive
      translation, every element through the declared type. */
  function GetSliceAsWritten(h: Handle, st: Store, start: Option<int>, stop: Option<int>): (r: Result<seq<Value>>)
    ensures var b := ReadBoundsAsWritten(|Items(st, h.key)|, start, stop);
      r == DecodeList(h.typ, Items(st, h.key)[b.0..b.1])
  {
    var (a, b) := InclusiveRange(start, stop);
    DecodeList(h.typ, Step(st, LRange(h.key, a, b)).reply.items)
  }

  /** `l[start:stop]` with a stop of 0 read as the empty slice it is:
      exactly Python's slice of the stored list, decoded. */
  function GetSlice(h: Handle, st: Store, start: Option<int>, stop: Option<int>): (r: Result<seq<Value>>)
    ensures var b := PySlice(|Items(st, h.key)|, start, stop);
      r == DecodeList(h.typ, Items(st, h.key)[b.0..b.1])
  {
    ReadBoundsIsPySlice(|Items(st, h.key)|, start, stop);
    if stop == Some(0) then Ok([]) else GetSliceAsWritten(h, st, start, stop)
  }

  /** `l[s:0]` for an index `s` inside the list: Python's slice is empty,
      the proxy reads every element from `s` on. */
  lemma StopZeroReadsTail(h: Handle, st: Store, s: int)
    requires 0 <= s < |Items(st, h.key)|
    ensures GetSlice(h, st, Some(s), Some(0)) == Ok([])
    ensures GetSliceAsWritten(h, st, Some(s), Some(0)) == DecodeList(h.typ, Items(st, h.key)[s..])
    ensures GetSliceAsWritten(h, st, Some(s), Some(0)).Ok? ==>
      |GetSliceAsWritten(h, st, Some(s), Some(0)).value| == |Items(st, h.key)| - s > 0
  {
    var xs := Items(st, h.key);
    StopZeroReadsRest(|xs|, s);
    assert xs[s..|xs|] == xs[s..];
  }

  // ---------------------------------------------------------------- writes

  /** `l[i] = v`: LSET of the prepared value; an index outside the list
      makes the store answer an error, which the client raises as
      `ResponseError`. */
  function SetIndex(h: Handle, st: Store, i: int, v: Value): (r: Outcome<()>)
    ensures r.h == h
    ensures Encode(h.typ, v).Err? ==> r == Outcome(h, st, Err(Encode(h.typ, v).error))
    ensures Encode(h.typ, v).Ok? ==>
      var xs := Items(st, h.key);
      var j := Position(|xs|, i);
      (r.value.Ok? <==> 0 <= j < |xs|)
      && (r.value.Err? ==> r.value.error == ResponseError && r.st == st)
      && (r.value.Ok? ==> Items(r.st, h.key) == xs[j := Encode(h.typ, v).value] && AgreeOff(r.st, st, [h.key]))
  {
    match Encode(h.typ, v)
    case Err(e) => Outcome(h, st, Err(e))
    case Ok(t) =>
      var d := Step(st, LSet(h.key, i, t));
      if d.reply.Failed? then Outcome(h, d.store, Err(ResponseError))
      else
        PutListAgrees(st, h.key, Items(st, h.key)[Position(|Items(st, h.key)|, i) := t]);
        Outcome(h, d.store, Ok(()))
  }

  /** The positions of a list of length `n` that writes to the indices
      `s` through `e` (inclusive, negative ones counted from the end) hit. */
  predicate Hit(n: nat, s: int, e: int, j: int) {
    (s <= j <= e) || (s <= j - n <= e)
  }

  /** `xs` with every position hit by writes to `s..e` holding `t`. */
  function Written(xs: seq<string>, t: string, s: int, e: int): (r: seq<string>)
    ensures |r| == |xs|
    ensures forall j :: 0 <= j < |xs| ==> r[j] == if Hit(|xs|, s, e, j) then t else xs[j]
  {
    seq(|xs|, j requires 0 <= j < |xs| => if Hit(|xs|, s, e, j) then t else xs[j])
  }

  /** `l[start:stop] = v`: the prepared value written by LSET at every index
      from `start` (0 when open) through `stop` INCLUSIVE (the last index,
      read by LLEN, when open), one call each, in order. The first index
      outside the list raises `ResponseError` and the writes before it
      stay. */
  method SetSlice(h: Handle, st: Store, start: Option<int>, stop: Option<int>, v: Value) returns (r: Outcome<()>)
    ensures r.h == h
    ensures Encode(h.typ, v).Err? ==> r == Outcome(h, st, Err(Encode(h.typ, v).error))
    ensures Encode(h.typ, v).Ok? ==>
      var xs := Items(st, h.key);
      var n := |xs|;
      var t := Encode(h.typ, v).value;
      var s := if start.None? then 0 else start.value;
      var e := if stop.None? then n - 1 else stop.value;
      AgreeOff(r.st, st, [h.key])
      && (r.value.Ok? <==> e < s || (-n <= s && e < n))
      && (r.value.Ok? ==> Items(r.st, h.key) == Written(xs, t, s, e))
      && (r.value.Err? ==>
            r.value.error == ResponseError
            && Items(r.st, h.key) == Written(xs, t, s, (if -n <= s < n then n else s) - 1))
  {
    var enc := Encode(h.typ, v);
    if enc.Err? {
      return Outcome(h, st, Err(enc.error));
    }
    var t := enc.value;
    var e := if stop.None? then Step(st, LLen(h.key)).reply.n - 1 else stop.value;
    var s := if start.None? then 0 else start.value;
    ghost var xs := Items(st, h.key);
    ghost var n := |xs|;
    AgreeOffIntro(st, st, [h.key]);
    var cur := st;
    var i := s;
    while i <= e
      invariant s <= i && (i <= e + 1 || i == s)
      invariant i == s || (-n <= s && i <= n)
      invariant Items(cur, h.key) == Written(xs, t, s, i - 1)
      invariant AgreeOff(cur, st, [h.key])
      decreases e - i
    {
      var d := Step(cur, LSet(h.key, i, t));
      WriteStep(cur, st, h.key, xs, t, s, i);
      if d.reply.Failed? {
        assert i == if -n <= s < n then n else s;
        return Outcome(h, d.store, Err(ResponseError));
      }
      cur := d.store;
      i := i + 1;
    }
    NothingWritten(xs, t, s, i - 1, e);
    return Outcome(h, cur, Ok(()));
  }

  /** One LSET of the slice assignment: inside the list it writes one more
      position and touches no other key; outside it fails and writes
      nothing. */
  lemma WriteStep(cur: Store, st: Store, k: string, xs: seq<string>, t: string, s: int, i: int)
    requires s <= i && Items(cur, k) == Written(xs, t, s, i - 1) && AgreeOff(cur, st, [k])
    ensures var d := Step(cur, LSet(k, i, t));
      (d.reply.Failed? <==> !(-|xs| <= i < |xs|))
      && (d.reply.Failed? ==> d.store == cur)
      && (!d.reply.Failed? ==> Items(d.store, k) == Written(xs, t, s, i) && AgreeOff(d.store, st, [k]))
  {
    var d := Step(cur, LSet(k, i, t));
    if -|xs| <= i < |xs| {
      var ys := Items(cur, k);
      var j := Position(|xs|, i);
      assert ys[j := t] == Written(xs, t, s, i);
      PutListAgrees(cur, k, ys[j := t]);
      AgreeOffTrans(d.store, cur, st, [k], [k]);
      AgreeOffWiden(d.store, st, [k] + [k], [k]);
    }
  }

  /** Writes to an empty range change nothing, whichever empty range. */
  lemma NothingWritten(xs: seq<string>, t: string, s: int, e1: int, e2: int)
    requires e1 == e2 || (e1 < s && e2 < s)
    ensures Written(xs, t, s, e1) == Written(xs, t, s, e2)
  {
  }

  /** `append(el)`: RPUSH of the prepared value. */
  function Append(h: Handle, st: Store, v: Value): (r: Outcome<()>)
    ensures r.h == h
    ensures Encode(h.typ, v).Err? ==> r == Outcome(h, st, Err(Encode(h.typ, v).error))
    ensures Encode(h.typ, v).Ok? ==>
      r.value == Ok(())
      && Items(r.st, h.key) == Items(st, h.key) + [Encode(h.typ, v).value]
      && AgreeOff(r.st, st, [h.key])
  {
    match Encode(h.typ, v)
    case Err(e) => Outcome(h, st, Err(e))
    case Ok(t) =>
      PutListAgrees(st, h.key, Items(st, h.key) + [t]);
      Outcome(h, Step(st, RPush(h.key, t)).store, Ok(()))
  }

  /** `insert(idx, el)`: an index past the length (read by LLEN) raises
      `IndexError` before anything is prepared; index 0 is an LPUSH; any
      other index OVERWRITES that position by LSET, as `l[idx] = el`
      would, so nothing shifts and an index equal to the length fails in
      the store. */
  function Insert(h: Handle, st: Store, idx: int, v: Value): (r: Outcome<()>)
    ensures r.h == h
    ensures |Items(st, h.key)| < idx ==> r == Outcome(h, st, Err(IndexError))
    ensures idx <= |Items(st, h.key)| && Encode(h.typ, v).Err? ==>
      r == Outcome(h, st, Err(Encode(h.typ, v).error))
    ensures idx == 0 && Encode(h.typ, v).Ok? ==>
      r.value == Ok(())
      && Items(r.st, h.key) == [Encode(h.typ, v).value] + Items(st, h.key)
      && AgreeOff(r.st, st, [h.key])
    ensures idx != 0 && idx <= |Items(st, h.key)| ==> r == SetIndex(h, st, idx, v)
  {
    var count := Step(st, LLen(h.key)).reply.n;
    if count < idx then Outcome(h, st, Err(IndexError))
    else if idx == 0 then
      match Encode(h.typ, v)
      case Err(e) => Outcome(h, st, Err(e))
      case Ok(t) =>
        PutListAgrees(st, h.key, [t] + Items(st, h.key));
        Outcome(h, Step(st, LPush(h.key, t)).store, Ok(()))
    else SetIndex(h, st, idx, v)
  }

  /** Popping either end changes no other key. */
  lemma PopAgrees(st: Store, k: string)
    ensures AgreeOff(Step(st, RPop(k)).store, st, [k])
    ensures AgreeOff(Step(st, LPop(k)).store, st, [k])
    ensures AgreeOff(st, st, [k])
  {
    var xs := Items(st, k);
    AgreeOffIntro(st, st, [k]);
    if |xs| > 0 {
      PutListAgrees(st, k, xs[..|xs| - 1]);
      PutListAgrees(st, k, xs[1..]);
    }
  }

  /** The argument of `pop`: none, an `int`, or anything else. */
  datatype PopArg = NoArg | IntArg(i: int) | OtherArg

  /** `pop(idx)`: no index is an RPOP, index 0 an LPOP, both read back
      through the declared type (an empty list answers nil, which
      `type_convert` handles as for `l[i]`). Any other `int` goes to
      `__delitem__`, which takes no index and so raises `TypeError`, as
      does a non-`int` argument. */
  function Pop(h: Handle, st: Store, arg: PopArg): (r: Outcome<Value>)
    ensures r.h == h
    ensures AgreeOff(r.st, st, [h.key])
    ensures arg == NoArg ==>
      var xs := Items(st, h.key);
      if |xs| == 0 then r.st == st && r.value == DecodeNil(h.typ)
      else Items(r.st, h.key) == xs[..|xs| - 1] && r.value == Decode(h.typ, xs[|xs| - 1])
    ensures arg == IntArg(0) ==>
      var xs := Items(st, h.key);
      if |xs| == 0 then r.st == st && r.value == DecodeNil(h.typ)
      else Items(r.st, h.key) == xs[1..] && r.value == Decode(h.typ, xs[0])
    ensures arg.OtherArg? || (arg.IntArg? && arg.i != 0) ==> r == Outcome(h, st, Err(TypeError))
  {
    PopAgrees(st, h.key);
    match arg
    case NoArg =>
      var d := Step(st, RPop(h.key));
      Outcome(h, d.store, DecodeReply(h.typ, TextOf(d.reply)))
    case IntArg(i) =>
      if i == 0 then
        var d := Step(st, LPop(h.key));
        Outcome(h, d.store, DecodeReply(h.typ, TextOf(d.reply)))
      else Outcome(h, st, Err(TypeError))
    case OtherArg => Outcome(h, st, Err(TypeError))
  }

  /** The `n` argument of `remove`: an `int` or anything else. */
  datatype CountArg = IntCount(c: int) | NotInt

  /** `remove(val, n=1, all=False)`: LREM of the prepared value, all of its
      occurrences when `all` is set, otherwise `n` of them (from the tail
      when negative, all when 0). A non-`int` `n` without `all` raises
      `RedisTypeError`; an LREM that removed nothing raises
      `RedisValueError`. */
  function Remove(h: Handle, st: Store, v: Value, n: CountArg, all: bool): (r: Outcome<()>)
    ensures r.h == h
    ensures Encode(h.typ, v).Err? ==> r == Outcome(h, st, Err(Encode(h.typ, v).error))
    ensures Encode(h.typ, v).Ok? && !all && n.NotInt? ==> r == Outcome(h, st, Err(RedisTypeError))
    ensures Encode(h.typ, v).Ok? && (all || n.IntCount?) ==>
      var t := Encode(h.typ, v).value;
      var xs := Items(st, h.key);
      Items(r.st, h.key) == RemoveOccurrences(xs, t, if all then 0 else n.c)
      && AgreeOff(r.st, st, [h.key])
      && (r.value.Ok? <==> t in xs)
      && (r.value.Err? ==> r.value.error == RedisValueError)
  {
    match Encode(h.typ, v)
    case Err(e) => Outcome(h, st, Err(e))
    case Ok(t) =>
      if !all && n.NotInt? then Outcome(h, st, Err(RedisTypeError))
      else
        var c := if all then 0 else n.c;
        var xs := Items(st, h.key);
        var d := Step(st, LRem(h.key, t, c));
        RemoveOccurrencesCounts(xs, t, c);
        CountIn(xs, t);
        PutListAgrees(st, h.key, RemoveOccurrences(xs, t, c));
        if d.reply.n == 0 then Outcome(h, d.store, Err(RedisValueError))
        else Outcome(h, d.store, Ok(()))
  }

  // --------------------------------------------------------- list algebra

  /** How many occurrences LREM with `count` removes when there are `k`. */
  function Removed(count: int, k: nat): nat {
    if count == 0 then k
    else if count > 0 then (if count < k then count else k)
    else (if -count < k then -count else k)
  }

  lemma {:induction false} CountAppend(a: seq<string>, b: seq<string>, v: string)
    ensures Count(a + b, v) == Count(a, v) + Count(b, v)
    decreases |a|
  {
    if |a| == 0 {
      assert a + b == b;
    } else {
      assert (a + b)[1..] == a[1..] + b;
      CountAppend(a[1..], b, v);
    }
  }

  lemma {:induction false} CountReverse(xs: seq<string>, v: string)
    ensures Count(Reverse(xs), v) == Count(xs, v)
    decreases |xs|
  {
    if |xs| > 0 {
      CountReverse(xs[1..], v);
      CountAppend(Reverse(xs[1..]), [xs[0]], v);
    }
  }

  /** An element occurs in a list exactly when it is counted there. */
  lemma {:induction false} CountIn(xs: seq<string>, v: string)
    ensures Count(xs, v) > 0 <==> v in xs
    ensures Count(xs, v) <= |xs|
    decreases |xs|
  {
    if |xs| > 0 {
      CountIn(xs[1..], v);
      assert v in xs <==> xs[0] == v || v in xs[1..];
    }
  }

  /** Dropping occurrences of `v` keeps every other element's count. */
  lemma {:induction false} DropFirstOthers(xs: seq<string>, v: string, n: nat, u: string)
    requires u != v
    ensures Count(DropFirst(xs, v, n), u) == Count(xs, u)
    decreases |xs|
  {
    if |xs| > 0 && n > 0 {
      if xs[0] == v {
        DropFirstOthers(xs[1..], v, n - 1, u);
      } else {
        DropFirstOthers(xs[1..], v, n, u);
        assert ([xs[0]] + DropFirst(xs[1..], v, n))[1..] == DropFirst(xs[1..], v, n);
      }
    }
  }

  /** LREM removes `Removed(count, k)` of the `k` occurrences of `v` and no
      other element. */
  lemma RemoveOccurrencesCounts(xs: seq<string>, v: string, count: int)
    ensures |xs| - |RemoveOccurrences(xs, v, count)| == Removed(count, Count(xs, v))
    ensures Count(RemoveOccurrences(xs, v, count), v) == Count(xs, v) - Removed(count, Count(xs, v))
    ensures forall u :: u != v ==> Count(RemoveOccurrences(xs, v, count), u) == Count(xs, u)
  {
    var ys := RemoveOccurrences(xs, v, count);
    if count < 0 {
      assert ys == Reverse(DropFirst(Reverse(xs), v, -count));
      RemoveFromTailCounts(xs, v, -count);
    } else if count > 0 {
      assert ys == DropFirst(xs, v, count);
      RemoveFromHeadCounts(xs, v, count);
    } else {
      assert ys == DropFirst(xs, v, |xs|);
      RemoveFromHeadCounts(xs, v, |xs|);
      CountIn(xs, v);
    }
  }

  /** LREM with a positive count (or 0, as `|xs|`) drops from the head. */
  lemma RemoveFromHeadCounts(xs: seq<string>, v: string, m: nat)
    ensures var ys := DropFirst(xs, v, m);
      |xs| - |ys| == (if m < Count(xs, v) then m else Count(xs, v))
      && forall u :: u != v ==> Count(ys, u) == Count(xs, u)
  {
    forall u | u != v ensures Count(DropFirst(xs, v, m), u) == Count(xs, u) {
      DropFirstOthers(xs, v, m, u);
    }
  }

  /** LREM with a negative count `-m` works on the reversed list. */
  lemma RemoveFromTailCounts(xs: seq<string>, v: string, m: int)
    requires m > 0
    ensures var ys := Reverse(DropFirst(Reverse(xs), v, m));
      |xs| - |ys| == Removed(-m, Count(xs, v))
      && Count(ys, v) == Count(xs, v) - Removed(-m, Count(xs, v))
      && forall u :: u != v ==> Count(ys, u) == Count(xs, u)
  {
    var d := DropFirst(Reverse(xs), v, m);
    CountReverse(xs, v);
    CountReverse(d, v);
    forall u | u != v ensures Count(Reverse(d), u) == Count(xs, u) {
      CountReverse(d, u);
      CountReverse(xs, u);
      DropFirstOthers(Reverse(xs), v, m, u);
    }
  }

  // ------------------------------------------------------------ partners

  /** What `append` stores, `in` finds. */
  lemma AppendThenContains(h: Handle, st: Store, v: Value)
    requires Encode(h.typ, v).Ok?
    ensures Contains(h, Append(h, st, v).st, v) == Ok(true)
  {
  }

  /** `pop()` right after `append(v)` returns `v` and leaves the store as
      it was. */
  lemma AppendThenPop(h: Handle, st: Store, v: Value)
    requires HasType(v, h.typ) && HoldsList(st, h.key)
    ensures Append(h, st, v).value == Ok(())
    ensures Pop(h, Append(h, st, v).st, NoArg) == Outcome(h, st, Ok(v))
  {
    RoundTrip(h.typ, v);
    var xs := Items(st, h.key);
    var a := Append(h, st, v).st;
    var ys := Items(a, h.key);
    assert ys[..|ys| - 1] == xs;
    PopRestores(st, a, h.key, xs);
  }

  /** `pop(0)` right after `insert(0, v)` returns `v` and leaves the store
      as it was. */
  lemma InsertFrontThenPopFront(h: Handle, st: Store, v: Value)
    requires HasType(v, h.typ) && HoldsList(st, h.key)
    ensures Insert(h, st, 0, v).value == Ok(())
    ensures Pop(h, Insert(h, st, 0, v).st, IntArg(0)) == Outcome(h, st, Ok(v))
  {
    RoundTrip(h.typ, v);
    var xs := Items(st, h.key);
    var a := Insert(h, st, 0, v).st;
    var ys := Items(a, h.key);
    assert ys[1..] == xs;
    PopRestores(st, a, h.key, xs);
  }

  /** Writing back the list a key held, in a store that differs only at
      that key, restores the store. */
  lemma PopRestores(st: Store, a: Store, k: string, xs: seq<string>)
    requires HoldsList(st, k) && xs == Items(st, k) && AgreeOff(a, st, [k])
    ensures PutList(a, k, xs) == st
  {
    var b := PutList(a, k, xs);
    forall j ensures (j in b <==> j in st) && (j in b ==> b[j] == st[j]) {
      if j != k {
        AgreeOffAt(a, st, [k], j);
      }
    }
  }

  /** `l[i] = v` then `l[i]` gives `v` back for any index inside the list. */
  lemma SetIndexThenGetIndex(h: Handle, st: Store, i: int, v: Value)
    requires HasType(v, h.typ)
    requires -|Items(st, h.key)| <= i < |Items(st, h.key)|
    ensures SetIndex(h, st, i, v).value == Ok(())
    ensures GetIndex(h, SetIndex(h, st, i, v).st, i) == Ok(v)
  {
    RoundTrip(h.typ, v);
  }

  /** `insert` at an index strictly inside the list keeps its length and
      puts `v` at that index in place of what was there. */
  lemma InsertInsideOverwrites(h: Handle, st: Store, idx: int, v: Value)
    requires HasType(v, h.typ)
    requires 0 < idx < |Items(st, h.key)|
    ensures Insert(h, st, idx, v).value == Ok(())
    ensures Len(h, Insert(h, st, idx, v).st) == Len(h, st)
    ensures GetIndex(h, Insert(h, st, idx, v).st, idx) == Ok(v)
  {
    SetIndexThenGetIndex(h, st, idx, v);
  }

  /** `insert` at the length of a non-empty list is refused by the store. */
  lemma InsertAtEndFails(h: Handle, st: Store, v: Value)
    requires Encode(h.typ, v).Ok? && |Items(st, h.key)| > 0
    ensures Insert(h, st, |Items(st, h.key)|, v) == Outcome(h, st, Err(ResponseError))
  {
  }
}
