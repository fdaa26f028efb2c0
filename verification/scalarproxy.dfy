/** The `Scalar` proxy (redis_natives/scalar.py): one store string behind
    a Python value. The value property reads and writes it through the
    codec, `+=` either adds (an `int` handle) or appends, and slicing is
    a GETRANGE (SUBSTR) of the inclusive translation.

    `__getslice__` is modelled on the arguments it receives; Python 2 has
    by then added the length once to a negative index.
 */
module ScalarProxy {
  import opened Wrappers
  import opened Codec
  import opened Store
  import opened Engine
  import opened Slices
  import opened Text

  // ---------------------------------------------------------------- value

  /** The `value` getter: GET through the declared type. A missing key
      answers nil, which only a `str` handle accepts (as "None"). */
  function GetValue(h: Handle, st: Store): (r: Result<Value>)
    ensures TextAt(st, h.key).Some? ==> r == Decode(h.typ, TextAt(st, h.key).value)
    ensures TextAt(st, h.key).None? ==> r == DecodeNil(h.typ)
  {
    DecodeReply(h.typ, TextOf(Step(st, Get(h.key)).reply))
  }

  /** The `value` setter: SET of the prepared value. */
  function SetValue(h: Handle, st: Store, v: Value): (r: Outcome<()>)
    ensures r.h == h
    ensures Encode(h.typ, v).Err? ==> r == Outcome(h, st, Err(Encode(h.typ, v).error))
    ensures Encode(h.typ, v).Ok? ==>
      r.value == Ok(())
      && TextAt(r.st, h.key) == Some(Encode(h.typ, v).value)
      && AgreeOff(r.st, st, [h.key])
  {
    match Encode(h.typ, v)
    case Err(e) => Outcome(h, st, Err(e))
    case Ok(t) =>
      AssignAgrees(st, h.key, StrE(t));
      Outcome(h, Step(st, SetStr(h.key, t)).store, Ok(()))
  }

  /** Setting a value of the declared type and reading it back gives it
      back. */
  lemma ValueRoundTrip(h: Handle, st: Store, v: Value)
    requires HasType(v, h.typ)
    ensures SetValue(h, st, v).value == Ok(())
    ensures GetValue(h, SetValue(h, st, v).st) == Ok(v)
  {
    RoundTrip(h.typ, v);
  }

  /** `len(s)`: STRLEN. */
  function Len(h: Handle, st: Store): (r: nat)
    ensures r == |TextOrEmpty(st, h.key)|
  {
    Step(st, StrLen(h.key)).reply.n
  }

  /** After setting a value of the declared type, `len` is the length of
      its rendering. */
  lemma SetValueThenLen(h: Handle, st: Store, v: Value)
    requires HasType(v, h.typ)
    ensures Len(h, SetValue(h, st, v).st) == |Render(v)|
  {
    RoundTrip(h.typ, v);
  }

  // ------------------------------------------------------------------- +=

  /** Python's `n + val` for an `int` `n`: an `int` or a `bool` (as 0 or 1)
      adds, a `str` raises `TypeError`. */
  function PlusInt(n: int, val: Value): (r: Result<int>)
    ensures r.Err? <==> val.StrV?
    ensures val.IntV? ==> r == Ok(n + val.i)
    ensures val.BoolV? ==> r == Ok(if val.b then n + 1 else n)
  {
    match val
    case IntV(m) => Ok(n + m)
    case BoolV(b) => Ok(n + (if b then 1 else 0))
    case StrV(_) => Err(TypeError)
  }

  /** `s += val`. An `int` handle reads its value, adds `val` and writes the
      sum back (`self.value += val`); every other handle APPENDs `str(val)`
      unprepared. */
  function IAdd(h: Handle, st: Store, val: Value): (r: Outcome<()>)
    ensures r.h == h
    ensures h.typ == IntType ==>
      (r.value.Ok? <==> GetValue(h, st).Ok? && !val.StrV?)
      && (r.value.Err? ==> r.st == st)
      && (r.value.Ok? ==>
            TextAt(r.st, h.key) == Some(IntText(PlusInt(GetValue(h, st).value.i, val).value))
            && AgreeOff(r.st, st, [h.key]))
    ensures h.typ != IntType ==>
      r.value == Ok(())
      && TextAt(r.st, h.key) == Some(TextOrEmpty(st, h.key) + ClientText(val))
      && AgreeOff(r.st, st, [h.key])
  {
    if h.typ == IntType then
      match GetValue(h, st)
      case Err(e) => Outcome(h, st, Err(e))
      case Ok(cur) =>
        assert cur.IntV?;
        match PlusInt(cur.i, val)
        case Err(e) => Outcome(h, st, Err(e))
        case Ok(sum) => SetValue(h, st, IntV(sum))
    else
      AssignAgrees(st, h.key, StrE(TextOrEmpty(st, h.key) + ClientText(val)));
      Outcome(h, Step(st, Append(h.key, ClientText(val))).store, Ok(()))
  }

  /** An `int` scalar holding `a` holds `a + b` after `+= b`. */
  lemma IAddIntSum(h: Handle, st: Store, a: int, b: int)
    requires h.typ == IntType
    ensures var s1 := SetValue(h, st, IntV(a)).st;
      IAdd(h, s1, IntV(b)).value == Ok(())
      && GetValue(h, IAdd(h, s1, IntV(b)).st) == Ok(IntV(a + b))
  {
    RoundTrip(IntType, IntV(a));
    RoundTrip(IntType, IntV(a + b));
  }

  /** A `str` scalar reads back as the old text followed by the appended
      one, and grows by its length. */
  lemma IAddStrAppends(h: Handle, st: Store, val: Value)
    requires h.typ == StrType
    ensures GetValue(h, IAdd(h, st, val).st) == Ok(StrV(TextOrEmpty(st, h.key) + ClientText(val)))
    ensures Len(h, IAdd(h, st, val).st) == Len(h, st) + |ClientText(val)|
  {
  }

  /** An `int` scalar with nothing stored cannot be added to: `int(None)`
      raises `TypeError` before anything is written. */
  lemma IAddMissingInt(h: Handle, st: Store, val: Value)
    requires h.typ == IntType && TextAt(st, h.key).None?
    ensures IAdd(h, st, val) == Outcome(h, st, Err(TypeError))
  {
  }

  // --------------------------------------------------------------- slices

  /** `__getslice__(i, j)` as written, on the indices Python 2 passes it:
      `[0:0]` is "" without a store read; otherwise GETRANGE of the
      inclusive translation (open start 0, open end -1, explicit end
      `j - 1`). The text is returned unconverted. */
  function GetSliceAsWritten(h: Handle, st: Store, i: Option<int>, j: Option<int>): (r: string)
    ensures var s := TextOrEmpty(st, h.key);
      (i.None? || i.value >= 0) && (j.None? || j.value > 0 || (i == Some(0) && j == Some(0))) ==>
      r == s[ReceivedSlice(|s|, i, j).0..ReceivedSlice(|s|, i, j).1]
  {
    SubstrRangeAsWrittenIsReceivedSlice(|TextOrEmpty(st, h.key)|, i, j);
    match SubstrRangeAsWritten(i, j)
    case None => ""
    case Some((a, b)) =>
      SubstrStep(st, h.key, a, b);
      Step(st, Substr(h.key, a, b)).reply.text
  }

  /** `__getslice__(i, j)` read as `str` reads it: the length (STRLEN) turns
      the received indices into the inclusive bounds of the slice's first
      and last character, and an empty slice reads nothing. */
  function GetSlice(h: Handle, st: Store, i: Option<int>, j: Option<int>): (r: string)
    ensures var s := TextOrEmpty(st, h.key);
      r == s[ReceivedSlice(|s|, i, j).0..ReceivedSlice(|s|, i, j).1]
  {
    var n := Len(h, st);
    SubstrRangeIsReceivedSlice(n, i, j);
    match SubstrRange(n, i, j)
    case None => ""
    case Some((a, b)) =>
      SubstrStep(st, h.key, a, b);
      Step(st, Substr(h.key, a, b)).reply.text
  }

  /** Written as `s[i:j]`, the proxy reads Python's slice of its text. */
  lemma GetSliceIsPythonSlice(h: Handle, st: Store, i: Option<int>, j: Option<int>)
    ensures var s := TextOrEmpty(st, h.key);
      GetSlice(h, st, Received(|s|, i), Received(|s|, j)) == s[PySlice(|s|, i, j).0..PySlice(|s|, i, j).1]
  {
    ReceivedIsPySlice(|TextOrEmpty(st, h.key)|, i, j);
  }

  /** A received stop of 0 after a start inside the text (`s[1:0]`, or
      `s[1:-len(s)]`): the slice is empty, the proxy asks for the end `-1`
      and reads the whole suffix. */
  lemma StopZeroReadsSuffix(h: Handle, st: Store, i: int)
    requires 0 < i < |TextOrEmpty(st, h.key)|
    ensures GetSlice(h, st, Some(i), Some(0)) == ""
    ensures GetSliceAsWritten(h, st, Some(i), Some(0)) == TextOrEmpty(st, h.key)[i..]
  {
    var s := TextOrEmpty(st, h.key);
    assert ReceivedSlice(|s|, Some(i), Some(0)) == (0, 0);
    assert GetSliceAsWritten(h, st, Some(i), Some(0)) == s[i..|s|] by {
      assert SubstrRangeAsWritten(Some(i), Some(0)) == Some((i, -1));
      assert SubstrBounds(|s|, i, -1) == (i, |s|);
    }
    assert s[i..|s|] == s[i..];
  }

  /** A received negative stop above minus the length (written below minus
      the length, `"hello"[:-7]` arrives as `(0, -2)`): the slice is empty,
      but GETRANGE counts the stop from the end a second time and reads a
      prefix. */
  lemma NegativeStopReadsPrefix(h: Handle, st: Store, j: int)
    requires -|TextOrEmpty(st, h.key)| < j < 0
    ensures GetSlice(h, st, None, Some(j)) == ""
    ensures GetSliceAsWritten(h, st, None, Some(j)) == TextOrEmpty(st, h.key)[..|TextOrEmpty(st, h.key)| + j]
  {
    var s := TextOrEmpty(st, h.key);
    assert SubstrBounds(|s|, 0, j - 1) == (0, |s| + j);
  }

  /** A received stop at or below minus the length (written at or below
      twice that, `"hello"[:-10]` arrives as `(0, -5)`): the slice is empty,
      but GETRANGE clamps the end to 0 and reads the first character. */
  lemma FarNegativeStopReadsHead(h: Handle, st: Store, j: int)
    requires 0 < |TextOrEmpty(st, h.key)| && j <= -|TextOrEmpty(st, h.key)|
    ensures GetSlice(h, st, None, Some(j)) == ""
    ensures GetSliceAsWritten(h, st, None, Some(j)) == TextOrEmpty(st, h.key)[..1]
  {
    var s := TextOrEmpty(st, h.key);
    assert SubstrBounds(|s|, 0, j - 1) == (0, 1);
  }

  /** A received negative start above minus the length (written below minus
      the length, `"hello"[-7:]` arrives as `(-2, maxint)`): the slice is
      the whole text, but GETRANGE counts the start from the end a second
      time and reads only a suffix. */
  lemma NegativeStartReadsSuffix(h: Handle, st: Store, i: int, k: int)
    requires -|TextOrEmpty(st, h.key)| < i < 0 && k >= |TextOrEmpty(st, h.key)|
    ensures GetSlice(h, st, Some(i), Some(k)) == TextOrEmpty(st, h.key)
    ensures GetSliceAsWritten(h, st, Some(i), Some(k)) == TextOrEmpty(st, h.key)[|TextOrEmpty(st, h.key)| + i..]
  {
    var s := TextOrEmpty(st, h.key);
    assert ReceivedSlice(|s|, Some(i), Some(k)) == (0, |s|);
    assert s[0..|s|] == s;
    assert SubstrRangeAsWritten(Some(i), Some(k)) == Some((i, k - 1));
    assert SubstrBounds(|s|, i, k - 1) == (|s| + i, |s|);
    SubstrStep(st, h.key, i, k - 1);
    assert s[|s| + i..|s|] == s[|s| + i..];
  }
}
