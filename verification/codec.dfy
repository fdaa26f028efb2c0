/** The typed value codec (redis_natives/datatypes.py): a handle declares an
    element type (`str`, `int` or `bool`); values go to the store as text and
    come back through the declared type's conversion.
 */
module Codec {
  import opened Wrappers
  import opened Text

  datatype ElemType = StrType | IntType | BoolType

  /** A Python value a proxy hands out or accepts. */
  datatype Value = StrV(s: string) | IntV(i: int) | BoolV(b: bool)

  predicate HasType(v: Value, t: ElemType) {
    match t
    case StrType => v.StrV?
    case IntType => v.IntV?
    case BoolType => v.BoolV?
  }

  /** What the client library sends for an argument: strings unchanged,
      Python's `str()` of anything else (so `True` becomes "True"). */
  function ClientText(v: Value): string {
    match v
    case StrV(s) => s
    case IntV(n) => IntText(n)
    case BoolV(b) => if b then "True" else "False"
  }

  /** `type_prepare`: a bool-typed handle turns the value into `int(val)`
      before it is sent; other handles send it unchanged. */
  function Prepare(t: ElemType, v: Value): Result<Value> {
    if t != BoolType then Ok(v)
    else
      match v
      case BoolV(b) => Ok(IntV(if b then 1 else 0))
      case IntV(n) => Ok(IntV(n))
      case StrV(s) =>
        match ParseInt(s)
        case Some(n) => Ok(IntV(n))
        case None => Err(ValueError)
  }

  /** The text a handle of type `t` stores for `v`. */
  function Encode(t: ElemType, v: Value): Result<string> {
    match Prepare(t, v)
    case Ok(p) => Ok(ClientText(p))
    case Err(e) => Err(e)
  }

  /** `type_convert`: `str` is the identity on text, `int` parses it and
      `bool` is `bool(int(text))`. */
  function Decode(t: ElemType, text: string): Result<Value> {
    match t
    case StrType => Ok(StrV(text))
    case IntType =>
      (match ParseInt(text)
       case Some(n) => Ok(IntV(n))
       case None => Err(ValueError))
    case BoolType =>
      (match ParseInt(text)
       case Some(n) => Ok(BoolV(n != 0))
       case None => Err(ValueError))
  }

  /** `type_convert(None)`, reached when the store answers nil: `str(None)`
      is the text "None", `int(None)` raises `TypeError`. */
  function DecodeNil(t: ElemType): Result<Value> {
    if t == StrType then Ok(StrV("None")) else Err(TypeError)
  }

  /** A reply that may be nil, converted as `type_convert` would. */
  function DecodeReply(t: ElemType, text: Option<string>): Result<Value> {
    match text
    case Some(s) => Decode(t, s)
    case None => DecodeNil(t)
  }

  /** `type_convert_tuple` on a (member, score) pair: the member goes through
      the declared type, the score is kept. */
  function DecodePair(t: ElemType, p: (string, int)): (r: Result<(Value, int)>)
    ensures r.Ok? <==> Decode(t, p.0).Ok?
    ensures r.Ok? ==> r.value == (Decode(t, p.0).value, p.1)
  {
    match Decode(t, p.0)
    case Ok(v) => Ok((v, p.1))
    case Err(e) => Err(e)
  }

  /** `set(map(type_convert, raw))`: fails if any member fails. */
  function DecodeAll(t: ElemType, raw: set<string>): (r: Result<set<Value>>)
    ensures r.Ok? <==> forall x :: x in raw ==> Decode(t, x).Ok?
    ensures r.Ok? ==> forall v :: v in r.value <==> exists x :: x in raw && Decode(t, x) == Ok(v)
  {
    if forall x | x in raw :: Decode(t, x).Ok? then
      Ok(set x | x in raw :: Decode(t, x).value)
    else
      Err(ValueError)
  }

  /** `set(map(type_convert_tuple, raw))` for (member, score) pairs. */
  function DecodePairs(t: ElemType, raw: set<(string, int)>): (r: Result<set<(Value, int)>>)
    ensures r.Ok? <==> forall p :: p in raw ==> Decode(t, p.0).Ok?
    ensures r.Ok? ==> forall q :: q in r.value <==> exists p :: p in raw && DecodePair(t, p) == Ok(q)
  {
    if forall p | p in raw :: Decode(t, p.0).Ok? then
      Ok(set p | p in raw :: DecodePair(t, p).value)
    else
      Err(ValueError)
  }

  /** `map(type_convert, texts)`: fails if any element fails. */
  function DecodeList(t: ElemType, xs: seq<string>): (r: Result<seq<Value>>)
    ensures r.Ok? <==> forall i :: 0 <= i < |xs| ==> Decode(t, xs[i]).Ok?
    ensures r.Ok? ==> |r.value| == |xs| && forall i :: 0 <= i < |xs| ==> Decode(t, xs[i]) == Ok(r.value[i])
    ensures r.Err? ==> r.error == ValueError
    decreases |xs|
  {
    if |xs| == 0 then Ok([])
    else
      match Decode(t, xs[0])
      case Err(e) => Err(e)
      case Ok(v) =>
        match DecodeList(t, xs[1..])
        case Err(e) => Err(e)
        case Ok(vs) => Ok([v] + vs)
  }

  /** `map(type_convert_tuple, pairs)` for (member, score) pairs. */
  function DecodePairList(t: ElemType, ps: seq<(string, int)>): (r: Result<seq<(Value, int)>>)
    ensures r.Ok? <==> forall i :: 0 <= i < |ps| ==> Decode(t, ps[i].0).Ok?
    ensures r.Ok? ==> |r.value| == |ps| && forall i :: 0 <= i < |ps| ==> DecodePair(t, ps[i]) == Ok(r.value[i])
    ensures r.Err? ==> r.error == ValueError
    decreases |ps|
  {
    if |ps| == 0 then Ok([])
    else
      match DecodePair(t, ps[0])
      case Err(e) => Err(e)
      case Ok(q) =>
        match DecodePairList(t, ps[1..])
        case Err(e) => Err(e)
        case Ok(qs) => Ok([q] + qs)
  }

  /** The text stored for a value of its own declared type. */
  function Render(v: Value): string {
    match v
    case StrV(s) => s
    case IntV(n) => IntText(n)
    case BoolV(b) => if b then "1" else "0"
  }

  /** Encoding a value of the declared type cannot fail, and produces its
      rendering; decoding that text gives the value back. */
  lemma RoundTrip(t: ElemType, v: Value)
    requires HasType(v, t)
    ensures Encode(t, v) == Ok(Render(v))
    ensures Decode(t, Render(v)) == Ok(v)
  {
    match v
    case StrV(s) =>
    case IntV(n) => IntTextRoundTrip(n);
    case BoolV(b) =>
      IntTextRoundTrip(if b then 1 else 0);
      assert IntText(1) == "1" && IntText(0) == "0";
  }

  /** Two values of the declared type are stored as the same text exactly
      when they are equal. */
  lemma RenderInjective(t: ElemType, v: Value, w: Value)
    requires HasType(v, t) && HasType(w, t)
    ensures Render(v) == Render(w) <==> v == w
  {
    RoundTrip(t, v);
    RoundTrip(t, w);
  }

  /** `bool(int(text))`: "0" reads as false, any other integer text as true,
      and a text that is not an integer raises. */
  lemma BoolDecode(text: string)
    ensures Decode(BoolType, text) == Ok(BoolV(false)) <==> ParseInt(text) == Some(0)
    ensures Decode(BoolType, text) == Ok(BoolV(true)) <==> ParseInt(text).Some? && ParseInt(text).value != 0
    ensures Decode(BoolType, text).Err? <==> ParseInt(text).None?
  {
  }

  lemma BoolZeroIsFalse()
    ensures Decode(BoolType, "0") == Ok(BoolV(false))
    ensures Decode(BoolType, "1") == Ok(BoolV(true))
  {
    IntTextRoundTrip(0);
    IntTextRoundTrip(1);
    assert IntText(1) == "1" && IntText(0) == "0";
  }

  /** `type_convert_tuple` inverts what a handle stores for a pair: the
      stored text of a typed member comes back as the member, with the
      score untouched; and two pairs of typed members read back equal only
      when they were stored equal. */
  lemma DecodePairRoundTrip(t: ElemType, v: Value, score: int, w: Value, other: int)
    requires HasType(v, t) && HasType(w, t)
    ensures DecodePair(t, (Render(v), score)) == Ok((v, score))
    ensures DecodePair(t, (Render(v), score)) == DecodePair(t, (Render(w), other))
        <==> (Render(v), score) == (Render(w), other)
  {
    RoundTrip(t, v);
    RoundTrip(t, w);
    RenderInjective(t, v, w);
  }

  /** `int()` ignores whitespace around the digits, so an `int` or `bool`
      handle reads a padded integer text as that integer. */
  lemma DecodePadded(a: string, n: int, b: string)
    requires AllSpace(a) && AllSpace(b)
    ensures Decode(IntType, a + IntText(n) + b) == Ok(IntV(n))
    ensures Decode(BoolType, a + IntText(n) + b) == Ok(BoolV(n != 0))
    ensures Prepare(BoolType, StrV(a + IntText(n) + b)) == Ok(IntV(n))
  {
    PaddedIntText(a, n, b);
  }

  /** For `str` and `int` handles the client's own text of a value is the
      text the handle stores. */
  lemma ClientTextIsRender(t: ElemType, v: Value)
    requires HasType(v, t) && t != BoolType
    ensures ClientText(v) == Render(v)
  {
  }

  /** Decoding the renderings of a set of typed values gives back the set. */
  lemma {:induction false} DecodeAllRender(t: ElemType, vs: set<Value>)
    requires forall v :: v in vs ==> HasType(v, t)
    ensures DecodeAll(t, set v | v in vs :: Render(v)) == Ok(vs)
  {
    var raw := set v | v in vs :: Render(v);
    forall x | x in raw ensures Decode(t, x).Ok? {
      var v :| v in vs && Render(v) == x;
      RoundTrip(t, v);
    }
    var r := DecodeAll(t, raw).value;
    forall v | v in vs ensures v in r {
      RoundTrip(t, v);
    }
    forall w | w in r ensures w in vs {
      var x :| x in raw && Decode(t, x) == Ok(w);
      var v :| v in vs && Render(v) == x;
      RoundTrip(t, v);
    }
    assert r == vs;
  }

  /** A `str` handle reads every stored text back as itself. */
  lemma DecodeText(raw: set<string>)
    ensures DecodeAll(StrType, raw).Ok?
    ensures forall v :: v in DecodeAll(StrType, raw).value <==> v.StrV? && v.s in raw
  {
    forall v ensures v in DecodeAll(StrType, raw).value <==> v.StrV? && v.s in raw {
      if v.StrV? && v.s in raw {
        assert Decode(StrType, v.s) == Ok(v);
      }
    }
  }
}
