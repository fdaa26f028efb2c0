/** Names of the temporary keys the set-algebra operations create and
    delete within one batch (redis_natives/datatypes.py, set.py, zset.py).

    Four families exist: the per-operand names `__tmp__<position>`, the random
    names `__tmp__<32 hex digits>`, the fixed name `__tmp__intersection`, and
    the time-based `<seconds>union` / `<seconds>inter` pair.
 */
module TempKeys {
  import opened Wrappers
  import opened Text

  const TmpPrefix: string := "__tmp__"

  /** The name under which the local operand at position `i` is stored. */
  function OperandTempKey(i: nat): string {
    TmpPrefix + NatText(i)
  }

  /** An operand name is the prefix followed by decimal digits only. */
  lemma OperandTempKeyShape(i: nat)
    ensures var k := OperandTempKey(i);
      |k| > |TmpPrefix| && k[..|TmpPrefix|] == TmpPrefix
      && forall j :: |TmpPrefix| <= j < |k| ==> IsDigit(k[j])
  {
  }

  /** `generate_temporary_key`: the prefix, then each random byte as two
      lower-case hexadecimal digits. */
  function GenerateTemporaryKey(rand: seq<byte>): string {
    TmpPrefix + HexText(rand)
  }

  /** A generated name is the prefix followed by two lower-case hexadecimal
      digits per random byte. */
  lemma GeneratedKeyShape(rand: seq<byte>)
    ensures var k := GenerateTemporaryKey(rand);
      |k| == |TmpPrefix| + 2 * |rand| && k[..|TmpPrefix|] == TmpPrefix
      && forall j :: |TmpPrefix| <= j < |k| ==> IsLowerHex(k[j])
  {
  }

  /** The fixed name `ZSet.intersection` stores its result under. */
  const IntersectionKey: string := TmpPrefix + "intersection"

  /** The pair of names `Set.symmetric_difference` derives from the clock. */
  function UnionKey(seconds: nat): string {
    NatText(seconds) + "union"
  }

  function InterKey(seconds: nat): string {
    NatText(seconds) + "inter"
  }

  /** Different positions give different operand names. */
  lemma OperandTempKeyInjective(i: nat, j: nat)
    ensures OperandTempKey(i) == OperandTempKey(j) <==> i == j
  {
    if OperandTempKey(i) == OperandTempKey(j) {
      assert NatText(i) == OperandTempKey(i)[|TmpPrefix|..];
      assert NatText(j) == OperandTempKey(j)[|TmpPrefix|..];
      NatTextRoundTrip(i);
      NatTextRoundTrip(j);
    }
  }

  /** The random bytes can be read back from a generated name, so distinct
      random draws give distinct names. */
  lemma GeneratedKeyDecodes(rand: seq<byte>)
    ensures ParseHex(GenerateTemporaryKey(rand)[|TmpPrefix|..]) == Some(rand)
  {
    assert GenerateTemporaryKey(rand)[|TmpPrefix|..] == HexText(rand);
    HexRoundTrip(rand);
  }

  lemma GeneratedKeyInjective(a: seq<byte>, b: seq<byte>)
    ensures GenerateTemporaryKey(a) == GenerateTemporaryKey(b) <==> a == b
  {
    GeneratedKeyDecodes(a);
    GeneratedKeyDecodes(b);
  }

  /** `os.urandom(16)` yields a name of the prefix and 32 hexadecimal digits. */
  lemma GeneratedKeyLength(rand: seq<byte>)
    requires |rand| == 16
    ensures |GenerateTemporaryKey(rand)| == |TmpPrefix| + 32
  {
    GeneratedKeyShape(rand);
  }

  /** The families do not overlap: operand names end in digits, the fixed
      intersection name does not, and the clock names start with a digit. */
  lemma FamiliesDistinct(i: nat, seconds: nat)
    ensures OperandTempKey(i) != IntersectionKey
    ensures OperandTempKey(i) != UnionKey(seconds) && OperandTempKey(i) != InterKey(seconds)
    ensures UnionKey(seconds) != InterKey(seconds)
  {
    var k := OperandTempKey(i);
    OperandTempKeyShape(i);
    assert IsDigit(k[|TmpPrefix|]);
    assert IntersectionKey[|TmpPrefix|] == 'i';
    assert !IsDigit(k[0]);
    assert IsDigit(UnionKey(seconds)[0]) && IsDigit(InterKey(seconds)[0]);
    var n := |NatText(seconds)|;
    assert UnionKey(seconds)[n] == 'u' && InterKey(seconds)[n] == 'i';
  }
}
