/** Vertex labels (`to_string(i + 1)`, isomorphic.cpp:335) and the way a loop
    press turns a label back into a vertex index (isomorphic.cpp:392). */
module Labels {

  function DigitChar(d: int): char
    requires 0 <= d < 10
  {
    (d + '0' as int) as char
  }

  predicate IsDigits(s: string)
  {
    forall k :: 0 <= k < |s| ==> '0' <= s[k] <= '9'
  }

  /** Decimal notation without leading zeros, as `std::to_string` writes a
      non-negative integer. */
  function ToDecimal(k: nat): (s: string)
    ensures |s| > 0 && IsDigits(s)
    decreases k
  {
    if k < 10 then [DigitChar(k)] else ToDecimal(k / 10) + [DigitChar(k % 10)]
  }

  /** Value of a string of decimal digits. */
  function ParseDecimal(s: string): nat
    requires IsDigits(s)
    decreases |s|
  {
    if s == [] then 0 else ParseDecimal(s[..|s| - 1]) * 10 + (s[|s| - 1] as int - '0' as int)
  }

  /** Reading a decimal back gives the number that was written. */
  lemma {:induction false} ParseToDecimal(k: nat)
    ensures ParseDecimal(ToDecimal(k)) == k
    decreases k
  {
    if k >= 10 {
      ParseToDecimal(k / 10);
      var s := ToDecimal(k);
      assert s[..|s| - 1] == ToDecimal(k / 10);
    }
  }

  /** The label drawn on vertex `i`: its 1-based number in decimal. It is a
      single digit exactly for the first nine vertices. */
  function VertexLabel(i: nat): (s: string)
    ensures |s| > 0 && IsDigits(s) && ParseDecimal(s) == i + 1
    ensures |s| == 1 <==> i < 9
  {
    ParseToDecimal(i + 1);
    ToDecimal(i + 1)
  }

  /** The index a loop press credits: `label[0] - '1'`, the first digit of the
      label minus one. It always names an existing vertex at or before the
      clicked one, and the clicked vertex itself for vertices 1 to 9. */
  function LoopCreditIndex(i: nat): (r: int)
    ensures 0 <= r <= i
    ensures i < 9 ==> r == i
  {
    LeadingDigit(i + 1);
    VertexLabel(i)[0] as int - '1' as int
  }

  /** The first digit of the decimal form of a positive number lies between 1
      and the number itself. */
  lemma {:induction false} LeadingDigit(k: nat)
    requires k >= 1
    ensures 1 <= ToDecimal(k)[0] as int - '0' as int <= k
    ensures k < 10 ==> ToDecimal(k)[0] as int - '0' as int == k
    decreases k
  {
    if k >= 10 {
      LeadingDigit(k / 10);
      assert ToDecimal(k)[0] == ToDecimal(k / 10)[0];
    }
  }

  /** The tenth vertex's label is "10", so its loops are credited to the first
      vertex. */
  lemma TenthVertexMiscredited()
    ensures VertexLabel(9) == "10"
    ensures LoopCreditIndex(9) == 0
  {
    assert ToDecimal(10) == ToDecimal(1) + [DigitChar(0)];
  }

  /** Index named by a whole label (the label read as a number, minus one). */
  function LabelIndex(text: string): int
    requires IsDigits(text)
  {
    ParseDecimal(text) - 1
  }

  /** Reading the whole label recovers every vertex's own index. */
  lemma LabelIndexRoundTrip(i: nat)
    ensures LabelIndex(VertexLabel(i)) == i
  {
    ParseToDecimal(i + 1);
  }
}
