/**
 * The disassembler's parameter rendering. An opcode whose formatter is
 * `ListValues` gives its decoded field values in declaration order; an opcode
 * whose formatter is `PropertyWithArgCount` renders "<property> (<arg_count>)",
 * where the property text comes from the constant-pool collaborator and the
 * count is written in decimal.
 */
module Disassembler {
  import opened Common
  import opened Registry
  import opened Decoder

  /** The constant-pool collaborator: the rendering of the entry a reference names. */
  type Pool = (nat, RefKind) -> string

  /** Rendered parameters: a text, or the list of field values. */
  datatype Parameters = Text(text: string) | Values(values: seq<Operand>)

  predicate IsDigit(c: char) {
    '0' <= c <= '9'
  }

  predicate AllDigits(s: string) {
    forall j :: 0 <= j < |s| ==> IsDigit(s[j])
  }

  function DigitChar(d: nat): (c: char)
    requires d < 10
    ensures c == "0123456789"[d]
  {
    ('0' as int + d) as char
  }

  /** The decimal digits of `n`, most significant first, with no leading zero. */
  function DecimalString(n: nat): (s: string)
    ensures 1 <= |s| && AllDigits(s)
    ensures |s| > 1 ==> s[0] != '0'
    decreases n
  {
    if n < 10 then [DigitChar(n)] else DecimalString(n / 10) + [DigitChar(n % 10)]
  }

  /** The number a string of decimal digits spells. */
  function DecimalValue(s: string): nat
    requires AllDigits(s)
    decreases |s|
  {
    if s == [] then 0
    else
      var init := s[..|s| - 1];
      assert AllDigits(init) by {
        forall j | 0 <= j < |init| ensures IsDigit(init[j]) {
          assert init[j] == s[j];
        }
      }
      10 * DecimalValue(init) + (s[|s| - 1] as int - '0' as int)
  }

  /** Reading the decimal digits of `n` gives `n` back. */
  lemma {:induction false} DecimalRoundTrip(n: nat)
    ensures DecimalValue(DecimalString(n)) == n
    decreases n
  {
    if n >= 10 {
      var s := DecimalString(n);
      DecimalRoundTrip(n / 10);
      assert s[..|s| - 1] == DecimalString(n / 10);
    }
  }

  /** How many decimal digits `s` ends with. */
  function TrailingDigits(s: string): (k: nat)
    ensures k <= |s|
    ensures forall j :: |s| - k <= j < |s| ==> IsDigit(s[j])
    ensures k < |s| ==> !IsDigit(s[|s| - k - 1])
    decreases |s|
  {
    if s != [] && IsDigit(s[|s| - 1]) then
      var k := TrailingDigits(s[..|s| - 1]);
      assert forall j :: 0 <= j < |s| - 1 ==> s[..|s| - 1][j] == s[j];
      k + 1
    else 0
  }

  lemma {:induction false} TrailingDigitsAppend(x: string, d: string)
    requires AllDigits(d) && x != [] && !IsDigit(x[|x| - 1])
    ensures TrailingDigits(x + d) == |d|
    decreases |d|
  {
    if d == [] {
      assert x + d == x;
    } else {
      var d' := d[..|d| - 1];
      assert (x + d)[..|x + d| - 1] == x + d';
      assert (x + d)[|x + d| - 1] == d[|d| - 1];
      assert AllDigits(d') by {
        forall j | 0 <= j < |d'| ensures IsDigit(d'[j]) {
          assert d'[j] == d[j];
        }
      }
      TrailingDigitsAppend(x, d');
    }
  }

  /** Reads a "<property> (<count>)" text back into the property text and the count. */
  function SplitPropertyText(text: string): Option<(string, nat)> {
    if |text| < 4 || text[|text| - 1] != ')' then None
    else
      var body := text[..|text| - 1];
      var k := TrailingDigits(body);
      if k == 0 || |body| < k + 2 || body[|body| - k - 1] != '(' || body[|body| - k - 2] != ' ' then None
      else
        var digits := body[|body| - k..];
        assert AllDigits(digits) by {
          forall j | 0 <= j < |digits| ensures IsDigit(digits[j]) {
            assert digits[j] == body[|body| - k + j];
          }
        }
        Some((body[..|body| - k - 2], DecimalValue(digits)))
  }

  /** The text of a property and a count splits back into the two, whatever the property text. */
  lemma PropertyTextRoundTrip(p: string, n: nat)
    ensures SplitPropertyText(p + " (" + DecimalString(n) + ")") == Some((p, n))
  {
    var d := DecimalString(n);
    var text := p + " (" + d + ")";
    var x := p + " (";
    var body := text[..|text| - 1];
    assert body == x + d;
    TrailingDigitsAppend(x, d);
    assert body[..|body| - |d| - 2] == p;
    assert body[|body| - |d|..] == d;
    DecimalRoundTrip(n);
  }

  /**
   * The parameters of an instruction: for `PropertyWithArgCount`, the pool's
   * rendering of `property`, a space and `arg_count` in parentheses; otherwise
   * the decoded field values in declaration order.
   */
  function ParametersOf(ins: Instruction, pool: Pool): Parameters {
    match ins.spec.formatter
    case ListValues => Values(FieldValues(ins.fields))
    case PropertyWithArgCount =>
      match (Get(ins.fields, "property"), Get(ins.fields, "arg_count"))
      case (Some(ConstantRef(i, k)), Some(Unsigned(n))) => Text(pool(i, k) + " (" + DecimalString(n) + ")")
      case _ => Values(FieldValues(ins.fields))
  }

  /** A disassembled line: the mnemonic and the rendered parameters. */
  function Disassemble(ins: Instruction, pool: Pool): (string, Parameters) {
    (ins.spec.mnemonic, ParametersOf(ins, pool))
  }
}
