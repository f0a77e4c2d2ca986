/**
 * The values the tool hands to the Setup.bin codec. A JavaScript string is a
 * sequence of UTF-16 code units; String.fromCharCode(n) is the code unit n
 * modulo 2^16. Numbers in the variable list are integers.
 */
module Values {

  newtype CodeUnit = x: int | 0 <= x < 0x1_0000

  type JsString = seq<CodeUnit>

  newtype Byte = x: int | 0 <= x < 0x100

  /** A variable's value as passed through to the codec: a string or a number. */
  datatype Value = Text(text: JsString) | Number(number: int)

  /** `String.fromCharCode(n)` for a non-negative integer n. */
  function FromCharCode(n: nat): (u: CodeUnit)
    ensures n < 0x1_0000 ==> u as int == n
  {
    (n % 0x1_0000) as CodeUnit
  }

  /** An ASCII literal as a JavaScript string. */
  function Ascii(s: string): (js: JsString)
    requires forall i :: 0 <= i < |s| ==> s[i] as int < 0x80
    ensures |js| == |s| && forall i :: 0 <= i < |s| ==> js[i] as int == s[i] as int
  {
    seq(|s|, i requires 0 <= i < |s| => s[i] as int as CodeUnit)
  }
}
