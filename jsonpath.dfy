/** The JSON path that names a buffer declaration in an error message:
    `json::Path::new().field("buffers").index(i)` prints as `buffers[i]`,
    with `i` in decimal. */
module JsonPath {

  function DigitChar(d: nat): (c: char)
    requires d < 10
  {
    ('0' as int + d) as char
  }

  predicate IsDigit(c: char) {
    '0' <= c <= '9'
  }

  /** The decimal spelling of `n`, without leading zeros. */
  function Decimal(n: nat): (r: string)
    ensures |r| > 0
    ensures forall k :: 0 <= k < |r| ==> IsDigit(r[k])
    ensures n > 0 ==> r[0] != '0'
  {
    if n < 10 then [DigitChar(n)] else Decimal(n / 10) + [DigitChar(n % 10)]
  }

  /** The number a string of digits spells. */
  function ParseDecimal(s: string): nat
    requires forall k :: 0 <= k < |s| ==> IsDigit(s[k])
  {
    if |s| == 0 then 0
    else
      assert IsDigit(s[|s| - 1]);
      ParseDecimal(s[..|s| - 1]) * 10 + (s[|s| - 1] as int - '0' as int)
  }

  /** Reading the decimal spelling gives the number back. */
  lemma {:induction false} ParseDecimalOfDecimal(n: nat)
    ensures ParseDecimal(Decimal(n)) == n
  {
    if n >= 10 {
      var r := Decimal(n);
      ParseDecimalOfDecimal(n / 10);
      assert r[..|r| - 1] == Decimal(n / 10);
    }
  }

  /** The path of the buffer declaration at `index`, as the error reports it. */
  function BufferPath(index: nat): string {
    "buffers[" + Decimal(index) + "]"
  }

  /** Distinct declarations get distinct paths, so the message identifies the buffer. */
  lemma BufferPathInjective(i: nat, j: nat)
    ensures BufferPath(i) == BufferPath(j) <==> i == j
  {
    if BufferPath(i) == BufferPath(j) {
      var p := BufferPath(i);
      assert Decimal(i) == p[8..|p| - 1];
      assert Decimal(j) == p[8..|p| - 1];
      ParseDecimalOfDecimal(i);
      ParseDecimalOfDecimal(j);
    }
  }
}
