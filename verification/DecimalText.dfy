/**
  Decimal numbers inside drive ids: format!("{}") and str::parse::<usize>() as
  rust/noct-diskman/src/lib.rs uses them.
 */
module DecimalText {
  import opened NumberText

  function DigitOf(d: nat): char
    requires d < 10
  {
    ('0' as int + d) as char
  }

  /** A number as format! prints it. */
  function Dec(n: nat): (s: string)
    ensures s != [] && forall k | 0 <= k < |s| :: IsDigit(s[k])
  {
    if n < 10 then [DigitOf(n)] else Dec(n / 10) + [DigitOf(n % 10)]
  }

  function Value(s: string): nat
    requires forall k | 0 <= k < |s| :: IsDigit(s[k])
  {
    if s == [] then 0 else 10 * Value(s[..|s| - 1]) + DigitValue(s[|s| - 1])
  }

  /** parse::<usize>().unwrap_or(0) on a 32-bit target: a leading '+' is allowed. */
  function ParseOrZero(s: string): nat {
    var t := if s != [] && s[0] == '+' then s[1..] else s;
    if t != [] && (forall k | 0 <= k < |t| :: IsDigit(t[k])) && Value(t) < 0x1_0000_0000 then Value(t) else 0
  }

  lemma {:induction false} ValueOfDec(n: nat)
    ensures Value(Dec(n)) == n
    decreases n
  {
    var s := Dec(n);
    if n < 10 {
      assert s[..0] == [];
    } else {
      ValueOfDec(n / 10);
      assert s[..|s| - 1] == Dec(n / 10);
    }
  }

  /** Parsing undoes printing for every number a usize holds. */
  lemma ParseOfDec(n: nat)
    ensures ParseOrZero(Dec(n)) == if n < 0x1_0000_0000 then n else 0
  {
    ValueOfDec(n);
    assert IsDigit(Dec(n)[0]);
  }

  lemma DecInjective(m: nat, n: nat)
    requires Dec(m) == Dec(n)
    ensures m == n
  {
    ValueOfDec(m);
    ValueOfDec(n);
  }
}
