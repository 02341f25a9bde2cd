/** Decimal numbers and the names of temporary siblings
    (`src/fs/transfer_queue.rs`, `unused_transfer_sibling`). */
module TempNames {

  function Digit(d: nat): (c: char)
    requires d < 10
    ensures '0' <= c <= '9' && c as int - '0' as int == d
  {
    '0' + d as char
  }

  function Decimal(n: nat): (text: string)
    ensures text != [] && forall c :: c in text ==> '0' <= c <= '9'
  {
    if n < 10 then [Digit(n)] else Decimal(n / 10) + [Digit(n % 10)]
  }

  lemma {:induction false} DecimalIsInjective(m: nat, n: nat)
    requires Decimal(m) == Decimal(n)
    ensures m == n
  {
    var a, b := Decimal(m), Decimal(n);
    assert a[|a| - 1] == Digit(m % 10) && b[|b| - 1] == Digit(n % 10);
    if m >= 10 && n >= 10 {
      assert Decimal(m / 10) == a[..|a| - 1] && Decimal(n / 10) == b[..|b| - 1];
      DecimalIsInjective(m / 10, n / 10);
    } else {
      assert m >= 10 ==> |a| > 1;
      assert n >= 10 ==> |b| > 1;
    }
  }

  function TempName(name: string, purpose: string, process: nat, sequence: nat): (temp: string)
    ensures |temp| > |name|
  {
    "." + name + ".bexplorer-" + purpose + "-" + Decimal(process) + "-" + Decimal(sequence)
  }

  /** The sequence number is what follows the last dash. */
  lemma DigitsFollowLastDash(name: string, purpose: string, process: nat, sequence: nat)
    ensures var temp, digits := TempName(name, purpose, process, sequence), |Decimal(sequence)|;
            && digits < |temp| && temp[|temp| - digits..] == Decimal(sequence)
            && temp[|temp| - digits - 1] == '-'
            && forall i :: |temp| - digits <= i < |temp| ==> temp[i] != '-'
  {
    var temp, digits := TempName(name, purpose, process, sequence), Decimal(sequence);
    forall i | |temp| - |digits| <= i < |temp| ensures temp[i] != '-' {
      assert temp[i] == digits[i - (|temp| - |digits|)] && temp[i] in digits;
    }
  }

  /** Two temporary names with different sequence numbers differ, whatever they
      were made for. */
  lemma TempNamesDiffer(
    name1: string, purpose1: string, sequence1: nat, name2: string, purpose2: string, sequence2: nat, process: nat)
    requires sequence1 != sequence2
    ensures TempName(name1, purpose1, process, sequence1) != TempName(name2, purpose2, process, sequence2)
  {
    DigitsFollowLastDash(name1, purpose1, process, sequence1);
    DigitsFollowLastDash(name2, purpose2, process, sequence2);
    if Decimal(sequence1) == Decimal(sequence2) {
      DecimalIsInjective(sequence1, sequence2);
    }
  }
}
