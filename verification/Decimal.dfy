/** Inode numbers as directory entries store them: printed with format!("{}"), read back with parse::<usize>(). */
module Decimal {
  import opened Errors

  function Digit(d: nat): char
    requires d < 10
  {
    '0' + d as char
  }

  predicate IsDigit(c: char) { '0' <= c <= '9' }

  function Value(c: char): nat
    requires IsDigit(c)
  {
    c as nat - '0' as nat
  }

  function Print(n: nat): (s: string)
    ensures s != [] && IsDigit(s[0])
  {
    if n < 10 then [Digit(n)] else Print(n / 10) + [Digit(n % 10)]
  }

  /** A sign `+` is accepted; an empty string and any other character are not. */
  function Parse(s: string): Option<nat> {
    if s != [] && s[0] == '+' then Digits(s[1..]) else Digits(s)
  }

  function Digits(s: string): Option<nat> {
    if s == [] then None
    else if !IsDigit(s[|s| - 1]) then None
    else if |s| == 1 then Some(Value(s[0]))
    else match Digits(s[..|s| - 1])
      case None => None
      case Some(n) => Some(10 * n + Value(s[|s| - 1]))
  }

  lemma {:induction false} DigitsOfPrint(n: nat)
    ensures Digits(Print(n)) == Some(n)
  {
    if n >= 10 {
      DigitsOfPrint(n / 10);
      assert Print(n)[..|Print(n)| - 1] == Print(n / 10);
    }
  }

  /** What is printed is read back. */
  lemma {:induction false} RoundTrip(n: nat)
    ensures Parse(Print(n)) == Some(n)
  {
    DigitsOfPrint(n);
  }

  // ---------- place values ----------

  function Pow10(k: nat): nat { if k == 0 then 1 else 10 * Pow10(k - 1) }

  /** The number that a string of decimal digits stands for, each digit counted at its place. */
  function PlaceValue(s: string): nat
    requires AllDigits(s)
  {
    if s == [] then 0 else (s[0] as nat - 48) * Pow10(|s| - 1) + PlaceValue(s[1..])
  }

  predicate AllDigits(s: string) { forall i :: 0 <= i < |s| ==> 48 <= s[i] as nat <= 57 }

  lemma {:induction false} PlaceAppend(s: string, c: char)
    requires AllDigits(s) && 48 <= c as nat <= 57
    ensures AllDigits(s + [c]) && PlaceValue(s + [c]) == 10 * PlaceValue(s) + (c as nat - 48)
  {
    if s == [] {
      assert s + [c] == [c];
      assert Pow10(0) == 1;
    } else {
      PlaceAppend(s[1..], c);
      assert (s + [c])[1..] == s[1..] + [c];
      PlaceTimes(s[0] as nat - 48, Pow10(|s| - 1));
    }
  }

  lemma {:induction false} PlaceTimes(d: nat, p: nat)
    ensures d * (10 * p) == 10 * (d * p)
  {
  }

  lemma {:induction false} AppendDigits(s: string, c: char)
    ensures AllDigits(s + [c]) <==> AllDigits(s) && 48 <= c as nat <= 57
  {
    var t := s + [c];
    assert t[|s|] == c && forall i :: 0 <= i < |s| ==> t[i] == s[i];
  }

  /** Exactly the nonempty strings of digits are read, at their decimal value. */
  lemma {:induction false} DigitsAre(s: string)
    ensures Digits(s) == if s != [] && AllDigits(s) then Some(PlaceValue(s)) else None
  {
    if s != [] {
      var init, c := s[..|s| - 1], s[|s| - 1];
      assert s == init + [c];
      AppendDigits(init, c);
      if AllDigits(s) { PlaceAppend(init, c); }
      if |s| > 1 {
        DigitsAre(init);
      } else {
        assert init == [] && s == [c];
      }
    }
  }

  /** A number is printed as decimal digits of that value, without leading zeros. */
  lemma {:induction false} PrintIsDecimal(n: nat)
    ensures AllDigits(Print(n)) && PlaceValue(Print(n)) == n
    ensures n > 0 ==> Print(n)[0] != '0'
    ensures n == 0 ==> Print(n) == "0"
  {
    DigitsOfPrint(n);
    DigitsAre(Print(n));
    if n >= 10 { PrintIsDecimal(n / 10); }
  }
}
