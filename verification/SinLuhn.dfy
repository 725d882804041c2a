/**
 The SIN check (app/core/validation.py): Luhn mod 10 with the doubled positions counted
 from the left, and the clean-up before it.
 */
module SinLuhn {
  import opened Common

  type Digit = d: int | 0 <= d <= 9

  function Doubled(d: Digit): int {
    if 2 * d > 9 then 2 * d - 9 else 2 * d
  }

  function Weight(i: nat, d: Digit): int {
    if i % 2 == 1 then Doubled(d) else d
  }

  function LuhnSum(digits: seq<Digit>): int {
    if digits == [] then 0
    else LuhnSum(digits[..|digits| - 1]) + Weight(|digits| - 1, digits[|digits| - 1])
  }

  predicate LuhnValid(digits: seq<Digit>) {
    LuhnSum(digits) % 10 == 0
  }

  method CheckLuhn(digits: seq<Digit>) returns (valid: bool)
    ensures valid == LuhnValid(digits)
  {
    var total := 0;
    for i := 0 to |digits|
      invariant total == LuhnSum(digits[..i])
    {
      assert digits[..i + 1][..i] == digits[..i];
      var n: int := digits[i];
      if i % 2 == 1 {
        n := n * 2;
        if n > 9 {
          n := n - 9;
        }
      }
      total := total + n;
    }
    assert digits[..|digits|] == digits;
    valid := total % 10 == 0;
  }

  // --------------------------------------------------------------- error detection

  lemma {:induction false} SumAfterChange(s: seq<Digit>, i: nat, d: Digit)
    requires i < |s|
    ensures LuhnSum(s[i := d]) == LuhnSum(s) - Weight(i, s[i]) + Weight(i, d)
  {
    var n := |s| - 1;
    if i == n {
      assert s[i := d][..n] == s[..n];
    } else {
      SumAfterChange(s[..n], i, d);
      assert s[i := d][..n] == s[..n][i := d];
    }
  }

  lemma DoublingPermutesDigits(a: Digit, b: Digit)
    ensures 0 <= Doubled(a) <= 9
    ensures Doubled(a) == Doubled(b) <==> a == b
  {
  }

  lemma SmallMoveBreaksTheSum(sum: int, delta: int)
    requires sum % 10 == 0 && -9 <= delta <= 9
    ensures (sum + delta) % 10 == 0 <==> delta == 0
  {
  }

  /** In an accepted number no single digit can be changed without rejection. */
  lemma SingleDigitErrorsAreCaught(s: seq<Digit>, i: nat, d: Digit)
    requires i < |s| && LuhnValid(s)
    ensures LuhnValid(s[i := d]) <==> d == s[i]
  {
    SumAfterChange(s, i, d);
    DoublingPermutesDigits(s[i], d);
    DoublingPermutesDigits(d, s[i]);
    SmallMoveBreaksTheSum(LuhnSum(s), Weight(i, d) - Weight(i, s[i]));
  }

  function Swapped(s: seq<Digit>, i: nat): seq<Digit>
    requires i + 1 < |s|
  {
    s[i := s[i + 1]][i + 1 := s[i]]
  }

  /** Of the adjacent transpositions only that of 0 and 9 (and of equal digits) goes unnoticed. */
  lemma AdjacentSwapsAreCaught(s: seq<Digit>, i: nat)
    requires i + 1 < |s| && LuhnValid(s)
    ensures LuhnValid(Swapped(s, i)) <==> s[i] == s[i + 1] || {s[i], s[i + 1]} == {0, 9}
  {
    var a, b := s[i], s[i + 1];
    SumAfterChange(s, i, b);
    SumAfterChange(s[i := b], i + 1, a);
    SwapDelta(a, b);
    SwapDelta(b, a);
    SmallMoveBreaksTheSum(LuhnSum(s), Weight(i, b) - Weight(i, a) + Weight(i + 1, a) - Weight(i + 1, b));
  }

  // Exactly one of the two positions doubles, so the sum moves by this difference.
  lemma SwapDelta(a: Digit, b: Digit)
    ensures -9 <= (Doubled(a) - a) - (Doubled(b) - b) <= 9
    ensures Doubled(a) - a == Doubled(b) - b <==> a == b || {a, b} == {0, 9}
  {
  }

  // ----------------------------------------------------- the standard, from the right

  function DigitSum(n: nat): nat {
    if n < 10 then n else n % 10 + DigitSum(n / 10)
  }

  /**
   Every second digit doubled and its digits added up, counting from the rightmost one
   (position 0, which is not doubled) to the left.
   */
  function SumFromRight(s: seq<Digit>, position: nat): int {
    if s == [] then 0
    else
      var d: int := s[|s| - 1];
      (if position % 2 == 1 then DigitSum(2 * d) else d) + SumFromRight(s[..|s| - 1], position + 1)
  }

  lemma DoubledIsDigitSum(d: Digit)
    ensures Doubled(d) == DigitSum(2 * (d as int))
  {
    var n: nat := 2 * (d as int);
    assert n >= 10 ==> n / 10 == 1 && n % 10 == n - 10;
  }

  lemma {:induction false} DirectionsAgree(s: seq<Digit>, position: nat)
    requires (|s| + position) % 2 == 1
    ensures SumFromRight(s, position) == LuhnSum(s)
  {
    if s != [] {
      DoubledIsDigitSum(s[|s| - 1]);
      DirectionsAgree(s[..|s| - 1], position + 1);
    }
  }

  /** For odd lengths, 9 among them, counting from the left is the check of Annex B of ISO/IEC 7812-1. */
  lemma OddLengthsMatchTheStandard(s: seq<Digit>)
    requires |s| % 2 == 1
    ensures LuhnValid(s) <==> SumFromRight(s, 0) % 10 == 0
  {
    DirectionsAgree(s, 0);
  }

  function Zeros(n: nat): seq<Digit> {
    seq(n, _ => 0)
  }

  lemma {:induction false} ZerosWeighNothing(n: nat, position: nat)
    ensures LuhnSum(Zeros(n)) == 0 && SumFromRight(Zeros(n), position) == 0
  {
    if n > 0 {
      ZerosWeighNothing(n - 1, position + 1);
      assert Zeros(n)[..n - 1] == Zeros(n - 1);
    }
  }

  /** For every even length but zero the two are different checks. */
  lemma EvenLengthsDiffer(n: nat)
    requires n > 0 && n % 2 == 0
    ensures exists s: seq<Digit> :: |s| == n && !LuhnValid(s) && SumFromRight(s, 0) % 10 == 0
  {
    // 8 is doubled from the left, 1 from the right.
    var zeros := Zeros(n - 2);
    var s, init := zeros + [1, 8], zeros + [1];
    assert s[..n - 1] == init && init[..n - 2] == zeros;
    ZerosWeighNothing(n - 2, 2);
    assert LuhnSum(init) == 1 && SumFromRight(init, 1) == 2;
    assert LuhnSum(s) == 8 && SumFromRight(s, 0) == 10;
  }

  // -------------------------------------------------------------------- normalization

  datatype HttpError = BadRequest | Unprocessable

  /** The character classes of the regular expressions: digit value (or none) and white space. */
  datatype Alphabet = Alphabet(digit: char -> Option<Digit>, space: char -> bool)

  predicate IsControl(c: char) {
    var n := c as int;
    n <= 0x08 || 0x0b <= n <= 0x0c || 0x0e <= n <= 0x1f || 0x7f <= n <= 0x9f
  }

  /** No digit is white space or a control character. */
  ghost predicate DigitsArePrintable(alphabet: Alphabet) {
    forall c {:trigger alphabet.digit(c)} :: alphabet.digit(c).Some? ==> !alphabet.space(c) && !IsControl(c)
  }

  function StripLeft(alphabet: Alphabet, s: string): string {
    if s != "" && alphabet.space(s[0]) then StripLeft(alphabet, s[1..]) else s
  }

  function StripRight(alphabet: Alphabet, s: string): string {
    if s != "" && alphabet.space(s[|s| - 1]) then StripRight(alphabet, s[..|s| - 1]) else s
  }

  function DropControl(s: string): string {
    if s == "" then ""
    else DropControl(s[..|s| - 1]) + if IsControl(s[|s| - 1]) then "" else [s[|s| - 1]]
  }

  function Sanitize(alphabet: Alphabet, s: string, maxLength: nat): Result<string, HttpError> {
    var cleaned := DropControl(StripRight(alphabet, StripLeft(alphabet, s)));
    if |cleaned| > maxLength then Err(BadRequest) else Ok(cleaned)
  }

  function KeepDigits(alphabet: Alphabet, s: string): string {
    if s == "" then ""
    else KeepDigits(alphabet, s[..|s| - 1]) + if alphabet.digit(s[|s| - 1]).Some? then [s[|s| - 1]] else ""
  }

  predicate AllDigits(alphabet: Alphabet, s: string) {
    forall i :: 0 <= i < |s| ==> alphabet.digit(s[i]).Some?
  }

  function DigitValues(alphabet: Alphabet, s: string): seq<Digit>
    requires AllDigits(alphabet, s)
  {
    seq(|s|, i requires 0 <= i < |s| => alphabet.digit(s[i]).value)
  }

  lemma {:induction false} KeptAreDigits(alphabet: Alphabet, s: string)
    ensures AllDigits(alphabet, KeepDigits(alphabet, s))
  {
    if s != "" {
      KeptAreDigits(alphabet, s[..|s| - 1]);
    }
  }

  function NormalizeSin(alphabet: Alphabet, sin: string): Result<string, HttpError> {
    match Sanitize(alphabet, sin, 11)
    case Err(error) => Err(error)
    case Ok(cleaned) =>
      var digits := KeepDigits(alphabet, cleaned);
      KeptAreDigits(alphabet, cleaned);
      if |digits| != 9 || !LuhnValid(DigitValues(alphabet, digits)) then Err(Unprocessable) else Ok(digits)
  }

  lemma {:induction false} KeepLeft(alphabet: Alphabet, a: char, s: string)
    ensures KeepDigits(alphabet, [a] + s) == (if alphabet.digit(a).Some? then [a] else "") + KeepDigits(alphabet, s)
  {
    if s == "" {
      assert [a] + s == [a] && [a][..0] == "";
    } else {
      KeepLeft(alphabet, a, s[..|s| - 1]);
      assert ([a] + s)[..|s|] == [a] + s[..|s| - 1];
    }
  }

  lemma {:induction false} StripLeftKeepsDigits(alphabet: Alphabet, s: string)
    requires DigitsArePrintable(alphabet)
    ensures KeepDigits(alphabet, StripLeft(alphabet, s)) == KeepDigits(alphabet, s)
  {
    if s != "" && alphabet.space(s[0]) {
      StripLeftKeepsDigits(alphabet, s[1..]);
      KeepLeft(alphabet, s[0], s[1..]);
      assert alphabet.digit(s[0]).None?;
      assert s == [s[0]] + s[1..];
    }
  }

  lemma {:induction false} StripRightKeepsDigits(alphabet: Alphabet, s: string)
    requires DigitsArePrintable(alphabet)
    ensures KeepDigits(alphabet, StripRight(alphabet, s)) == KeepDigits(alphabet, s)
  {
    if s != "" && alphabet.space(s[|s| - 1]) {
      StripRightKeepsDigits(alphabet, s[..|s| - 1]);
      assert alphabet.digit(s[|s| - 1]).None?;
    }
  }

  /** Dropped are the control characters other than tab, line feed and carriage return. */
  lemma {:induction false} DropControlKeepsText(s: string, c: char)
    ensures c in DropControl(s)
       <==> c in s && (var n := c as int; n == 9 || n == 10 || n == 13 || 32 <= n < 127 || n >= 160)
  {
    if s != "" {
      var init, last := s[..|s| - 1], s[|s| - 1];
      DropControlKeepsText(init, c);
      assert s == init + [last];
    }
  }

  lemma {:induction false} DropControlKeepsDigits(alphabet: Alphabet, s: string)
    requires DigitsArePrintable(alphabet)
    ensures KeepDigits(alphabet, DropControl(s)) == KeepDigits(alphabet, s)
  {
    if s != "" {
      var init, last := s[..|s| - 1], s[|s| - 1];
      DropControlKeepsDigits(alphabet, init);
      if IsControl(last) {
        assert alphabet.digit(last).None?;
        assert DropControl(s) == DropControl(init);
      } else {
        assert (DropControl(init) + [last])[..|DropControl(init)|] == DropControl(init);
      }
    }
  }

  /** Clean-up touches no digit: the answer is the input's own nine digits, or there is none. */
  lemma NormalizedSinIsItsDigits(alphabet: Alphabet, sin: string, answer: string)
    requires DigitsArePrintable(alphabet)
    ensures AllDigits(alphabet, KeepDigits(alphabet, sin))
    ensures NormalizeSin(alphabet, sin) == Ok(answer)
       <==> && Sanitize(alphabet, sin, 11).Ok?
            && answer == KeepDigits(alphabet, sin) && |answer| == 9
            && LuhnValid(DigitValues(alphabet, KeepDigits(alphabet, sin)))
    ensures NormalizeSin(alphabet, sin) == Err(BadRequest)
       <==> |DropControl(StripRight(alphabet, StripLeft(alphabet, sin)))| > 11
  {
    KeptAreDigits(alphabet, sin);
    var left := StripLeft(alphabet, sin);
    StripLeftKeepsDigits(alphabet, sin);
    StripRightKeepsDigits(alphabet, left);
    DropControlKeepsDigits(alphabet, StripRight(alphabet, left));
  }

  lemma {:induction false} DigitsAreClean(alphabet: Alphabet, s: string)
    requires DigitsArePrintable(alphabet) && AllDigits(alphabet, s)
    ensures KeepDigits(alphabet, s) == s && DropControl(s) == s
    ensures StripLeft(alphabet, s) == s && StripRight(alphabet, s) == s
  {
    if s != "" {
      var init, last := s[..|s| - 1], s[|s| - 1];
      DigitsAreClean(alphabet, init);
      assert s == init + [last];
      assert alphabet.digit(s[0]).Some? && alphabet.digit(last).Some?;
    }
  }

  /** Normalizing an accepted SIN again returns it unchanged. */
  lemma NormalizeSinIsAFixpoint(alphabet: Alphabet, sin: string)
    requires DigitsArePrintable(alphabet) && NormalizeSin(alphabet, sin).Ok?
    ensures NormalizeSin(alphabet, NormalizeSin(alphabet, sin).value) == NormalizeSin(alphabet, sin)
  {
    var answer := NormalizeSin(alphabet, sin).value;
    NormalizedSinIsItsDigits(alphabet, sin, answer);
    DigitsAreClean(alphabet, answer);
  }
}
