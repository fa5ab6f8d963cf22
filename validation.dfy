/**
  The per-line decisions of the two numeric prompts: the resolution of an
  animation frame and the frame-count reduction. Each prompt reads one line,
  then either accepts a value or complains and asks again; this module is
  that single decision, from the line to a verdict.
 */
module Validation {
  import opened Wrappers
  import opened PowerOfTwo

  /** Why a line was refused (the prompt prints it and asks again). */
  datatype Complaint = NotANumber | NotPositive | NotPowerOfTwo

  /** The outcome of one line: a value to return, or a complaint after which
      the prompt loops. */
  datatype Verdict<T> = Accept(value: T) | Retry(complaint: Complaint)

  predicate IsDigit(c: char)
  {
    '0' as int <= c as int <= '9' as int
  }

  function DigitValue(c: char): (d: nat)
    requires IsDigit(c)
    ensures d < 10
  {
    c as int - '0' as int
  }

  /** str.isdigit restricted to ASCII: non-empty and made of digits only. */
  predicate IsDigits(s: string)
  {
    |s| > 0 && forall i :: 0 <= i < |s| ==> IsDigit(s[i])
  }

  /** The integer a digit string denotes (leading zeros allowed); it is 0
      exactly when every digit is '0'. */
  function DigitsValue(s: string): (v: nat)
    requires forall i :: 0 <= i < |s| ==> IsDigit(s[i])
    ensures v == 0 <==> forall i :: 0 <= i < |s| ==> s[i] == '0'
  {
    if s == [] then 0 else 10 * DigitsValue(s[..|s| - 1]) + DigitValue(s[|s| - 1])
  }

  /** The decimal spelling of n, the inverse of DigitsValue. */
  function Decimal(n: nat): (s: string)
    ensures IsDigits(s)
    ensures DigitsValue(s) == n
  {
    var last := ['0' + (n % 10) as char];
    if n < 10 then last
    else
      var s := Decimal(n / 10) + last;
      assert s[..|s| - 1] == Decimal(n / 10);
      s
  }

  /** The decision of get_animation_resolution on one line: the empty line
      asks for the default resolution (None); otherwise only a decimal
      positive power of two is accepted. */
  function CheckResolution(line: string): (v: Verdict<Option<nat>>)
    ensures v == Accept(None) <==> line == ""
    ensures v.Accept? && v.value.Some? <==> IsDigits(line) && IsPowerOfTwo(DigitsValue(line))
    ensures v.Accept? && v.value.Some? ==>
              v.value.value >= 1 && IsPowerOfTwo(v.value.value) &&
              IsDigits(line) && v.value.value == DigitsValue(line)
    ensures line != "" && !IsDigits(line) ==> v == Retry(NotANumber)
  {
    if line == "" then Accept(None)
    else if !IsDigits(line) then Retry(NotANumber)
    else
      var n := DigitsValue(line);
      if n <= 0 then Retry(NotPositive)
      else if !IsPowerOfTwo(n) then Retry(NotPowerOfTwo)
      else Accept(Some(n))
  }

  /** The decision of get_frames_count_reduction on one line: the empty line
      means 1 (keep every frame); otherwise a decimal integer of at least 1
      is accepted. */
  function CheckReduction(line: string): (v: Verdict<nat>)
    ensures line == "" ==> v == Accept(1)
    ensures v.Accept? ==> v.value >= 1
    ensures line != "" ==> (v.Accept? <==> IsDigits(line) && DigitsValue(line) >= 1)
    ensures line != "" && v.Accept? ==> IsDigits(line) && v.value == DigitsValue(line)
    ensures line != "" && !IsDigits(line) ==> v == Retry(NotANumber)
  {
    if line == "" then Accept(1)
    else if !IsDigits(line) then Retry(NotANumber)
    else
      var n := DigitsValue(line);
      if n <= 0 then Retry(NotPositive)
      else Accept(n)
  }

  /** Typing the decimal spelling of n at the resolution prompt: 0 is refused
      as not positive, any other non-power of two as such, and a power of two
      comes back unchanged. */
  lemma ResolutionOfDecimal(n: nat)
    ensures CheckResolution(Decimal(n)) ==
              if n == 0 then Retry(NotPositive)
              else if IsPowerOfTwo(n) then Accept(Some(n))
              else Retry(NotPowerOfTwo)
  {
  }

  /** Every power of two 2^k is accepted at the resolution prompt as itself. */
  lemma ResolutionAcceptsEveryPow2(k: nat)
    ensures CheckResolution(Decimal(Pow2(k))) == Accept(Some(Pow2(k)))
  {
    Pow2IsPowerOfTwo(k);
  }

  /** Typing the decimal spelling of n at the reduction prompt: 0 is refused,
      anything else comes back unchanged. */
  lemma ReductionOfDecimal(n: nat)
    ensures CheckReduction(Decimal(n)) == if n == 0 then Retry(NotPositive) else Accept(n)
  {
  }

  /** Leading zeros do not change a verdict on a number. */
  lemma LeadingZeroIgnored(s: string)
    requires IsDigits(s)
    ensures CheckResolution("0" + s) == CheckResolution(s)
    ensures CheckReduction("0" + s) == CheckReduction(s)
  {
    LeadingZeroValue(s);
  }

  lemma {:induction false} LeadingZeroValue(s: string)
    requires forall i :: 0 <= i < |s| ==> IsDigit(s[i])
    ensures DigitsValue("0" + s) == DigitsValue(s)
  {
    if s != [] {
      var t := "0" + s;
      assert t[..|t| - 1] == "0" + s[..|s| - 1];
      LeadingZeroValue(s[..|s| - 1]);
    }
  }
}
