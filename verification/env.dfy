/**
 * Run-time overrides of compile-time constants (dpa_env.h): the variable
 * FI_DPA_<name>, when set, replaces the constant's value. A value that
 * starts with a digit is read as a number; "yes"/"on" and "no"/"off",
 * in any letter case, are 1 and 0; anything else is ignored.
 *
 * The environment lookup is a parameter: the variable's text, or None
 * when it is unset.
 */
module Env {
  import opened Fabric
  import opened Bytes

  /** LONG_MAX on the LP64 targets the provider is built for. */
  const LONG_MAX: nat := 0x7FFF_FFFF_FFFF_FFFF

  predicate IsDigit(c: char)
  {
    '0' <= c <= '9'
  }

  function DigitValue(c: char): (d: nat)
    requires IsDigit(c)
    ensures d < 10
  {
    (c as int) - ('0' as int)
  }

  /** The number of digits the text starts with. */
  function LeadingDigits(s: string): (n: nat)
    ensures n <= |s|
    ensures forall i | 0 <= i < n :: IsDigit(s[i])
    ensures n < |s| ==> !IsDigit(s[n])
  {
    if s == [] || !IsDigit(s[0]) then 0 else 1 + LeadingDigits(s[1..])
  }

  /** The decimal value of a run of digits, most significant first. */
  function Value(ds: string): (v: nat)
    requires forall i | 0 <= i < |ds| :: IsDigit(ds[i])
  {
    if ds == [] then 0 else 10 * Value(ds[..|ds| - 1]) + DigitValue(ds[|ds| - 1])
  }

  /**
   * (unsigned) atoi(s) for text that starts with a digit, as glibc
   * computes it: atoi is (int) strtol, strtol stops at the first
   * non-digit and saturates at LONG_MAX, and the casts to int and then
   * unsigned keep the low 32 bits.
   */
  function Atoi(s: string): (r: nat)
    ensures r < U32_LIMIT
  {
    var ds := s[..LeadingDigits(s)];
    (if Value(ds) > LONG_MAX then LONG_MAX else Value(ds)) % U32_LIMIT
  }

  /** A lower-case ASCII letter for an upper-case one; other characters as they are. */
  function Lower(c: char): char
  {
    if 'A' <= c <= 'Z' then (c as int - 'A' as int + 'a' as int) as char else c
  }

  /** strcasecmp(s, t) == 0. */
  predicate EqualsIgnoreCase(s: string, t: string)
  {
    |s| == |t| && forall i | 0 <= i < |s| :: Lower(s[i]) == Lower(t[i])
  }

  predicate StartsWithDigit(s: string)
  {
    |s| > 0 && IsDigit(s[0])
  }

  predicate SaysOn(s: string)
  {
    EqualsIgnoreCase(s, "yes") || EqualsIgnoreCase(s, "on")
  }

  predicate SaysOff(s: string)
  {
    EqualsIgnoreCase(s, "no") || EqualsIgnoreCase(s, "off")
  }

  /**
   * ENV_OVERRIDE_INT: with overrides disabled, or the variable unset, the
   * value stays; a value starting with a digit gives Atoi of it; yes/on
   * give 1 and no/off give 0, whatever their letter case; any other text
   * leaves the value.
   */
  function OverrideInt(current: nat, env: Option<string>, disabled: bool): (r: nat)
    ensures disabled || env.None? ==> r == current
    ensures !disabled && env.Some? ==>
      var s := env.value;
      && (StartsWithDigit(s) ==> r == Atoi(s))
      && (SaysOn(s) ==> r == 1)
      && (SaysOff(s) ==> r == 0)
      && (!StartsWithDigit(s) && !SaysOn(s) && !SaysOff(s) ==> r == current)
  {
    if disabled || env.None? then current
    else
      var s := env.value;
      var v1 := if StartsWithDigit(s) then Atoi(s) else current;
      var v2 := if SaysOn(s) then 1 else v1;
      if SaysOff(s) then 0 else v2
  }

  /** The decimal digits of a number, most significant first, with no leading zero. */
  function Decimal(n: nat): (s: string)
    ensures |s| > 0 && forall i | 0 <= i < |s| :: IsDigit(s[i])
    decreases n
  {
    var d := (('0' as int) + n % 10) as char;
    if n < 10 then [d] else Decimal(n / 10) + [d]
  }

  lemma {:induction false} ValueDecimal(n: nat)
    ensures Value(Decimal(n)) == n
    decreases n
  {
    var s := Decimal(n);
    if n >= 10 {
      ValueDecimal(n / 10);
      assert s[..|s| - 1] == Decimal(n / 10);
    }
  }

  lemma {:induction false} AllDigitsLead(s: string)
    requires forall i | 0 <= i < |s| :: IsDigit(s[i])
    ensures LeadingDigits(s) == |s|
    decreases |s|
  {
    if s != [] {
      AllDigitsLead(s[1..]);
    }
  }

  /** Text that starts with a digit is neither switch. */
  lemma NumberIsNoSwitch(s: string)
    requires StartsWithDigit(s)
    ensures !SaysOn(s) && !SaysOff(s)
  {
    assert Lower(s[0]) == s[0];
  }

  /** The decimal form of a 32-bit value reads back as that value. */
  lemma AtoiDecimal(n: nat)
    requires n < U32_LIMIT
    ensures Atoi(Decimal(n)) == n
  {
    var s := Decimal(n);
    AllDigitsLead(s);
    assert s[..|s|] == s;
    ValueDecimal(n);
  }

  /** Setting the variable to the decimal form of a 32-bit value overrides the constant with that value. */
  lemma OverrideWithDecimal(current: nat, n: nat)
    requires n < U32_LIMIT
    ensures OverrideInt(current, Some(Decimal(n)), false) == n
  {
    AtoiDecimal(n);
    NumberIsNoSwitch(Decimal(n));
  }

  /** The switches are read in any letter case, and text that is neither a number nor a switch changes nothing. */
  lemma Switches(current: nat)
    ensures OverrideInt(current, Some("YES"), false) == 1 && OverrideInt(current, Some("On"), false) == 1
    ensures OverrideInt(current, Some("OFF"), false) == 0 && OverrideInt(current, Some("no"), false) == 0
    ensures OverrideInt(current, Some("maybe"), false) == current && OverrideInt(current, Some(""), false) == current
  {
    assert EqualsIgnoreCase("YES", "yes");
    assert EqualsIgnoreCase("On", "on");
    assert EqualsIgnoreCase("OFF", "off");
    assert !EqualsIgnoreCase("maybe", "yes") && !EqualsIgnoreCase("maybe", "on");
    assert !EqualsIgnoreCase("maybe", "no") && !EqualsIgnoreCase("maybe", "off");
  }

  /** A number is read up to its first non-digit: "64k" is 64. */
  lemma StopsAtNonDigit(current: nat)
    ensures OverrideInt(current, Some("64k"), false) == 64
  {
    var s := "64k";
    assert LeadingDigits(s[2..]) == 0;
    assert LeadingDigits(s) == 2;
    assert s[..2] == "64";
    assert "64"[..1] == "6" && "6"[..0] == "";
    assert Value("6") == 6;
    assert Value("64") == 64;
    assert !EqualsIgnoreCase(s, "yes") && !EqualsIgnoreCase(s, "on");
    assert !EqualsIgnoreCase(s, "no") && !EqualsIgnoreCase(s, "off");
  }
}
