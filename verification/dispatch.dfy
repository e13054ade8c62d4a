/** Argument dispatch of `SwissMatch.zip_code`, `SwissMatch.zip_codes` and
    `SwissMatch.city` (lib/swissmatch.rb:61-137).

    The Ruby methods inspect the run-time shape of their argument and call one
    of the zip-code index's lookups. The indices themselves are not modelled:
    a dispatch yields a tag naming the lookup and its arguments. */
module Dispatch {

  /** The shapes of Ruby value the `case` expressions distinguish. */
  datatype Arg = Nil | Int(n: int) | Str(s: string) | Other

  /** The index lookup a query resolves to, or the `ArgumentError` it raises. */
  datatype IndexCall =
    | ByOrderingNumber(onrp: int)
    | ByCodeAndAddOn(code: int, addOn: int)
    | ByCodeAndName(code: int, name: string)
    | ByCode(code: int)
    | ByName(name: string)
    | AllZipCodes
    | ArgumentError

  predicate IsDigit(c: char) {
    '0' <= c <= '9'
  }

  predicate AllDigits(s: string) {
    forall i :: 0 <= i < |s| ==> IsDigit(s[i])
  }

  /** `/\A\d{n}\z/`: exactly `n` ASCII digits and nothing else. */
  predicate IsDigits(s: string, n: nat) {
    |s| == n && AllDigits(s)
  }

  function Pow10(n: nat): (r: nat)
    ensures r >= 1
  {
    if n == 0 then 1 else 10 * Pow10(n - 1)
  }

  /** `String#to_i` on a string of ASCII digits: its decimal value. */
  function DigitsValue(s: string): (r: nat)
    requires AllDigits(s)
    ensures r < Pow10(|s|)
  {
    if |s| == 0 then 0
    else DigitsValue(s[..|s| - 1]) * 10 + (s[|s| - 1] as int - '0' as int)
  }

  /** The zero-padded decimal rendering of `n` in `width` digits. */
  function Digits(n: nat, width: nat): (r: string)
    requires n < Pow10(width)
    ensures IsDigits(r, width)
  {
    if width == 0 then ""
    else Digits(n / 10, width - 1) + [('0' as int + n % 10) as char]
  }

  lemma {:induction false} DigitsThenValue(n: nat, width: nat)
    requires n < Pow10(width)
    ensures DigitsValue(Digits(n, width)) == n
  {
    if width > 0 {
      DigitsThenValue(n / 10, width - 1);
      var d := Digits(n, width);
      assert d[..|d| - 1] == Digits(n / 10, width - 1);
    }
  }

  lemma {:induction false} ValueThenDigits(s: string)
    requires AllDigits(s)
    ensures Digits(DigitsValue(s), |s|) == s
  {
    if |s| > 0 {
      var init := s[..|s| - 1];
      ValueThenDigits(init);
      var v := DigitsValue(s);
      assert v / 10 == DigitsValue(init);
      assert s == init + [s[|s| - 1]];
    }
  }

  /** `SwissMatch.zip_code(code, city_or_add_on)`; `code` is the value of
      `code.to_i`. The `case` arms are tried in order, so a two-digit string
      is an add-on and never a name. */
  function ZipCode(code: int, cityOrAddOn: Arg): (r: IndexCall)
    ensures r.ByOrderingNumber? <==> cityOrAddOn.Nil?
    ensures r.ByOrderingNumber? ==> r.onrp == code
    ensures r.ArgumentError? <==> cityOrAddOn.Other?
    ensures r.ByCodeAndAddOn? <==> cityOrAddOn.Int? || (cityOrAddOn.Str? && IsDigits(cityOrAddOn.s, 2))
    ensures r.ByCodeAndAddOn? ==> r.code == code
    ensures r.ByCodeAndAddOn? && cityOrAddOn.Int? ==> r.addOn == cityOrAddOn.n
    ensures r.ByCodeAndAddOn? && cityOrAddOn.Str? ==>
              0 <= r.addOn < 100 && Digits(r.addOn, 2) == cityOrAddOn.s
    ensures r.ByCodeAndName? <==> cityOrAddOn.Str? && !IsDigits(cityOrAddOn.s, 2)
    ensures r.ByCodeAndName? ==> r.code == code && r.name == cityOrAddOn.s
    ensures !(r.ByCode? || r.ByName? || r.AllZipCodes?)
  {
    match cityOrAddOn
    case Nil => ByOrderingNumber(code)
    case Int(n) => ByCodeAndAddOn(code, n)
    case Str(s) =>
      if IsDigits(s, 2) then
        ValueThenDigits(s);
        ByCodeAndAddOn(code, DigitsValue(s))
      else ByCodeAndName(code, s)
    case Other => ArgumentError
  }

  /** `SwissMatch.zip_codes(code_or_name)`. A four-digit string is a code;
      any other string is a name. */
  function ZipCodes(codeOrName: Arg): (r: IndexCall)
    ensures r.AllZipCodes? <==> codeOrName.Nil?
    ensures r.ArgumentError? <==> codeOrName.Other?
    ensures r.ByCode? <==> codeOrName.Int? || (codeOrName.Str? && IsDigits(codeOrName.s, 4))
    ensures r.ByCode? && codeOrName.Int? ==> r.code == codeOrName.n
    ensures r.ByCode? && codeOrName.Str? ==>
              0 <= r.code < 10000 && Digits(r.code, 4) == codeOrName.s
    ensures r.ByName? <==> codeOrName.Str? && !IsDigits(codeOrName.s, 4)
    ensures r.ByName? ==> r.name == codeOrName.s
    ensures !(r.ByOrderingNumber? || r.ByCodeAndAddOn? || r.ByCodeAndName?)
  {
    match codeOrName
    case Int(n) => ByCode(n)
    case Str(s) =>
      if IsDigits(s, 4) then
        ValueThenDigits(s);
        ByCode(DigitsValue(s))
      else ByName(s)
    case Nil => AllZipCodes
    case Other => ArgumentError
  }

  /** `SwissMatch.city(name)`: always a lookup by name, so it agrees with
      `zip_codes` exactly when the name is not a four-digit string. */
  function City(name: string): (r: IndexCall)
    ensures r.ByName? && r.name == name
    ensures r == ZipCodes(Str(name)) <==> !IsDigits(name, 4)
  {
    ByName(name)
  }

  /** An add-on given as an Integer or as its two-digit string selects the
      same record: `zip_code(8000, 0)` and `zip_code(8000, "00")` agree. */
  lemma AddOnStringOrInteger(code: int, addOn: nat)
    requires addOn < 100
    ensures ZipCode(code, Str(Digits(addOn, 2))) == ZipCode(code, Int(addOn))
  {
    DigitsThenValue(addOn, 2);
  }

  /** A code given as an Integer or as its four-digit string lists the same
      zip codes: `zip_codes(8000)` and `zip_codes("8000")` agree. */
  lemma CodeStringOrInteger(code: nat)
    requires code < 10000
    ensures ZipCodes(Str(Digits(code, 4))) == ZipCodes(Int(code))
  {
    DigitsThenValue(code, 4);
  }

  /** With one argument, `zip_code` looks up an ordering number, never a
      code, even when the number has four digits. */
  lemma SingleArgumentIsOrderingNumber(n: int)
    ensures ZipCode(n, Nil) == ByOrderingNumber(n)
    ensures ZipCode(n, Nil) != ZipCodes(Int(n))
  {
  }
}
