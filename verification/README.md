# SwissMatch name transliteration and query dispatch, in Dafny

SwissMatch resolves Swiss zip codes, communities and cantons. This project
models the logic that lives in `lib/swissmatch.rb` itself:

- **Transliteration** (module `Transliteration`): `transliterate1` and
  `transliterate2`, which turn a city name into the accent-free, lower-case
  form used to match names. Each runs three stages in order: replace accented
  lower-case vowels through a fixed table, delete everything that is not a
  space or an ASCII letter, lower-case the rest. Tier 2 is tier 1 with ä, ö
  and ü expanded to ae, oe and ue. The tables are `map<char, string>` values,
  and tier 2 is built from tier 1 with map union, as `Hash#merge` builds it.
- **Argument dispatch** (module `Dispatch`): the `case` expressions of
  `zip_code` and `zip_codes`, which decide which zip-code index lookup a call
  performs, and `city`, which always looks up by name. Ruby values are reduced to `Nil | Int | Str | Other`, and
  the result is a tag naming the lookup (`ByOrderingNumber`,
  `ByCodeAndAddOn`, `ByCodeAndName`, `ByCode`, `ByName`, `AllZipCodes`) or
  `ArgumentError`.
- **`cities_for_zip_code`** (module `Cities`): it filters the records of one
  code by type, projects one locale's name, and removes duplicates with
  `uniq`, keeping first occurrences. The result of `by_code` is a parameter of
  type `Option<seq<ZipRecord>>`.

The index classes (`ZipCodes`, `Communities`, `Cantons`) are not part of this
model. Their lookups appear only as the tags above.

Two behaviours of the code worth noting:

- A string of full-width or other non-ASCII digits is not a code. Ruby's `\d`
  matches ASCII digits only, so such a string reaches the `String` arm and is
  looked up as a name.
- A lone argument to `zip_code` is always passed to `by_ordering_number`,
  whatever its length.

## Model

| member | source | states |
|---|---|---|
| Transliteration.Substitute | lib/swissmatch.rb:197-203 | the regular-expression rewrite with single-character keys keeps the length when every replacement is one character |
| Transliteration.DeleteUnkept | lib/swissmatch.rb:208 | `delete("^ A-Za-z")` never lengthens a string; a character survives exactly when it occurs in the input and is a space or ASCII letter |
| Transliteration.Downcase | lib/swissmatch.rb:208 | `downcase` keeps the length and lower-cases each character in place |
| Transliteration.Transliterate1 | lib/swissmatch.rb:207-209 | the output holds only spaces and `a`-`z` and is no longer than the input |
| Transliteration.Transliterate2 | lib/swissmatch.rb:213-215 | the output holds only spaces and `a`-`z` and is at most twice as long as the input |
| Transliteration.SubstituteLength | lib/swissmatch.rb:191-195 | with replacements of at most `w` characters, substitution grows a string at most `w`-fold |
| Transliteration.SubstituteAppend | lib/swissmatch.rb:199 | the table rewrite distributes over concatenation |
| Transliteration.DeleteUnkeptAppend | lib/swissmatch.rb:208 | deletion distributes over concatenation |
| Transliteration.DowncaseAppend | lib/swissmatch.rb:208 | lower-casing distributes over concatenation |
| Transliteration.Transliterate1Append | lib/swissmatch.rb:207-209 | tier 1 of `a + b` is tier 1 of `a` followed by tier 1 of `b` |
| Transliteration.Transliterate2Append | lib/swissmatch.rb:213-215 | tier 2 of `a + b` is tier 2 of `a` followed by tier 2 of `b` |
| Transliteration.SubstituteFixesUntabled | lib/swissmatch.rb:199-203 | a string with no table key is left unchanged by the rewrite |
| Transliteration.DeleteUnkeptFixesKept | lib/swissmatch.rb:208 | a string of spaces and ASCII letters is left unchanged by the deletion |
| Transliteration.DowncaseFixesLower | lib/swissmatch.rb:208 | a string without upper-case ASCII letters is left unchanged by `downcase` |
| Transliteration.CanonicalNotInTables | lib/swissmatch.rb:172-195 | no space or `a`-`z` letter is a key of either table |
| Transliteration.CanonicalWordFixed | lib/swissmatch.rb:207-215 | a string of spaces and `a`-`z` letters is left unchanged by both tiers |
| Transliteration.Transliterate1Idempotent | lib/swissmatch.rb:207-209 | applying tier 1 to its own output returns that output |
| Transliteration.Transliterate2Idempotent | lib/swissmatch.rb:213-215 | applying tier 2 to its own output returns that output |
| Transliteration.SubstituteTiersAgree | lib/swissmatch.rb:191-195 | the two tables rewrite every string without ä, ö, ü identically |
| Transliteration.TiersAgreeWithoutUmlauts | lib/swissmatch.rb:172-215 | on any string without ä, ö, ü the two tiers give the same result |
| Transliteration.UmlautTiers | lib/swissmatch.rb:172-195 | ä, ö, ü become a, o, u under tier 1 and ae, oe, ue under tier 2 |
| Transliteration.Transliterate1Char | lib/swissmatch.rb:172-209 | tier 1 of one character agrees with an independent per-character description: accented vowels fold, ASCII letters lower-case, spaces stay, all else vanishes |
| Transliteration.Transliterate2Char | lib/swissmatch.rb:189-215 | tier 2 of one character agrees with the per-character description with umlauts expanded |
| Transliteration.Transliterate1IsPerCharacter | lib/swissmatch.rb:207-209 | tier 1 of a string is the concatenation of the per-character descriptions of its characters |
| Transliteration.Transliterate2IsPerCharacter | lib/swissmatch.rb:213-215 | tier 2 of a string is the concatenation of the per-character descriptions of its characters |
| Transliteration.UnlistedCharacterDeleted | lib/swissmatch.rb:207-215 | a character that is neither in the tables nor a space or ASCII letter is deleted by both tiers, even an upper-case accented vowel |
| Transliteration.UpperUmlautExample | lib/swissmatch.rb:208 | `Ä` is deleted rather than folded, because deletion runs before `downcase` |
| Dispatch.DigitsValue | lib/swissmatch.rb:69-70 | `to_i` of an `n`-digit string is below 10^n |
| Dispatch.DigitsThenValue | lib/swissmatch.rb:121-122 | reading back the zero-padded rendering of a number gives the number |
| Dispatch.ValueThenDigits | lib/swissmatch.rb:121-122 | rendering the value of a digit string at its width gives the string back, leading zeros included |
| Dispatch.ZipCode | lib/swissmatch.rb:117-128 | `nil` exactly gives an ordering-number lookup on `code`; an Integer or a two-digit string exactly gives a code-and-add-on lookup, with the add-on below 100 and rendering back to the string; any other string exactly gives a code-and-name lookup; any other value exactly raises `ArgumentError` |
| Dispatch.ZipCodes | lib/swissmatch.rb:67-78 | an Integer or four-digit string exactly gives a by-code lookup, with the code below 10000 and rendering back to the string; any other string exactly gives a by-name lookup; `nil` exactly gives the whole collection; any other value exactly raises `ArgumentError` |
| Dispatch.AddOnStringOrInteger | lib/swissmatch.rb:121-122 | an add-on given as an Integer and as its two-digit string selects the same lookup |
| Dispatch.CodeStringOrInteger | lib/swissmatch.rb:69-70 | a code given as an Integer and as its four-digit string selects the same lookup |
| Dispatch.City | lib/swissmatch.rb:135-137 | `city(name)` always looks up `name` itself by name, even a four-digit one, so it does the same lookup as `zip_codes(name)` exactly when the name is not four digits |
| Dispatch.SingleArgumentIsOrderingNumber | lib/swissmatch.rb:117-120 | with one argument, `zip_code` looks up an ordering number and never a code |
| Cities.Uniq | lib/swissmatch.rb:162 | `uniq` keeps exactly the elements of its input, without duplicates |
| Cities.SelectTypes | lib/swissmatch.rb:152 | the type filter keeps exactly the records whose type is in `only_types`, and keeps every record when `only_types` is `nil` |
| Cities.SelectTypesAppend | lib/swissmatch.rb:152 | the filter distributes over concatenation, so admitted records keep their original order |
| Cities.Project | lib/swissmatch.rb:153-160 | the projection yields, position by position, the selected locale's name of each record |
| Cities.CitiesForZipCode | lib/swissmatch.rb:149-163 | a `nil` lookup gives `[]`; otherwise an unknown locale raises `ArgumentError`, and a known one gives a duplicate-free list whose members are exactly the locale names of the admitted records |
| Cities.UniqKeepsFirstOccurrenceOrder | lib/swissmatch.rb:162 | `uniq` lists the distinct elements in the order they first occur |
| Cities.ProjectDefaultIsNative | lib/swissmatch.rb:154 | projecting with `nil` and with `:native` gives the same names |
| Cities.DefaultLocaleIsNative | lib/swissmatch.rb:153-154 | `cities_for_zip_code` gives the same result for locale `nil` and `:native` |
| Cities.CitiesInFirstOccurrenceOrder | lib/swissmatch.rb:149-162 | for a known locale, the names come out in the order their first admitted record appears |

## Left out

- `load` and the `DataFiles` loader (lib/swissmatch.rb:165-168) do file input. The loader is not part of this model.
- The module-level `@data` and the `directory_service` accessor (lib/swissmatch.rb:33-43) are global state. The model passes the result of `by_code` to `cities_for_zip_code` as a parameter instead.
- `canton`, `cantons`, `community` and `communities` (lib/swissmatch.rb:45-59) only delegate to the index classes, which are not part of this model.
- The index lookups (`by_code`, `by_name`, `by_ordering_number`, `by_code_and_add_on`, `by_code_and_name`) are not part of this model. Dispatch yields a tag naming the lookup instead of its result.
- The comment that a combined six-digit number such as 800000 finds a zip code by code and add-on (lib/swissmatch.rb:86, 101-102) is not modelled. This file passes such a number unchanged to `by_ordering_number`.
- Dispatch.ZipCode: the first argument is taken as the integer `code.to_i` has already produced. Ruby's `String#to_i` parsing (signs, whitespace, underscores, trailing text) is not modelled.
- Dispatch.ZipCode: every value that is not `nil`, an Integer or a String is `Other` and raises `ArgumentError`. In Ruby a Symbol such as `:"12"` also matches the two-digit regular expression, and its missing `to_i` raises `NoMethodError` instead.
- Dispatch.ZipCodes: Symbols are folded into `Other` in the same way. A Symbol such as `:"8000"` would match the four-digit regular expression in Ruby and then fail in `to_i`.
- Transliteration.Downcase: only ASCII letters are lower-cased. Ruby's `downcase` also maps other Unicode letters, but only spaces and ASCII letters reach it in this pipeline.
- Unicode normalisation is not modelled. Strings are sequences of code points exactly as given, so a decomposed accent is an ordinary character and gets deleted.
- Cities.CitiesForZipCode: each locale name of a record is a string. A `nil` name, which `uniq` would treat as a value of its own, is not modelled. An `only_types` of `false` (falsy, like `nil`) is not modelled either.
