/** Transliteration of city names (lib/swissmatch.rb:170-215).

    Each tier rewrites a name in three stages, in this order:
      1. replace every character that is a key of the tier's table by its value
         (`gsub` with a regular expression that is the alternation of the keys);
      2. delete every character that is not a space or an ASCII letter
         (`delete("^ A-Za-z")`);
      3. lower-case what remains (`downcase`).
    Because deletion comes before lower-casing, upper-case accented letters
    such as 'Ä' are not in the table and are deleted rather than folded. */
module Transliteration {

  /** A Ruby Hash from a single character to its replacement text. */
  type Table = map<char, string>

  /** Tier 1: each accented lower-case vowel becomes its base letter. */
  const Transliteration1: Table := map[
    'à' := "a", 'â' := "a", 'ä' := "a",
    'è' := "e", 'é' := "e", 'ê' := "e", 'ë' := "e",
    'ì' := "i", 'î' := "i", 'ï' := "i",
    'ô' := "o", 'ö' := "o",
    'ù' := "u", 'ü' := "u"]

  /** Tier 2: tier 1 merged with German digraphs; as with `Hash#merge`, the
      right-hand entries win. */
  const Transliteration2: Table :=
    Transliteration1 + map['ä' := "ae", 'ö' := "oe", 'ü' := "ue"]

  /** The characters `delete("^ A-Za-z")` keeps. */
  predicate IsKept(c: char) {
    c == ' ' || 'A' <= c <= 'Z' || 'a' <= c <= 'z'
  }

  predicate IsUpper(c: char) {
    'A' <= c <= 'Z'
  }

  /** The characters a transliterated name can contain. */
  predicate IsCanonical(c: char) {
    c == ' ' || 'a' <= c <= 'z'
  }

  predicate IsUmlaut(c: char) {
    c == 'ä' || c == 'ö' || c == 'ü'
  }

  /** ASCII lower-casing of one character. */
  function Lower(c: char): (r: char)
    ensures !IsUpper(r)
    ensures IsKept(c) ==> IsCanonical(r)
    ensures !IsUpper(c) ==> r == c
    ensures IsUpper(c) ==> r as int - c as int == 'a' as int - 'A' as int
  {
    if IsUpper(c) then (c as int - 'A' as int + 'a' as int) as char else c
  }

  /** The replacement text of one character under `table`. */
  function Replace(table: Table, c: char): string {
    if c in table then table[c] else [c]
  }

  /** `gsub(TransMatch, table)`: every table key is a single character, so the
      regular-expression rewrite is a character-by-character replacement. */
  function Substitute(table: Table, s: string): (r: string)
    ensures (forall k | k in table :: |table[k]| == 1) ==> |r| == |s|
  {
    if |s| == 0 then "" else Replace(table, s[0]) + Substitute(table, s[1..])
  }

  /** `delete("^ A-Za-z")`. */
  function DeleteUnkept(s: string): (r: string)
    ensures |r| <= |s|
    ensures forall c :: c in r <==> c in s && IsKept(c)
  {
    if |s| == 0 then ""
    else if IsKept(s[0]) then [s[0]] + DeleteUnkept(s[1..])
    else DeleteUnkept(s[1..])
  }

  /** `downcase`, for the ASCII letters it meets in this pipeline. */
  function Downcase(s: string): (r: string)
    ensures |r| == |s|
    ensures forall i :: 0 <= i < |s| ==> r[i] == Lower(s[i])
  {
    if |s| == 0 then "" else [Lower(s[0])] + Downcase(s[1..])
  }

  /** `SwissMatch.transliterate1`. */
  function Transliterate1(word: string): (r: string)
    ensures |r| <= |word|
    ensures forall i :: 0 <= i < |r| ==> IsCanonical(r[i])
  {
    var kept := DeleteUnkept(Substitute(Transliteration1, word));
    assert forall i :: 0 <= i < |kept| ==> IsKept(kept[i]) by {
      forall i | 0 <= i < |kept| ensures IsKept(kept[i]) {
        assert kept[i] in kept;
      }
    }
    Downcase(kept)
  }

  /** `SwissMatch.transliterate2`. */
  function Transliterate2(word: string): (r: string)
    ensures |r| <= 2 * |word|
    ensures forall i :: 0 <= i < |r| ==> IsCanonical(r[i])
  {
    SubstituteLength(Transliteration2, 2, word);
    var kept := DeleteUnkept(Substitute(Transliteration2, word));
    assert forall i :: 0 <= i < |kept| ==> IsKept(kept[i]) by {
      forall i | 0 <= i < |kept| ensures IsKept(kept[i]) {
        assert kept[i] in kept;
      }
    }
    Downcase(kept)
  }

  /** The substitution grows a string by at most the widest replacement. */
  lemma {:induction false} SubstituteLength(table: Table, w: nat, s: string)
    requires 1 <= w
    requires forall k | k in table :: |table[k]| <= w
    ensures |Substitute(table, s)| <= w * |s|
  {
    if |s| > 0 {
      SubstituteLength(table, w, s[1..]);
      assert |Replace(table, s[0])| <= w;
      assert w * |s| == w + w * |s[1..]|;
    }
  }

  // ---------------------------------------------------------------------------
  // Each stage, and so each tier, distributes over concatenation.

  lemma {:induction false} SubstituteAppend(table: Table, a: string, b: string)
    ensures Substitute(table, a + b) == Substitute(table, a) + Substitute(table, b)
  {
    if |a| > 0 {
      assert (a + b)[1..] == a[1..] + b;
      SubstituteAppend(table, a[1..], b);
    } else {
      assert a + b == b;
    }
  }

  lemma {:induction false} DeleteUnkeptAppend(a: string, b: string)
    ensures DeleteUnkept(a + b) == DeleteUnkept(a) + DeleteUnkept(b)
  {
    if |a| > 0 {
      assert (a + b)[1..] == a[1..] + b;
      DeleteUnkeptAppend(a[1..], b);
    } else {
      assert a + b == b;
    }
  }

  lemma DowncaseAppend(a: string, b: string)
    ensures Downcase(a + b) == Downcase(a) + Downcase(b)
  {
  }

  /** Transliteration acts on each character independently. */
  lemma Transliterate1Append(a: string, b: string)
    ensures Transliterate1(a + b) == Transliterate1(a) + Transliterate1(b)
  {
    SubstituteAppend(Transliteration1, a, b);
    DeleteUnkeptAppend(Substitute(Transliteration1, a), Substitute(Transliteration1, b));
    DowncaseAppend(DeleteUnkept(Substitute(Transliteration1, a)), DeleteUnkept(Substitute(Transliteration1, b)));
  }

  lemma Transliterate2Append(a: string, b: string)
    ensures Transliterate2(a + b) == Transliterate2(a) + Transliterate2(b)
  {
    SubstituteAppend(Transliteration2, a, b);
    DeleteUnkeptAppend(Substitute(Transliteration2, a), Substitute(Transliteration2, b));
    DowncaseAppend(DeleteUnkept(Substitute(Transliteration2, a)), DeleteUnkept(Substitute(Transliteration2, b)));
  }

  // ---------------------------------------------------------------------------
  // Idempotence: a transliterated name is a fixed point of every stage.

  lemma {:induction false} SubstituteFixesUntabled(table: Table, s: string)
    requires forall i :: 0 <= i < |s| ==> s[i] !in table
    ensures Substitute(table, s) == s
  {
    if |s| > 0 {
      SubstituteFixesUntabled(table, s[1..]);
    }
  }

  lemma {:induction false} DeleteUnkeptFixesKept(s: string)
    requires forall i :: 0 <= i < |s| ==> IsKept(s[i])
    ensures DeleteUnkept(s) == s
  {
    if |s| > 0 {
      DeleteUnkeptFixesKept(s[1..]);
    }
  }

  lemma DowncaseFixesLower(s: string)
    requires forall i :: 0 <= i < |s| ==> !IsUpper(s[i])
    ensures Downcase(s) == s
  {
  }

  /** No table key is a canonical character: the keys are all accented. */
  lemma CanonicalNotInTables(c: char)
    requires IsCanonical(c)
    ensures c !in Transliteration1 && c !in Transliteration2
  {
  }

  /** A string of spaces and `a`-`z` letters is a fixed point of both tiers. */
  lemma CanonicalWordFixed(w: string)
    requires forall i :: 0 <= i < |w| ==> IsCanonical(w[i])
    ensures Transliterate1(w) == w && Transliterate2(w) == w
  {
    forall i | 0 <= i < |w| ensures w[i] !in Transliteration1 && w[i] !in Transliteration2 {
      CanonicalNotInTables(w[i]);
    }
    SubstituteFixesUntabled(Transliteration1, w);
    SubstituteFixesUntabled(Transliteration2, w);
    DeleteUnkeptFixesKept(w);
    DowncaseFixesLower(w);
  }

  lemma Transliterate1Idempotent(s: string)
    ensures Transliterate1(Transliterate1(s)) == Transliterate1(s)
  {
    CanonicalWordFixed(Transliterate1(s));
  }

  lemma Transliterate2Idempotent(s: string)
    ensures Transliterate2(Transliterate2(s)) == Transliterate2(s)
  {
    CanonicalWordFixed(Transliterate2(s));
  }

  // ---------------------------------------------------------------------------
  // The two tiers differ only on ä, ö and ü.

  lemma {:induction false} SubstituteTiersAgree(s: string)
    requires forall i :: 0 <= i < |s| ==> !IsUmlaut(s[i])
    ensures Substitute(Transliteration1, s) == Substitute(Transliteration2, s)
  {
    if |s| > 0 {
      assert Replace(Transliteration1, s[0]) == Replace(Transliteration2, s[0]);
      SubstituteTiersAgree(s[1..]);
    }
  }

  lemma TiersAgreeWithoutUmlauts(s: string)
    requires forall i :: 0 <= i < |s| ==> !IsUmlaut(s[i])
    ensures Transliterate1(s) == Transliterate2(s)
  {
    SubstituteTiersAgree(s);
  }

  /** The base vowel of an umlaut. */
  function BaseVowel(c: char): char
    requires IsUmlaut(c)
  {
    if c == 'ä' then 'a' else if c == 'ö' then 'o' else 'u'
  }

  lemma UmlautTiers(c: char)
    requires IsUmlaut(c)
    ensures Transliterate1([c]) == [BaseVowel(c)]
    ensures Transliterate2([c]) == [BaseVowel(c), 'e']
  {
    assert [c][1..] == "";
    var e := [BaseVowel(c), 'e'];
    assert Substitute(Transliteration2, [c]) == e;
    DeleteUnkeptFixesKept(e);
    DowncaseFixesLower(e);
  }

  // ---------------------------------------------------------------------------
  // An independent per-character description of both tiers.

  /** What tier 1 makes of one character. */
  function Expected1(c: char): string {
    if c == 'à' || c == 'â' || c == 'ä' then "a"
    else if c == 'è' || c == 'é' || c == 'ê' || c == 'ë' then "e"
    else if c == 'ì' || c == 'î' || c == 'ï' then "i"
    else if c == 'ô' || c == 'ö' then "o"
    else if c == 'ù' || c == 'ü' then "u"
    else if c == ' ' || 'a' <= c <= 'z' then [c]
    else if 'A' <= c <= 'Z' then [(c as int + 32) as char]
    else ""
  }

  /** What tier 2 makes of one character. */
  function Expected2(c: char): string {
    if c == 'ä' then "ae"
    else if c == 'ö' then "oe"
    else if c == 'ü' then "ue"
    else Expected1(c)
  }

  /** Concatenation of `f` applied to every character of `s`. */
  function FlatMap(f: char -> string, s: string): string {
    if |s| == 0 then "" else f(s[0]) + FlatMap(f, s[1..])
  }

  lemma Transliterate1Char(c: char)
    ensures Transliterate1([c]) == Expected1(c)
  {
    assert [c][1..] == "";
  }

  lemma Transliterate2Char(c: char)
    ensures Transliterate2([c]) == Expected2(c)
  {
    assert [c][1..] == "";
    if IsUmlaut(c) {
      UmlautTiers(c);
    } else {
      TiersAgreeWithoutUmlauts([c]);
      Transliterate1Char(c);
    }
  }

  lemma {:induction false} Transliterate1IsPerCharacter(s: string)
    ensures Transliterate1(s) == FlatMap(Expected1, s)
  {
    if |s| > 0 {
      assert s == [s[0]] + s[1..];
      Transliterate1Append([s[0]], s[1..]);
      Transliterate1Char(s[0]);
      Transliterate1IsPerCharacter(s[1..]);
    }
  }

  lemma {:induction false} Transliterate2IsPerCharacter(s: string)
    ensures Transliterate2(s) == FlatMap(Expected2, s)
  {
    if |s| > 0 {
      assert s == [s[0]] + s[1..];
      Transliterate2Append([s[0]], s[1..]);
      Transliterate2Char(s[0]);
      Transliterate2IsPerCharacter(s[1..]);
    }
  }

  /** A character that is neither kept nor in a table disappears: this is
      the fate of upper-case accented letters such as 'Ä' and 'É'. */
  lemma UnlistedCharacterDeleted(c: char)
    requires !IsKept(c) && c !in Transliteration2
    ensures Transliterate1([c]) == "" && Transliterate2([c]) == ""
  {
    Transliterate1Char(c);
    Transliterate2Char(c);
  }

  /** An upper-case umlaut is deleted, not folded. */
  lemma UpperUmlautExample()
    ensures Transliterate1("Ä") == "" && Transliterate2("Ä") == ""
  {
    UnlistedCharacterDeleted('Ä');
  }
}
