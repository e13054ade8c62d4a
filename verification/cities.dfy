/** `SwissMatch.cities_for_zip_code` (lib/swissmatch.rb:139-163): the
    distinct names, in one locale, of the zip codes sharing a four-digit code,
    optionally restricted to some zip-code types. */
module Cities {
  import opened Options

  /** The attributes of a `SwissMatch::ZipCode` this operation reads. */
  datatype ZipRecord = ZipRecord(
    kind: int,        // `type`
    name: string,     // native name
    nameDe: string,
    nameFr: string,
    nameIt: string,
    nameRt: string)

  /** The `locale` argument: `nil`, one of the five symbols, or anything else. */
  datatype Locale = DefaultLocale | Native | De | Fr | It | Rt | UnknownLocale

  datatype CitiesResult = Names(names: seq<string>) | InvalidLocale

  predicate NoDuplicates<T(==)>(s: seq<T>) {
    forall i, j :: 0 <= i < j < |s| ==> s[i] != s[j]
  }

  /** The index of the first occurrence of `x` in `s`. */
  function FirstIndex<T(==)>(s: seq<T>, x: T): (i: nat)
    requires x in s
    ensures i < |s| && s[i] == x
    ensures forall k :: 0 <= k < i ==> s[k] != x
  {
    if s[0] == x then 0 else 1 + FirstIndex(s[1..], x)
  }

  /** `Array#uniq`: drops every element equal to an earlier one. */
  function Uniq<T(==, !new)>(s: seq<T>): (r: seq<T>)
    ensures forall x :: x in r <==> x in s
    ensures NoDuplicates(r)
    ensures |r| <= |s|
  {
    if |s| == 0 then []
    else
      var p := Uniq(s[..|s| - 1]);
      var last := s[|s| - 1];
      assert s == s[..|s| - 1] + [last];
      if last in p then p else p + [last]
  }

  /** The name of `rec` that `locale` selects; `None` for an unknown locale. */
  function LocaleName(locale: Locale, rec: ZipRecord): Option<string> {
    match locale
    case DefaultLocale => Some(rec.name)
    case Native => Some(rec.name)
    case De => Some(rec.nameDe)
    case Fr => Some(rec.nameFr)
    case It => Some(rec.nameIt)
    case Rt => Some(rec.nameRt)
    case UnknownLocale => None
  }

  /** Whether `only_types` admits `rec`; a `nil` filter admits everything. */
  predicate Admitted(onlyTypes: Option<seq<int>>, rec: ZipRecord) {
    onlyTypes.None? || rec.kind in onlyTypes.value
  }

  /** The type filter: with a list of types, keep the records whose type is
      listed, in their original order; without one, keep every record. */
  function SelectTypes(records: seq<ZipRecord>, onlyTypes: Option<seq<int>>): (r: seq<ZipRecord>)
    ensures |r| <= |records|
    ensures forall rec :: rec in r <==> rec in records && Admitted(onlyTypes, rec)
    ensures onlyTypes.None? ==> r == records
  {
    if |records| == 0 then []
    else if Admitted(onlyTypes, records[0]) then [records[0]] + SelectTypes(records[1..], onlyTypes)
    else SelectTypes(records[1..], onlyTypes)
  }

  /** The filter works record by record, so it keeps the admitted records in
      their original order. */
  lemma {:induction false} SelectTypesAppend(a: seq<ZipRecord>, b: seq<ZipRecord>, onlyTypes: Option<seq<int>>)
    ensures SelectTypes(a + b, onlyTypes) == SelectTypes(a, onlyTypes) + SelectTypes(b, onlyTypes)
  {
    if |a| > 0 {
      assert (a + b)[1..] == a[1..] + b;
      SelectTypesAppend(a[1..], b, onlyTypes);
    } else {
      assert a + b == b;
    }
  }

  /** `codes.map(&:name…)` for a known locale. */
  function Project(locale: Locale, records: seq<ZipRecord>): (r: seq<string>)
    requires !locale.UnknownLocale?
    ensures |r| == |records|
    ensures forall i :: 0 <= i < |records| ==> LocaleName(locale, records[i]) == Some(r[i])
  {
    if |records| == 0 then [] else [LocaleName(locale, records[0]).value] + Project(locale, records[1..])
  }

  /** `SwissMatch.cities_for_zip_code(code, only_types, locale)`, given
      `byCode`, the result of `by_code(code.to_i)`. A `nil` lookup yields `[]`
      before the locale is examined. */
  function CitiesForZipCode(byCode: Option<seq<ZipRecord>>, onlyTypes: Option<seq<int>>, locale: Locale): (r: CitiesResult)
    ensures byCode.None? ==> r == Names([])
    ensures r.InvalidLocale? <==> byCode.Some? && locale.UnknownLocale?
    ensures r.Names? ==> NoDuplicates(r.names)
    ensures r.Names? && byCode.Some? ==>
              forall x :: x in r.names <==>
                exists rec :: rec in byCode.value && Admitted(onlyTypes, rec) && LocaleName(locale, rec) == Some(x)
  {
    match byCode
    case None => Names([])
    case Some(codes) =>
      var selected := SelectTypes(codes, onlyTypes);
      if locale.UnknownLocale? then InvalidLocale
      else
        var names := Project(locale, selected);
        assert forall x :: x in names <==> exists rec :: rec in selected && LocaleName(locale, rec) == Some(x) by {
          forall x ensures x in names <==> exists rec :: rec in selected && LocaleName(locale, rec) == Some(x) {
            if x in names {
              var i :| 0 <= i < |names| && names[i] == x;
              assert selected[i] in selected;
            }
            if exists rec :: rec in selected && LocaleName(locale, rec) == Some(x) {
              var rec :| rec in selected && LocaleName(locale, rec) == Some(x);
              var i :| 0 <= i < |selected| && selected[i] == rec;
              assert names[i] == x;
            }
          }
        }
        Names(Uniq(names))
  }

  // ---------------------------------------------------------------------------
  // Properties of the result.

  lemma FirstIndexOfPrefix<T>(s: seq<T>, n: nat, x: T)
    requires n <= |s| && x in s[..n]
    ensures FirstIndex(s, x) == FirstIndex(s[..n], x)
  {
    var i := FirstIndex(s[..n], x);
    var j := FirstIndex(s, x);
    assert s[i] == x;                // so j <= i
    assert j < n && s[..n][j] == x;  // so i <= j
  }

  /** `uniq` keeps the first occurrence of each element: the result lists the
      distinct elements in the order they first appear. */
  lemma {:induction false} UniqKeepsFirstOccurrenceOrder<T(!new)>(s: seq<T>)
    ensures forall i, j :: 0 <= i < j < |Uniq(s)| ==>
              FirstIndex(s, Uniq(s)[i]) < FirstIndex(s, Uniq(s)[j])
  {
    if |s| > 0 {
      var init := s[..|s| - 1];
      var last := s[|s| - 1];
      var p := Uniq(init);
      UniqKeepsFirstOccurrenceOrder(init);
      assert init == s[..|s| - 1];
      forall k | 0 <= k < |p|
        ensures p[k] in p && p[k] in init && p[k] in s
        ensures FirstIndex(s, p[k]) == FirstIndex(init, p[k]) < |init|
      {
        assert p[k] in p;
        FirstIndexOfPrefix(s, |s| - 1, p[k]);
      }
      var r := Uniq(s);
      if last !in p {
        assert r == p + [last];
        assert last !in init;
        assert FirstIndex(s, last) == |s| - 1;
      } else {
        assert r == p;
      }
    }
  }

  /** `nil` and `:native` select the same names. */
  lemma DefaultLocaleIsNative(byCode: Option<seq<ZipRecord>>, onlyTypes: Option<seq<int>>)
    ensures CitiesForZipCode(byCode, onlyTypes, DefaultLocale) == CitiesForZipCode(byCode, onlyTypes, Native)
  {
    if byCode.Some? {
      ProjectDefaultIsNative(SelectTypes(byCode.value, onlyTypes));
    }
  }

  lemma ProjectDefaultIsNative(records: seq<ZipRecord>)
    ensures Project(DefaultLocale, records) == Project(Native, records)
  {
  }

  /** The names come out in the order their first record appears among the
      admitted records of the lookup. */
  lemma CitiesInFirstOccurrenceOrder(codes: seq<ZipRecord>, onlyTypes: Option<seq<int>>, locale: Locale)
    requires !locale.UnknownLocale?
    ensures var names := Project(locale, SelectTypes(codes, onlyTypes));
            var r := CitiesForZipCode(Some(codes), onlyTypes, locale);
            r.Names? && r.names == Uniq(names) &&
            forall i, j :: 0 <= i < j < |r.names| ==> FirstIndex(names, r.names[i]) < FirstIndex(names, r.names[j])
  {
    UniqKeepsFirstOccurrenceOrder(Project(locale, SelectTypes(codes, onlyTypes)));
  }
}
