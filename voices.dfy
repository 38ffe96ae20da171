/**
 * Voice resolution in `Main`: the parsed `languages.json` records are filtered to the
 * requested locale, compared case-insensitively, and the first male and the first
 * female record of that selection are kept. Either may be absent.
 */
module Voices {
  import opened Wrappers
  import opened Text

  /** One record of `languages.json`, with all four string fields present. */
  datatype VoiceRecord = VoiceRecord(locale: string, language: string, gender: string, mapping: string)

  /** The voices the run will use: at most one of each gender. */
  datatype Resolved = Resolved(male: Option<VoiceRecord>, female: Option<VoiceRecord>)

  const MaleTag := "male"
  const FemaleTag := "female"

  /** `p.Locale.ToLower() == args[0].ToLower()` */
  predicate LocaleMatches(v: VoiceRecord, locale: string)
  {
    Lower(v.locale) == Lower(locale)
  }

  /** `l.Gender.ToLower() == tag` */
  predicate GenderIs(v: VoiceRecord, tag: string)
  {
    Lower(v.gender) == tag
  }

  /** A record that both filters of the query accept. */
  predicate Selects(v: VoiceRecord, locale: string, tag: string)
  {
    LocaleMatches(v, locale) && GenderIs(v, tag)
  }

  /** Record `k` is the first one, in input order, that the query for `tag` accepts. */
  predicate IsFirstSelected(records: seq<VoiceRecord>, k: nat, locale: string, tag: string)
  {
    && k < |records|
    && Selects(records[k], locale, tag)
    && forall j :: 0 <= j < k ==> !Selects(records[j], locale, tag)
  }

  /** The `Where` clause: the records of the requested locale, in input order. */
  function ForLocale(records: seq<VoiceRecord>, locale: string): (r: seq<VoiceRecord>)
    ensures forall v :: v in r <==> v in records && LocaleMatches(v, locale)
    ensures |r| <= |records|
  {
    if records == [] then []
    else (if LocaleMatches(records[0], locale) then [records[0]] else []) + ForLocale(records[1..], locale)
  }

  /** `FirstOrDefault(l => l.Gender.ToLower() == tag)` */
  function FirstOfGender(rs: seq<VoiceRecord>, tag: string): (r: Option<VoiceRecord>)
    ensures r.Some? ==> r.value in rs && GenderIs(r.value, tag)
    ensures r.None? <==> forall v :: v in rs ==> !GenderIs(v, tag)
  {
    if rs == [] then None
    else if GenderIs(rs[0], tag) then Some(rs[0])
    else FirstOfGender(rs[1..], tag)
  }

  /** The voice of one gender that the query yields. */
  function Pick(records: seq<VoiceRecord>, locale: string, tag: string): (r: Option<VoiceRecord>)
    ensures r.Some? ==> r.value in records && Selects(r.value, locale, tag)
  {
    FirstOfGender(ForLocale(records, locale), tag)
  }

  /** The male and female voices for `locale` (Program.cs lines 49-52). */
  function Resolve(records: seq<VoiceRecord>, locale: string): (r: Resolved)
    ensures r.male.Some? ==> r.male.value in records && Selects(r.male.value, locale, MaleTag)
    ensures r.female.Some? ==> r.female.value in records && Selects(r.female.value, locale, FemaleTag)
  {
    Resolved(Pick(records, locale, MaleTag), Pick(records, locale, FemaleTag))
  }

  /** How many genders are resolved: 0, 1 or 2. */
  function Count(res: Resolved): (n: nat)
    ensures n <= 2
    ensures n == 0 <==> res.male.None? && res.female.None?
  {
    (if res.male.Some? then 1 else 0) + (if res.female.Some? then 1 else 0)
  }

  /** The query returns exactly the first accepted record, in input order. */
  lemma {:induction false} PickIsFirst(records: seq<VoiceRecord>, locale: string, tag: string, k: nat)
    requires IsFirstSelected(records, k, locale, tag)
    ensures Pick(records, locale, tag) == Some(records[k])
  {
    var rest := records[1..];
    if k == 0 {
      assert ForLocale(records, locale) == [records[0]] + ForLocale(rest, locale);
    } else {
      assert IsFirstSelected(rest, k - 1, locale, tag) by {
        forall j | 0 <= j < k - 1 ensures !Selects(rest[j], locale, tag) {
          assert rest[j] == records[j + 1];
        }
      }
      PickIsFirst(rest, locale, tag, k - 1);
      assert !Selects(records[0], locale, tag);
      if LocaleMatches(records[0], locale) {
        assert ForLocale(records, locale) == [records[0]] + ForLocale(rest, locale);
      } else {
        assert ForLocale(records, locale) == ForLocale(rest, locale);
      }
    }
  }

  /** The query yields nothing exactly when no record is accepted. */
  lemma {:induction false} PickNone(records: seq<VoiceRecord>, locale: string, tag: string)
    ensures Pick(records, locale, tag).None? <==> forall k :: 0 <= k < |records| ==> !Selects(records[k], locale, tag)
  {
    if Pick(records, locale, tag).None? {
      forall k | 0 <= k < |records| ensures !Selects(records[k], locale, tag) {
        assert records[k] in records;
      }
    } else {
      var v := Pick(records, locale, tag).value;
      var k :| 0 <= k < |records| && records[k] == v;
    }
  }

  /** A locale no record has resolves neither voice. */
  lemma NoLocaleNoVoices(records: seq<VoiceRecord>, locale: string)
    requires forall k :: 0 <= k < |records| ==> !LocaleMatches(records[k], locale)
    ensures Resolve(records, locale) == Resolved(None, None)
    ensures Count(Resolve(records, locale)) == 0
  {
    PickNone(records, locale, MaleTag);
    PickNone(records, locale, FemaleTag);
  }

  /** The `Where` clause gives the same records whatever the case of the requested locale. */
  lemma {:induction false} ForLocaleIgnoresCase(records: seq<VoiceRecord>, locale: string)
    ensures ForLocale(records, Lower(locale)) == ForLocale(records, locale)
  {
    if records != [] {
      LowerIdempotent(locale);
      assert LocaleMatches(records[0], Lower(locale)) == LocaleMatches(records[0], locale);
      ForLocaleIgnoresCase(records[1..], locale);
    }
  }

  /** Resolution depends on the requested locale only up to ASCII case: "EN-us" resolves like "en-US". */
  lemma ResolveIgnoresCase(records: seq<VoiceRecord>, locale: string)
    ensures Resolve(records, Lower(locale)) == Resolve(records, locale)
  {
    ForLocaleIgnoresCase(records, locale);
  }
}
