/**
 * Locale negotiation: picks the interface language from an HTTP
 * Accept-Language header (section 5.3.5 of RFC 7231). Each entry's quality
 * is `parseFloat` of the text after the first `=` of its first parameter,
 * whatever that parameter is named and whatever value it holds; entries are
 * ordered by descending quality with a stable sort, and the first English
 * or Japanese tag wins.
 */
module I18n {
  import opened Wrappers
  import opened Text
  import opened StableSort

  datatype Language = En | Ja

  /** The locale used when the header names no supported language. */
  const DefaultLocale: Language := En

  /**
   * The configured list of supported locales. Negotiation does not read it:
   * `DetectLanguage` recognises English and Japanese by their tags.
   */
  const Locales: seq<Language> := [En, Ja]

  /**
   * One header entry: its language tag and its quality, where `None`
   * stands for the NaN that `parseFloat` yields on text it cannot read.
   */
  datatype Entry = Entry(code: string, q: Option<real>)

  /**
   * The quality written after the first `=` of an entry's parameter, read
   * with `parseFloat`. Without an `=` there is nothing to read, and the
   * quality is NaN.
   */
  function QualityOf(param: string): (q: Option<real>)
    ensures '=' !in param ==> q.None?
    ensures var kv := Split(param, '=');
            |kv| > 1 ==> q == ParseFloat(kv[1])
  {
    var kv := Split(param, '=');
    SplitNoSeparator(param, '=');
    if |kv| > 1 then ParseFloat(kv[1]) else None
  }

  /**
   * One comma-separated entry: trimmed, then split on `;` into the tag and
   * an optional quality parameter. The tag is what precedes the first `;`,
   * and an entry without a (non-empty) parameter has quality 1.0.
   */
  function ParseEntry(lang: string): (e: Entry)
    ensures ';' !in Trim(lang) ==> e == Entry(Trim(lang), Some(1.0))
    ensures ';' !in e.code && e.code <= Trim(lang)
    ensures e.code < Trim(lang) ==> Trim(lang)[|e.code|] == ';'
  {
    var parts := Split(Trim(lang), ';');
    SplitFirst(Trim(lang), ';');
    SplitNoSeparator(Trim(lang), ';');
    var q := if |parts| > 1 && parts[1] != [] then QualityOf(parts[1]) else Some(1.0);
    Entry(parts[0], q)
  }

  /** Whitespace around an entry does not change how it is read. */
  lemma ParseEntryIgnoresPadding(w1: string, lang: string, w2: string)
    requires AllWhitespace(w1) && AllWhitespace(w2)
    ensures ParseEntry(w1 + lang + w2) == ParseEntry(lang)
  {
    TrimIgnoresPadding(w1, lang, w2);
  }

  /** The header's comma-separated entries, parsed, in header order. */
  function ParseEntries(header: string): (es: seq<Entry>)
    ensures |es| == |Split(header, ',')|
    ensures forall k :: 0 <= k < |es| ==> es[k] == ParseEntry(Split(header, ',')[k])
  {
    var langs := Split(header, ',');
    seq(|langs|, k requires 0 <= k < |langs| => ParseEntry(langs[k]))
  }

  predicate IsJa(code: string) {
    code == "ja" || StartsWith(code, "ja-")
  }

  predicate IsEn(code: string) {
    code == "en" || StartsWith(code, "en-")
  }

  /** The entry names a supported language. */
  predicate Recognised(e: Entry) {
    IsJa(e.code) || IsEn(e.code)
  }

  /** The language a recognised tag stands for. */
  function LanguageOf(code: string): Language {
    if IsJa(code) then Ja else En
  }

  /** Every entry has a numeric quality (none is NaN). */
  predicate Numeric(entries: seq<Entry>) {
    forall k :: 0 <= k < |entries| ==> entries[k].q.Some?
  }

  /**
   * The quality an entry is sorted by. With a NaN quality the comparator
   * `b.q - a.q` is inconsistent and the engine may produce any order; the
   * model then sorts that entry as if its quality were 1.0.
   */
  function Weight(e: Entry): real {
    e.q.GetOr(1.0)
  }

  /** Sort key for descending quality, the comparator `b.q - a.q`. */
  function ByDescendingQuality(e: Entry): real {
    -Weight(e)
  }

  /** `rs[i]` has the highest quality in `rs` and is the leftmost that has it. */
  predicate IsPreferred(rs: seq<Entry>, i: int) {
    0 <= i < |rs| &&
    (forall j :: 0 <= j < |rs| ==> Weight(rs[j]) <= Weight(rs[i])) &&
    (forall j :: 0 <= j < i ==> Weight(rs[j]) < Weight(rs[i]))
  }

  /** The first entry with the least key `-q` is the preferred one. */
  lemma FirstMinIsPreferred(rs: seq<Entry>, i: int)
    requires IsFirstMin(rs, i, ByDescendingQuality)
    ensures IsPreferred(rs, i)
  {
    forall j | 0 <= j < |rs| ensures Weight(rs[j]) <= Weight(rs[i]) {
      assert ByDescendingQuality(rs[i]) <= ByDescendingQuality(rs[j]);
    }
    forall j | 0 <= j < i ensures Weight(rs[j]) < Weight(rs[i]) {
      assert ByDescendingQuality(rs[i]) < ByDescendingQuality(rs[j]);
    }
  }

  /**
   * After the stable sort by descending quality, the first recognised entry
   * is the preferred one among the recognised entries in header order.
   */
  lemma FirstRecognisedIsPreferred(entries: seq<Entry>, k: int)
    requires 0 <= k < |entries|
    requires Recognised(Sort(entries, ByDescendingQuality)[k])
    requires forall j :: 0 <= j < k ==> !Recognised(Sort(entries, ByDescendingQuality)[j])
    ensures exists i :: IsPreferred(Filter(entries, Recognised), i) &&
                        Sort(entries, ByDescendingQuality)[k] == Filter(entries, Recognised)[i]
  {
    var sorted := Sort(entries, ByDescendingQuality);
    var rs := Filter(entries, Recognised);
    FirstMatchAfterSort(entries, ByDescendingQuality, Recognised, k);
    var i :| IsFirstMin(rs, i, ByDescendingQuality) && sorted[k] == rs[i];
    FirstMinIsPreferred(rs, i);
  }

  /** `lang` is the language of the preferred recognised entry. */
  ghost predicate PreferredIs(entries: seq<Entry>, lang: Language) {
    var rs := Filter(entries, Recognised);
    exists i :: IsPreferred(rs, i) && lang == LanguageOf(rs[i].code)
  }

  /**
   * The selection half of `detectLanguage`: sort the parsed entries by
   * descending quality (stably) and return the language of the first
   * recognised one, or the default locale when none is recognised. The
   * result is always the language of some recognised entry when there is
   * one; when no quality is NaN it is that of the preferred one.
   */
  method ChooseLanguage(entries: seq<Entry>) returns (lang: Language)
    ensures Filter(entries, Recognised) == [] ==> lang == DefaultLocale
    ensures var rs := Filter(entries, Recognised);
            rs != [] ==> exists i :: 0 <= i < |rs| && lang == LanguageOf(rs[i].code)
    ensures Filter(entries, Recognised) != [] && Numeric(entries) ==> PreferredIs(entries, lang)
  {
    var languages := new Entry[|entries|](k requires 0 <= k < |entries| => entries[k]);
    assert languages[..] == entries;
    SortByKey(languages, ByDescendingQuality);
    ghost var sorted := languages[..];
    var k := 0;
    while k < languages.Length
      modifies {}
      invariant 0 <= k <= languages.Length
      invariant forall j :: 0 <= j < k ==> !Recognised(sorted[j])
    {
      var code := languages[k].code;
      assert code == sorted[k].code;
      if IsJa(code) {
        assert PreferredIs(entries, Ja) by {
          FirstRecognisedIsPreferred(entries, k);
        }
        return Ja;
      }
      if IsEn(code) {
        assert PreferredIs(entries, En) by {
          FirstRecognisedIsPreferred(entries, k);
        }
        return En;
      }
      assert !Recognised(sorted[k]);
      k := k + 1;
    }
    NoMatchAfterSort(entries, ByDescendingQuality, Recognised);
    return DefaultLocale;
  }

  /**
   * `detectLanguage`. An absent or empty header gives the default locale.
   * Otherwise, among the recognised entries in header order, the one with
   * the highest quality decides, the leftmost one among equals; with no
   * recognised entry the result is the default locale.
   */
  method DetectLanguage(header: Option<string>) returns (lang: Language)
    ensures header.None? || header.value == "" ==> lang == DefaultLocale
    ensures header.Some? && header.value != "" ==>
              var entries := ParseEntries(header.value);
              (Filter(entries, Recognised) == [] ==> lang == DefaultLocale) &&
              (Filter(entries, Recognised) != [] ==>
                 exists i :: 0 <= i < |Filter(entries, Recognised)| &&
                             lang == LanguageOf(Filter(entries, Recognised)[i].code)) &&
              (Filter(entries, Recognised) != [] && Numeric(entries) ==> PreferredIs(entries, lang))
  {
    if header.None? || header.value == "" {
      return DefaultLocale;
    }
    lang := ChooseLanguage(ParseEntries(header.value));
  }

  /** Two pieces joined by a separator split back into those pieces. */
  lemma SplitPair(a: string, b: string, sep: char)
    requires sep !in a && sep !in b
    ensures Split(a + [sep] + b, sep) == [a, b]
  {
    var parts := [a, b];
    assert parts[1..] == [b];
    assert Join(parts, sep) == a + [sep] + b;
    SplitJoin(parts, sep);
  }

  /** An entry `code;param` with nothing to trim. */
  lemma ParseTaggedEntry(code: string, param: string)
    requires code != [] && param != [] && ';' !in code && ';' !in param
    requires !IsWhitespace(code[0]) && !IsWhitespace(param[|param| - 1])
    ensures ParseEntry(code + [';'] + param) == Entry(code, QualityOf(param))
  {
    var lang := code + [';'] + param;
    assert lang[0] == code[0] && lang[|lang| - 1] == param[|param| - 1];
    TrimNoPadding(lang);
    SplitPair(code, param, ';');
    var parts := Split(Trim(lang), ';');
    assert parts == [code, param];
    assert parts[0] == code && parts[1] == param && |parts| == 2;
  }

  /** The quality parameter `key=num`. */
  lemma QualityOfNumeral(key: string, num: string)
    requires '=' !in key && '=' !in num
    ensures QualityOf(key + ['='] + num) == ParseFloat(num)
  {
    SplitPair(key, num, '=');
  }

  /** An entry `code;` with an empty parameter has quality 1.0. */
  lemma EmptyParamIsOne(code: string)
    requires code != [] && ';' !in code && !IsWhitespace(code[0])
    ensures ParseEntry(code + [';']) == Entry(code, Some(1.0))
  {
    var lang := code + [';'];
    assert lang[0] == code[0] && lang[|lang| - 1] == ';';
    TrimNoPadding(lang);
    SplitPair(code, [], ';');
    assert code + [';'] + [] == lang;
    var parts := Split(Trim(lang), ';');
    assert parts == [code, []];
  }

  /**
   * A header joined from comma-free pieces is read piece by piece: one
   * entry per piece, in order.
   */
  lemma ParseEntriesOfPieces(ps: seq<string>)
    requires |ps| >= 1
    requires forall k :: 0 <= k < |ps| ==> ',' !in ps[k]
    ensures var es := ParseEntries(Join(ps, ','));
            |es| == |ps| && forall k :: 0 <= k < |ps| ==> es[k] == ParseEntry(ps[k])
  {
    SplitJoin(ps, ',');
  }

  /**
   * A missing or empty header selects the default locale, derived from the
   * contract of `DetectLanguage` alone.
   */
  method NegotiationExamples() {
    var lang := DetectLanguage(None);
    assert lang == En;
    lang := DetectLanguage(Some(""));
    assert lang == En;
  }
}
