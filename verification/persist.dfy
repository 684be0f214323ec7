/**
 `save_khutbah_to_firestore`: the document written for a new sermon, holding
 the original fields unchanged and one translated (title, text) pair per
 configured target language.
 */
module Persist {
  import opened Translate
  import opened Detail

  /** `TARGET_LANGUAGES`, in insertion order: (language name, language code). */
  const TargetLanguages: seq<(string, string)> := [
    ("english", "en"), ("indonesian", "id"), ("urdu", "ur"), ("bengali", "bn"), ("turkish", "tr"),
    ("farsi", "fa"), ("hausa", "ha"), ("pashto", "ps"), ("malay", "ms"), ("french", "fr")
  ]

  /** `html.unescape`, a library function taken as a parameter. */
  type Unescape = string -> string

  /** One entry of the `translations` map. */
  datatype TranslatedFields = TranslatedFields(title: string, text: string)

  /** The stored document; `id` is the generated `uuid4` string. */
  datatype Document = Document(
    id: string,
    title: string,
    text: string,
    translations: map<string, TranslatedFields>,
    mosque: string,
    date: string,
    speaker: string)

  /** The language codes of a language table. */
  function Codes(langs: seq<(string, string)>): set<string> {
    set i | 0 <= i < |langs| :: langs[i].1
  }

  /** The entry for one language code: title and text each translated, then unescaped. */
  function Fields(k: Khutbah, code: string, tr: Translator, unescape: Unescape): TranslatedFields {
    TranslatedFields(unescape(TranslateText(tr, k.title, code).text), unescape(TranslateText(tr, k.text, code).text))
  }

  /** The loop over the language table that fills `translations`, one code at a time. */
  function BuildTranslations(k: Khutbah, langs: seq<(string, string)>, tr: Translator, unescape: Unescape)
    : (m: map<string, TranslatedFields>)
    ensures m.Keys == Codes(langs)
    ensures forall c :: c in m ==> m[c] == Fields(k, c, tr, unescape)
  {
    if |langs| == 0 then map[]
    else
      var init := langs[..|langs| - 1];
      var code := langs[|langs| - 1].1;
      assert Codes(langs) == Codes(init) + {code} by {
        forall c | c in Codes(langs) ensures c in Codes(init) + {code} {
          var i :| 0 <= i < |langs| && langs[i].1 == c;
          if i < |langs| - 1 {
            assert init[i] == langs[i];
          }
        }
        forall c | c in Codes(init) ensures c in Codes(langs) {
          var i :| 0 <= i < |init| && init[i].1 == c;
          assert langs[i] == init[i];
        }
      }
      BuildTranslations(k, init, tr, unescape)[code := Fields(k, code, tr, unescape)]
  }

  /** The ten codes the saved documents carry. */
  const TargetCodeSet: set<string> := {"en", "id", "ur", "bn", "tr", "fa", "ha", "ps", "ms", "fr"}

  /** The configured codes are exactly these ten, one per configured language. */
  lemma TargetCodes()
    ensures Codes(TargetLanguages) == TargetCodeSet
    ensures |Codes(TargetLanguages)| == |TargetLanguages|
  {
    CodesOfTable();
    CodeSetSize();
  }

  lemma CodesOfTable()
    ensures Codes(TargetLanguages) == TargetCodeSet
  {
    assert TargetLanguages[0].1 == "en" && TargetLanguages[1].1 == "id" && TargetLanguages[2].1 == "ur";
    assert TargetLanguages[3].1 == "bn" && TargetLanguages[4].1 == "tr" && TargetLanguages[5].1 == "fa";
    assert TargetLanguages[6].1 == "ha" && TargetLanguages[7].1 == "ps" && TargetLanguages[8].1 == "ms";
    assert TargetLanguages[9].1 == "fr";
  }

  lemma CodeSetSize()
    ensures |TargetCodeSet| == 10
  {
  }

  /** `save_khutbah_to_firestore(khutbah)`: the document written under the fresh `id`. */
  function SaveKhutbah(k: Khutbah, id: string, tr: Translator, unescape: Unescape): (d: Document)
    ensures d.id == id
    ensures d.title == k.title && d.text == k.text && d.speaker == k.speaker
    ensures d.date == k.date && d.mosque == k.mosque
    ensures d.translations.Keys == TargetCodeSet
    ensures |d.translations| == |TargetLanguages|
    ensures forall c :: c in d.translations ==> d.translations[c] == Fields(k, c, tr, unescape)
  {
    TargetCodes();
    Document(
      id := id,
      title := k.title,
      text := k.text,
      translations := BuildTranslations(k, TargetLanguages, tr, unescape),
      mosque := k.mosque,
      date := k.date,
      speaker := k.speaker)
  }

  /** A blank original field is translated to `unescape("")` for every language, with no service call. */
  lemma BlankFieldsNeedNoService(k: Khutbah, id: string, tr: Translator, unescape: Unescape, code: string)
    requires Strings.IsBlank(k.text)
    requires code in SaveKhutbah(k, id, tr, unescape).translations
    ensures SaveKhutbah(k, id, tr, unescape).translations[code].text == unescape("")
    ensures TranslateText(tr, k.text, code).calls == []
  {
  }
}
