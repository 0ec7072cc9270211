/** The translation panel of the localisation page: the mode chosen from
    the row key, and how the shown text is obtained from the original text,
    a past translation and the translation service. */
module Translation {
  import opened Wrappers

  /** How the row's text is translated. */
  datatype Mode = Definition | Adjective | Normal

  /** `s.endsWith(suffix)`. */
  predicate EndsWith(s: string, suffix: string) {
    |suffix| <= |s| && s[|s| - |suffix|..] == suffix
  }

  const DefinitionSuffix: string := "DEF:0"
  const AdjectiveSuffix: string := "ADJ:0"

  /** The mode for a row key.  Each mode is chosen by its suffix alone: no
      key ends with both, so the order of the tests does not matter. */
  function GetMode(key: string): (m: Mode)
    ensures m == Definition <==> EndsWith(key, DefinitionSuffix)
    ensures m == Adjective <==> EndsWith(key, AdjectiveSuffix)
    ensures m == Normal <==> !EndsWith(key, DefinitionSuffix) && !EndsWith(key, AdjectiveSuffix)
  {
    if EndsWith(key, DefinitionSuffix) then
      assert key[|key| - 5..][0] == 'D';
      Definition
    else if EndsWith(key, AdjectiveSuffix) then Adjective
    else Normal
  }

  /** The mode depends only on the key's last five characters. */
  lemma ModeIgnoresPrefix(prefix: string, key: string)
    requires |key| >= 5
    ensures GetMode(prefix + key) == GetMode(key)
  {
    var k := prefix + key;
    assert k[|k| - 5..] == key[|key| - 5..];
  }

  /** A request to the translation service. */
  datatype TranslateCall = TranslateCall(text: string, adjective: bool)

  /** The text shown, whether the past translation was looked up, and the
      translation request made, if any. */
  datatype Answer = Answer(text: string, lookedUp: bool, call: Option<TranslateCall>)

  /** The query function: no work for an empty original text; a non-empty
      past translation is shown as it is; otherwise the text is translated,
      as a country adjective in adjective mode, and prefixed with "the " in
      definition mode. */
  function Query(originalText: string, key: string, past: Option<string>,
                 translate: TranslateCall -> string): (r: Answer)
    ensures originalText == "" <==> !r.lookedUp
    ensures originalText == "" ==> r == Answer("", false, None)
    ensures originalText != "" && past.Some? && past.value != "" ==> r == Answer(past.value, true, None)
    ensures r.call.Some? ==> r.call.value.text == originalText
    ensures r.call.Some? ==> (r.call.value.adjective <==> EndsWith(key, AdjectiveSuffix))
    ensures r.call.Some? && EndsWith(key, DefinitionSuffix) ==> r.text == "the " + translate(r.call.value)
    ensures r.call.Some? && !EndsWith(key, DefinitionSuffix) ==> r.text == translate(r.call.value)
    ensures r.call.None? <==> originalText == "" || (past.Some? && past.value != "")
  {
    if originalText == "" then Answer("", false, None)
    else if past.Some? && past.value != "" then Answer(past.value, true, None)
    else
      var mode := GetMode(key);
      var call := TranslateCall(originalText, mode == Adjective);
      Answer((if mode == Definition then "the " else "") + translate(call), true, Some(call))
  }
}
