/**
 * The deterministic part of `checkSpelling`: the blank guard, the truncation
 * to the service's free-tier limit, and the mapping of the service's matches
 * to spelling errors. The LanguageTool request is a parameter of the model.
 */
module Spellcheck {
  import opened Wrappers
  import opened JsString

  /** The longest text sent to the service. */
  const MaxChars: nat := 40000

  /** The most suggestions kept per error. */
  const MaxSuggestions: nat := 5

  /** One match in the service's answer (the fields the code reads). */
  datatype ServiceMatch = ServiceMatch(
    message: string,
    offset: nat,
    length: nat,
    replacements: seq<string>,
    ruleId: string,
    contextText: string)

  /** What the request yields: the network call itself failed, the service
      answered with a status other than 2xx, or it answered with a body whose
      `matches` member may be absent. */
  datatype Reply = NetworkFailure | HttpError(status: nat) | Answer(matches: Option<seq<ServiceMatch>>)

  /** The LanguageTool request for a text in a language. */
  type Service = (string, string) -> Reply

  /** `SpellError`. */
  datatype SpellError = SpellError(
    message: string,
    offset: nat,
    length: nat,
    word: string,
    suggestions: seq<string>,
    rule: string,
    language: string,
    context: string)

  /** The outcome of `checkSpelling`: the errors, or a rejected promise. */
  datatype CheckOutcome = Errors(errors: seq<SpellError>) | Failed

  /** `text.slice(0, 40000)`. */
  function Truncate(text: string): (t: string)
    ensures |t| <= MaxChars && |t| <= |text| && t == text[..|t|]
    ensures |text| <= MaxChars ==> t == text
    ensures |text| > MaxChars ==> |t| == MaxChars
  {
    Slice(text, 0, MaxChars)
  }

  /** `replacements.slice(0, 5)`. */
  function FirstSuggestions(replacements: seq<string>): (r: seq<string>)
    ensures |r| <= MaxSuggestions && |r| <= |replacements| && r == replacements[..|r|]
    ensures |replacements| <= MaxSuggestions ==> r == replacements
    ensures |replacements| > MaxSuggestions ==> |r| == MaxSuggestions
  {
    if |replacements| <= MaxSuggestions then replacements else replacements[..MaxSuggestions]
  }

  /** One match becomes one error: the word is the flagged slice of the text
      that was sent, the suggestions are capped, the rest is copied. */
  function ToSpellError(m: ServiceMatch, sent: string, language: string): (e: SpellError)
    ensures e.message == m.message && e.offset == m.offset && e.length == m.length
    ensures e.rule == m.ruleId && e.context == m.contextText && e.language == language
    ensures m.offset + m.length <= |sent| ==> e.word == sent[m.offset..m.offset + m.length]
    ensures m.offset <= |sent| <= m.offset + m.length ==> e.word == sent[m.offset..]
    ensures m.offset >= |sent| ==> e.word == ""
    ensures e.suggestions == FirstSuggestions(m.replacements)
  {
    SpellError(m.message, m.offset, m.length, Slice(sent, m.offset, m.offset + m.length),
               FirstSuggestions(m.replacements), m.ruleId, language, m.contextText)
  }

  function ToSpellErrors(ms: seq<ServiceMatch>, sent: string, language: string): (es: seq<SpellError>)
    ensures |es| == |ms| && forall i :: 0 <= i < |ms| ==> es[i] == ToSpellError(ms[i], sent, language)
  {
    seq(|ms|, i requires 0 <= i < |ms| => ToSpellError(ms[i], sent, language))
  }

  /** `checkSpelling(text, language)`. */
  function CheckSpelling(text: string, language: string, service: Service): CheckOutcome {
    if IsBlank(text) then Errors([])
    else
      var sent := Truncate(text);
      match service(sent, language)
      case NetworkFailure => Failed
      case HttpError(_) => Failed
      case Answer(matches) =>
        Errors(ToSpellErrors(if matches.Some? then matches.value else [], sent, language))
  }

  /** Blank text gives no error whatever the service would answer: the request
      is never made. */
  lemma BlankTextSkipsService(text: string, language: string, s1: Service, s2: Service)
    requires forall i :: 0 <= i < |text| ==> IsJsSpace(text[i])
    ensures CheckSpelling(text, language, s1) == Errors([])
    ensures CheckSpelling(text, language, s1) == CheckSpelling(text, language, s2)
  {
    BlankIffAllSpace(text);
  }

  /** Otherwise the request carries the first 40 000 characters, and the
      answer decides the outcome: a failure rejects, and a successful answer
      gives one error per match, in order, each a slice of the text sent. */
  lemma CheckSpellingOutcome(text: string, language: string, service: Service)
    requires !IsBlank(text)
    ensures var sent := Truncate(text);
      match service(sent, language)
      case Answer(Some(ms)) =>
        && CheckSpelling(text, language, service) == Errors(ToSpellErrors(ms, sent, language))
        && forall i :: 0 <= i < |ms| ==>
             var e := CheckSpelling(text, language, service).errors[i];
             e.offset == ms[i].offset && e.length == ms[i].length && e.language == language
             && (ms[i].offset + ms[i].length <= |sent| ==> e.word == text[ms[i].offset..ms[i].offset + ms[i].length])
      case Answer(None) => CheckSpelling(text, language, service) == Errors([])
      case _ => CheckSpelling(text, language, service) == Failed
  {
    var sent := Truncate(text);
    if service(sent, language).Answer? && service(sent, language).matches.Some? {
      var ms := service(sent, language).matches.value;
      forall i | 0 <= i < |ms| && ms[i].offset + ms[i].length <= |sent|
        ensures sent[ms[i].offset..ms[i].offset + ms[i].length] == text[ms[i].offset..ms[i].offset + ms[i].length]
      {
        SliceOfPrefix(text, |sent|, ms[i].offset, ms[i].offset + ms[i].length);
      }
    }
  }
}
