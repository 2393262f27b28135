/** The provider's error family and `_classify_error`, which turns the text of
    any failure raised during an attempt into a provider error by ordered,
    first-match substring rules on the lower-cased text. */
module Errors {
  import opened Text

  /** The error classes the classifier produces: `LLMProviderTimeoutError`
      and the plain `LLMProviderError`. */
  datatype ErrorKind = Generic | Timeout

  datatype ProviderError = ProviderError(kind: ErrorKind, message: string)

  /** The rule of the classifier that fires, in the order the rules are tried. */
  datatype Rule = TimeoutRule | ConnectionRule | NotFoundRule | Fallback

  predicate MentionsTimeout(lowered: string) {
    Contains(lowered, "timeout") || Contains(lowered, "timed out")
  }

  predicate MentionsConnection(lowered: string) {
    Contains(lowered, "connection") || Contains(lowered, "refused")
  }

  predicate MentionsNotFound(lowered: string) {
    Contains(lowered, "not found") || Contains(lowered, "404")
  }

  /** First-match rule selection on the lower-cased failure text. */
  function RuleFor(message: string): (r: Rule)
    ensures r == TimeoutRule <==> MentionsTimeout(Lower(message))
    ensures r == ConnectionRule <==> !MentionsTimeout(Lower(message)) && MentionsConnection(Lower(message))
    ensures r == NotFoundRule <==>
      !MentionsTimeout(Lower(message)) && !MentionsConnection(Lower(message)) && MentionsNotFound(Lower(message))
    ensures r == Fallback <==>
      !MentionsTimeout(Lower(message)) && !MentionsConnection(Lower(message)) && !MentionsNotFound(Lower(message))
  {
    var lowered := Lower(message);
    if MentionsTimeout(lowered) then TimeoutRule
    else if MentionsConnection(lowered) then ConnectionRule
    else if MentionsNotFound(lowered) then NotFoundRule
    else Fallback
  }

  const TimeoutLead := "Timeout en llamada a Ollama (¿modelo cargado?): "
  const ConnectionLead := "No se pudo conectar a Ollama en "
  const ConnectionMiddle := ". ¿Está Ollama corriendo?: "
  const GenericLead := "Error en llamada a Ollama: "

  function NotFoundMessage(defaultModel: string): string {
    "Modelo " + defaultModel + " no encontrado en Ollama. Ejecuta: ollama pull " + defaultModel
  }

  /** `_classify_error`: `message` is `str(error)` of the failure; `baseUrl`
      and `defaultModel` are the provider's configuration. */
  function Classify(baseUrl: string, defaultModel: string, message: string): (r: ProviderError)
    // the timeout class is chosen exactly when the timeout rule matches
    ensures r.kind == Timeout <==> MentionsTimeout(Lower(message))
    ensures r.kind == Timeout ==> r.message == TimeoutLead + message
    // the connection rule reports where it tried to connect and the original text
    ensures RuleFor(message) == ConnectionRule ==>
      && StartsWith(r.message, ConnectionLead)
      && Contains(r.message, baseUrl)
      && EndsWith(r.message, message)
    // the not-found rule names the configured default model and drops the original text
    ensures RuleFor(message) == NotFoundRule ==> r.message == NotFoundMessage(defaultModel)
    // anything else is wrapped unchanged
    ensures RuleFor(message) == Fallback ==> r.message == GenericLead + message
  {
    match RuleFor(message)
    case TimeoutRule => ProviderError(Timeout, TimeoutLead + message)
    case ConnectionRule =>
      ContainsMiddle(ConnectionLead, baseUrl, ConnectionMiddle + message);
      assert ConnectionLead + baseUrl + (ConnectionMiddle + message)
          == ConnectionLead + baseUrl + ConnectionMiddle + message;
      ProviderError(Generic, ConnectionLead + baseUrl + ConnectionMiddle + message)
    case NotFoundRule => ProviderError(Generic, NotFoundMessage(defaultModel))
    case Fallback => ProviderError(Generic, GenericLead + message)
  }

  /** The classification depends on the failure text only through its
      lower-cased form. */
  lemma {:induction false} ClassifyIgnoresCase(baseUrl: string, defaultModel: string, m1: string, m2: string)
    requires Lower(m1) == Lower(m2)
    ensures RuleFor(m1) == RuleFor(m2)
    ensures Classify(baseUrl, defaultModel, m1).kind == Classify(baseUrl, defaultModel, m2).kind
  {
  }
}
