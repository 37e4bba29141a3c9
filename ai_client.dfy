/**
 * The AI backend factory: a provider name, read without regard to case or
 * surrounding whitespace, picks one of four backends. The no-op backend, for
 * a missing, "none" or unknown name, always fails; the three provider
 * backends carry the model name and are stubs whose `complete` is not
 * implemented.
 */
module AiClient {
  import opened Wrappers
  import opened PyStrings

  /** The backends `build_backend` can return; the three providers carry the model name. */
  datatype Backend = Noop | OpenAi(model: string) | Gemini(model: string) | Ollama(model: string)

  /** What `complete` raises: `RuntimeError` for the no-op backend, `NotImplementedError` for the stubs. */
  datatype AiError = NotConfigured | NotImplemented

  /** `(provider or "").strip().lower()`; None stands for any falsy provider. */
  function Normalize(provider: Option<string>): string {
    Lower(Strip(provider.GetOr("")))
  }

  /** The provider names that select a real backend. */
  const Providers: set<string> := {"openai", "gemini", "ollama"}

  /** The five names the factory compares against are pairwise different. */
  lemma NamesDiffer()
    ensures "openai" != "gemini" && "openai" != "ollama" && "gemini" != "ollama"
    ensures forall p | p in Providers :: p != "" && p != "none"
  {
    assert "openai"[0] != "gemini"[0] && "openai"[1] != "ollama"[1] && "gemini"[0] != "ollama"[0];
  }

  /**
   * `build_backend`: "" and "none" give the no-op backend, the three provider
   * names give their backend with the model, and any other name falls back to
   * the no-op backend.
   */
  function BuildBackend(provider: Option<string>, model: string): (b: Backend)
    ensures b.Noop? <==> Normalize(provider) !in Providers
    ensures b.OpenAi? <==> Normalize(provider) == "openai"
    ensures b.Gemini? <==> Normalize(provider) == "gemini"
    ensures b.Ollama? <==> Normalize(provider) == "ollama"
    ensures !b.Noop? ==> b.model == model
  {
    var norm := Normalize(provider);
    NamesDiffer();
    if norm in {"", "none"} then Noop
    else if norm == "openai" then OpenAi(model)
    else if norm == "gemini" then Gemini(model)
    else if norm == "ollama" then Ollama(model)
    else Noop
  }

  /** `complete`: every backend fails, the no-op one because nothing is configured. */
  function Complete(b: Backend, prompt: string): (r: Result<string, AiError>)
    ensures r.Err?
    ensures r.error == NotConfigured <==> b.Noop?
  {
    match b
    case Noop => Err(NotConfigured)
    case _ => Err(NotImplemented)
  }

  /** The provider name is read after stripping: surrounding whitespace changes nothing. */
  lemma PaddingIgnored(pre: string, p: string, post: string, model: string)
    requires AllIn(pre, Whitespace) && AllIn(post, Whitespace)
    ensures BuildBackend(Some(pre + p + post), model) == BuildBackend(Some(p), model)
  {
    StripPadded(pre, p, post);
  }

  /** The provider name is read without regard to (ASCII) case. */
  lemma CaseIgnored(p: string, model: string)
    ensures BuildBackend(Some(Lower(p)), model) == BuildBackend(Some(p), model)
  {
    StripLower(p);
    LowerIdempotent(Strip(p));
  }

  /** A missing provider and an empty one both give the no-op backend, which fails when used. */
  lemma NoProviderIsNoop(model: string, prompt: string)
    ensures BuildBackend(None, model) == BuildBackend(Some(""), model) == Noop
    ensures Complete(BuildBackend(None, model), prompt) == Err(NotConfigured)
  {
    assert Strip("") == "";
  }

  /** A trimmed name without upper-case letters is its own normal form. */
  lemma NormalName(p: string)
    requires Trimmed(p) && forall i | 0 <= i < |p| :: !('A' <= p[i] <= 'Z')
    ensures Normalize(Some(p)) == p
  {
    StripNoop(p);
    assert Lower(p) == p;
  }

  // The cases the factory's tests exercise.

  lemma NoneIsNoop()
    ensures BuildBackend(Some("none"), "") == Noop
  {
    NormalName("none");
  }

  lemma OpenAiExample()
    ensures BuildBackend(Some("openai"), "gpt-4o-mini") == OpenAi("gpt-4o-mini")
  {
    NormalName("openai");
  }

  lemma GeminiExample()
    ensures BuildBackend(Some("gemini"), "gemini-1.5-pro") == Gemini("gemini-1.5-pro")
  {
    NormalName("gemini");
  }

  lemma OllamaExample()
    ensures BuildBackend(Some("ollama"), "llama3") == Ollama("llama3")
  {
    NormalName("ollama");
  }

  lemma UnknownIsNoop()
    ensures BuildBackend(Some("mystery"), "") == Noop
  {
    NormalName("mystery");
  }
}
