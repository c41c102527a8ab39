/** The two collaborators the pipeline cannot see: the page scraper and the
    chat-completion service. Both are oracles handed in as functions; what
    is modelled is the wrapping the generator functions put around the
    service (the `None` text default and the failure sentinel). */
module Generation {
  import opened Text

  /** What a chat-completion request gives back: the call raised, or it
      returned a list of choices whose message content may be `None`. */
  datatype Reply = Raised | Choices(contents: seq<Option<string>>)

  /** The page fetch (`scrape_webpage`, url -> (title, body text)) and one
      completion oracle per call site, each given the title and the excerpt
      its fixed prompt embeds. The scraper is total: a failed response is two
      empty strings, and an exception from the HTTP request is not modelled. */
  datatype Services = Services(
    scrape: string -> (string, string),
    describe: (string, string) -> Reply,        // generate_meta_description
    entitle: (string, string) -> Reply,         // generate_seo_title
    reviseDescription: (string, string) -> Reply, // revise_meta_description
    reviseTitle: (string, string) -> Reply)       // revise_seo_title

  /** Returned in place of generated text when the service fails. */
  const FailureSentinel := "Failed to generate description"

  /** Stands in for a text argument that is `None`. */
  const NoInfo := "No Info Provided"

  /** The text a completion is asked about: `None` becomes `NoInfo`. */
  function PromptText(text: Option<string>): string
  {
    if text.None? then NoInfo else text.value
  }

  /** The service gave at least one choice and the first has content. */
  predicate Usable(reply: Reply)
  {
    reply.Choices? && |reply.contents| > 0 && reply.contents[0].Some?
  }

  /** One generator call: ask the service, strip the first choice's content;
      an exception from the service, an empty list of choices or a `None`
      content (whose `.strip()` raises inside the `try`) all give the
      sentinel. */
  function Generate(service: (string, string) -> Reply, title: string, text: Option<string>): (r: string)
    ensures !Usable(service(title, PromptText(text))) ==> r == FailureSentinel
    ensures Usable(service(title, PromptText(text))) ==> r == Strip(service(title, PromptText(text)).contents[0].value)
    ensures r == FailureSentinel || r == [] || (!IsSpace(r[0]) && !IsSpace(r[|r| - 1]))
  {
    var reply := service(title, PromptText(text));
    if reply.Raised? then FailureSentinel
    else if |reply.contents| == 0 then FailureSentinel
    else match reply.contents[0]
      case None => FailureSentinel
      case Some(content) => StripTrimmed(content); Strip(content)
  }
}
