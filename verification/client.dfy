/**
 * `call_llm` (shell_complete.cpp:21-91) with its environment and transport
 * made explicit. The `ANTHROPIC_API_KEY` lookup becomes an optional key, and
 * the curl child process becomes `service`, which maps the key and the
 * request body to the collected response text, or to `None` when the pipe or
 * the fork fails.
 */
module Client {
  import opened Wrappers
  import Request
  import Response

  /** The completion for `commandLine`, or the empty string on any failure. */
  function CallLlm(commandLine: string, apiKey: Option<string>,
                   service: (string, string) -> Option<string>): (r: string)
    ensures apiKey.None? ==> r == ""
    ensures forall i :: 0 <= i < |r| ==> r[i] != '"'
    ensures apiKey.Some? && service(apiKey.value, Request.Payload(commandLine)).Some? ==>
              Response.IsSubstring(r, service(apiKey.value, Request.Payload(commandLine)).value)
    ensures apiKey.Some? && service(apiKey.value, Request.Payload(commandLine)).None? ==> r == ""
  {
    match apiKey
    case None => ""
    case Some(key) =>
      match service(key, Request.Payload(commandLine))
      case None => ""
      case Some(response) => Response.ExtractText(response)
  }

  /** Without a key the service is never consulted: any two services give
      the same (empty) result. */
  lemma NoKeyNoRequest(commandLine: string, s1: (string, string) -> Option<string>,
                       s2: (string, string) -> Option<string>)
    ensures CallLlm(commandLine, None, s1) == CallLlm(commandLine, None, s2) == ""
  {
  }

  /** The result depends on the service only through its answer to the one
      request built from `commandLine`. */
  lemma OnlyTheOneRequestMatters(commandLine: string, key: string,
                                 s1: (string, string) -> Option<string>,
                                 s2: (string, string) -> Option<string>)
    requires s1(key, Request.Payload(commandLine)) == s2(key, Request.Payload(commandLine))
    ensures CallLlm(commandLine, Some(key), s1) == CallLlm(commandLine, Some(key), s2)
  {
  }

  /** With a key and a service answer whose first `"text":` is followed by a
      quote-free gap and a quoted quote-free value, the call returns that value. */
  lemma CallLlmReturnsText(commandLine: string, key: string,
                           service: (string, string) -> Option<string>,
                           pre: string, gap: string, value: string, post: string)
    requires service(key, Request.Payload(commandLine))
             == Some(pre + Response.TextMarker + gap + "\"" + value + "\"" + post)
    requires forall k :: !Response.OccursAt(pre, Response.TextMarker, k)
    requires forall i :: 0 <= i < |gap| ==> gap[i] != '"'
    requires forall i :: 0 <= i < |value| ==> value[i] != '"'
    ensures CallLlm(commandLine, Some(key), service) == value
  {
    Response.ExtractQuotedValue(pre, gap, value, post);
  }
}
