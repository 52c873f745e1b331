# shell_ai_complete in Dafny

A model of the string handling in `shell_complete.cpp`, a small shell-completion
helper. It joins its arguments into a command line and wraps that line in a
fixed instruction prompt. The prompt is escaped into a JSON request body for
the Anthropic Messages API and posted with `curl`. The completion is then
scanned out of the raw response text and printed.

Modules, one file each:

- `Wrappers` (`wrappers.dfy`): `Option`.
- `JsonEscape` (`json_escape.dfy`): `escape_json` as `Escape`, the loop itself as
  `EscapeJson`, and an independent decoder `Unescape`. It also has
  `ClosingQuote`, which says where a JSON reader would end a string literal.
- `Request` (`request.dfy`): the prompt, the request body `Payload`, and its
  inverse `CommandOf`.
- `Response` (`response.dfy`): `std::string::find` as `Find` and the raw
  `"text":` scan as `ExtractText`.
- `Client` (`client.dfy`): `call_llm`. The environment lookup becomes an optional
  key, and the curl child process becomes a `service` function parameter.
- `Cli` (`cli.dfy`): `main`'s argument joining (`Join`, `JoinArguments`), `Split`
  (`Join` undoes `Split`; `Split` undoes `Join` when no argument contains a space), and the exit status and standard output as `Run`.

The raw scan does not decode JSON escapes. For the body
`{"content":[{"text":"find . -name \"*.pdf\""}]}` it returns `find . -name \`,
not the decoded `find . -name "*.pdf"` (see `Response.ExtractStopsAtEscapedQuote`).

## Model

| member | source | states |
|---|---|---|
| JsonEscape.EscapeChar | shell_complete.cpp:12-16 | a non-special character is copied alone; each of `"`, `\`, newline, CR and tab becomes a backslash plus a letter that the decoding table maps back to it; no raw line control is written |
| JsonEscape.Escape | shell_complete.cpp:9-19 | the output is exactly as much longer than the input as the input has `"`, `\`, newline, CR and tab characters; it holds no raw newline, CR or tab |
| JsonEscape.EscapeJson | shell_complete.cpp:9-19 | the left-to-right buffer loop produces the per-character escape of the whole input, never shorter than it |
| JsonEscape.EscapeAppend | shell_complete.cpp:10-18 | escaping distributes over concatenation, so each character is escaped independently of its neighbours |
| JsonEscape.EscapeVerbatim | shell_complete.cpp:16 | text with none of the five special characters, other control characters included, is copied unchanged |
| JsonEscape.UnescapeEscape | shell_complete.cpp:12-16 | decoding `\"`, `\\`, `\n`, `\r`, `\t` in the output returns the original input |
| JsonEscape.EscapeUnescape | shell_complete.cpp:12-16 | every string the decoder accepts is the escape of what it decodes to, so the escaper's image is exactly the decodable strings |
| JsonEscape.EscapeInjective | shell_complete.cpp:9-19 | two different inputs never escape to the same output |
| JsonEscape.EscapedStaysInsideLiteral | shell_complete.cpp:36 | an escaped text followed by a quote is read as one string literal that ends at that quote, so the prompt cannot close the `content` string early |
| Request.Prompt | shell_complete.cpp:28-31 | the prompt is the fixed preamble followed by the command line; its length is theirs combined |
| Request.PayloadShape | shell_complete.cpp:28-37 | the body is the fixed prefix, the escaped fixed preamble, the escaped command line and the fixed suffix `"}]}`; only the command part varies |
| Request.Payload | shell_complete.cpp:33-37 | the body's length is the constant parts plus the command line plus one per special character in it |
| Request.PayloadRoundTrip | shell_complete.cpp:28-37 | stripping the fixed prefix and suffix, decoding, and removing the preamble gives back the command line |
| Request.CommandOfInverse | shell_complete.cpp:28-37 | any body from which a command line is read back is exactly the body built for that command line, so reading back is an exact inverse of building |
| Request.PayloadInjective | shell_complete.cpp:28-37 | different command lines give different request bodies |
| Request.ContentClosesAtSuffix | shell_complete.cpp:36-37 | the `content` string opened by the prefix ends exactly where the fixed suffix starts |
| Response.Find | shell_complete.cpp:78-82 | a found index is the first occurrence at or after the start position; "not found" means there is no occurrence there |
| Response.ExtractText | shell_complete.cpp:78-90 | the result has no `"` and is a contiguous piece of the response; it is empty when the response has no `"text":` |
| Response.ExtractBetweenQuotes | shell_complete.cpp:78-84 | given the first marker, the first quote seven or more characters after its start, and the next quote, the result is exactly the text between the two quotes |
| Response.ExtractNoOpeningQuote | shell_complete.cpp:80-81 | with no quote at or after marker start + 7 the result is empty |
| Response.ExtractNoClosingQuote | shell_complete.cpp:82-83 | with an opening quote but no later quote the result is empty |
| Response.MarkerFirstAfter | shell_complete.cpp:78 | the marker cannot overlap itself, so in a marker-free prefix followed by the marker, the first occurrence is where the marker was placed |
| Response.ExtractQuotedValue | shell_complete.cpp:78-84 | a response whose first `"text":` is followed by a quote-free gap and a quoted quote-free value yields that value |
| Response.ExtractStopsAtEscapedQuote | shell_complete.cpp:80-84 | escapes are not decoded: a value containing `\"` is returned only up to and including the backslash |
| Client.CallLlm | shell_complete.cpp:21-91 | with no key the result is empty; a failed transport gives empty; otherwise the result is a quote-free piece of the service's response to this command's request body |
| Client.CallLlmReturnsText | shell_complete.cpp:78-84 | with a key, when the service's answer has its first `"text":` followed by a quote-free gap and a quoted quote-free value, the call returns exactly that value |
| Client.NoKeyNoRequest | shell_complete.cpp:22-26 | without a key the service's behaviour cannot affect the result, which is empty |
| Client.OnlyTheOneRequestMatters | shell_complete.cpp:33-62 | the result depends only on the service's answer to the single request built from the command line |
| Cli.Join | shell_complete.cpp:99-103 | one argument passes through unchanged; no arguments give the empty string; otherwise the length is the arguments' total plus one separator between each pair |
| Cli.JoinArguments | shell_complete.cpp:99-103 | the loop over `argv[1..]` builds the single-space join, with no leading or trailing separator |
| Cli.JoinSplit | shell_complete.cpp:99-103 | splitting at spaces and re-joining gives back any string |
| Cli.SplitJoin | shell_complete.cpp:99-103 | when no argument contains a space, splitting the joined line recovers the arguments exactly |
| Cli.Run | shell_complete.cpp:93-111 | exit status 1 exactly when fewer than two `argv` entries, 0 otherwise; nothing is printed on the usage error; output appears exactly when the completion is non-empty and ends in a newline |
| Cli.PrintedCompletion | shell_complete.cpp:105-108 | what is printed is the completion followed by one newline |
| Cli.RunPrintsText | shell_complete.cpp:105-110 | with at least one argument and an answer carrying a non-empty quoted `"text":` value, the program prints that value and a newline and exits 0 |
| Cli.ArgumentsReachService | shell_complete.cpp:99-105 | the joined command line can be read back from the request body, and space-free arguments can be recovered from it |

## Left out

- Process plumbing in `call_llm` (`pipe`, `fork`, `dup2`, `execlp` of `curl`, `read`, `waitpid`). It becomes the `service` parameter, whose `None` stands for a failed `pipe` or `fork`. A failed `exec` or a curl error shows up as whatever text the child wrote.
- The `x-api-key` and `anthropic-version` headers and the endpoint URL. They go only to the external service, so they are not part of the model.
- `getenv("ANTHROPIC_API_KEY")` becomes an `Option<string>` parameter.
- Everything written to the error stream: the usage line, the missing-key message, and the pipe and fork failure messages.
- The LLM's behaviour. Responses are arbitrary strings.
- test_llm.cpp as a whole. It is libcurl transport, request building and response checks through the nlohmann::json library (not part of this model), and a live-network self-test driven by environment variables.
- Request.Payload: that the fixed prefix and suffix hold no raw line controls is not proved, because it is a fact about constant text only. The escaped part's freedom from raw line controls is proved, by `JsonEscape.Escape`.
- Characters versus bytes: the source escapes, searches and slices `std::string` bytes, and the model works on Dafny `string`, whose elements are Unicode scalar values. The five special characters and `"text":` are ASCII, so for valid UTF-8 the two agree. Input that is not valid UTF-8, in the arguments or in the curl output, cannot be expressed, and indices count characters, not bytes.
- The service always answers: `service` is a total function, but the source sets no timeout, so a curl that hangs blocks at `read` or `waitpid` (shell_complete.cpp:70-75) forever.
