/**
 * The request body `call_llm` hands to curl (shell_complete.cpp:28-37): a fixed
 * instruction preamble followed by the user's command forms the prompt, and
 * the prompt, escaped, is the `content` string of the single user message in
 * an otherwise constant Anthropic Messages API body.
 */
module Request {
  import opened Wrappers
  import opened JsonEscape

  /** The fixed instruction text placed in front of the user's command. */
  const Preamble: string :=
    "You are a shell command completion assistant. "
    + "Given a partial command, suggest the most likely completion or correction. "
    + "Respond with ONLY the complete command, nothing else. "
    + "Current partial command: "

  /** Everything in the body before the escaped prompt. */
  const PayloadPrefix: string :=
    "{"
    + "\"model\": \"claude-3-5-sonnet-20241022\","
    + "\"max_tokens\": 1024,"
    + "\"messages\": [{\"role\": \"user\", \"content\": \""

  /** Everything in the body after the escaped prompt. */
  const PayloadSuffix: string := "\"}]}"

  /** The prompt sent for `commandLine`. */
  function Prompt(commandLine: string): (p: string)
    ensures |p| == |Preamble| + |commandLine|
  {
    Preamble + commandLine
  }

  /** The JSON request body sent for `commandLine`. */
  function Payload(commandLine: string): (r: string)
    ensures |r| == |PayloadPrefix| + |Escape(Preamble)| + |commandLine| + CountSpecial(commandLine) + |PayloadSuffix|
  {
    EscapeAppend(Preamble, commandLine);
    PayloadPrefix + Escape(Prompt(commandLine)) + PayloadSuffix
  }

  /** `s` without its leading `prefix`, or `None` when it does not start
      with `prefix`. */
  function DropPrefix(s: string, prefix: string): (r: Option<string>)
    ensures r.Some? ==> prefix + r.value == s
    ensures r.None? ==> |s| < |prefix| || s[..|prefix|] != prefix
  {
    if |s| >= |prefix| && s[..|prefix|] == prefix then Some(s[|prefix|..]) else None
  }

  /** The decoded text of a body made of `prefix`, an escaped text and
      `suffix`, or `None` when the body does not have that form. */
  function Unframe(body: string, prefix: string, suffix: string): Option<string> {
    if |body| < |prefix| + |suffix|
       || body[..|prefix|] != prefix
       || body[|body| - |suffix|..] != suffix
    then None
    else Unescape(body[|prefix|..|body| - |suffix|])
  }

  /**
   * Reads the command line back out of a request body: checks the fixed
   * prefix and suffix, decodes the content string and strips the preamble.
   */
  function CommandOf(payload: string): (r: Option<string>)
  {
    match Unframe(payload, PayloadPrefix, PayloadSuffix)
    case None => None
    case Some(p) => DropPrefix(p, Preamble)
  }

  /** Splitting the escaped prompt inside a body of any fixed frame. */
  lemma FramedEscapeAppend(prefix: string, pre: string, c: string, suffix: string)
    ensures prefix + Escape(pre + c) + suffix == prefix + Escape(pre) + Escape(c) + suffix
  {
    EscapeAppend(pre, c);
  }

  /** Any frame around an escaped text is undone by `Unframe`, and any
      leading text is undone by `DropPrefix`. */
  lemma UnframeFrame(prefix: string, pre: string, c: string, suffix: string)
    ensures Unframe(prefix + Escape(pre + c) + suffix, prefix, suffix) == Some(pre + c)
    ensures DropPrefix(pre + c, pre) == Some(c)
  {
    var e := Escape(pre + c);
    var body := prefix + e + suffix;
    assert body[..|prefix|] == prefix;
    assert body[|body| - |suffix|..] == suffix;
    assert body[|prefix|..|body| - |suffix|] == e;
    UnescapeEscape(pre + c);
    assert (pre + c)[..|pre|] == pre;
    assert (pre + c)[|pre|..] == c;
  }

  /** A body that `Unframe` accepts is exactly its frame around the escape
      of what it decodes to. */
  lemma UnframeInverse(body: string, prefix: string, suffix: string, text: string)
    requires Unframe(body, prefix, suffix) == Some(text)
    ensures body == prefix + Escape(text) + suffix
  {
    var mid := body[|prefix|..|body| - |suffix|];
    EscapeUnescape(mid, text);
    assert body == body[..|prefix|] + mid + body[|body| - |suffix|..];
  }

  /** In a frame whose suffix opens with a quote, the string literal that
      starts after the prefix closes exactly at the suffix. */
  lemma FramedClosingQuote(prefix: string, text: string, suffix: string)
    requires |suffix| >= 1 && suffix[0] == '"'
    ensures ClosingQuote((prefix + Escape(text) + suffix)[|prefix|..])
         == Some(|prefix + Escape(text) + suffix| - |prefix| - |suffix|)
  {
    assert (prefix + Escape(text) + suffix)[|prefix|..] == Escape(text) + ['"'] + suffix[1..];
    EscapedStaysInsideLiteral(text, suffix[1..]);
  }

  /** Only the escaped user command varies between request bodies; the
      prefix, the escaped preamble and the suffix are the same every time. */
  lemma PayloadShape(commandLine: string)
    ensures Payload(commandLine) == PayloadPrefix + Escape(Preamble) + Escape(commandLine) + PayloadSuffix
  {
    FramedEscapeAppend(PayloadPrefix, Preamble, commandLine, PayloadSuffix);
  }

  /** The command line can be read back out of its request body. */
  lemma PayloadRoundTrip(commandLine: string)
    ensures CommandOf(Payload(commandLine)) == Some(commandLine)
  {
    UnframeFrame(PayloadPrefix, Preamble, commandLine, PayloadSuffix);
  }

  /** Reading a command line back succeeds only on the body built for it,
      so `CommandOf` is an exact inverse of `Payload`. */
  lemma CommandOfInverse(payload: string, commandLine: string)
    requires CommandOf(payload) == Some(commandLine)
    ensures payload == Payload(commandLine)
  {
    var text := Unframe(payload, PayloadPrefix, PayloadSuffix).value;
    UnframeInverse(payload, PayloadPrefix, PayloadSuffix, text);
    assert text == Prompt(commandLine);
  }

  /** Different command lines give different request bodies. */
  lemma PayloadInjective(a: string, b: string)
    requires Payload(a) == Payload(b)
    ensures a == b
  {
    PayloadRoundTrip(a);
    PayloadRoundTrip(b);
  }

  /** The content string opened at the end of the prefix is closed exactly
      where the fixed suffix begins, whatever the command line holds. */
  lemma ContentClosesAtSuffix(commandLine: string)
    ensures ClosingQuote(Payload(commandLine)[|PayloadPrefix|..])
         == Some(|Payload(commandLine)| - |PayloadPrefix| - |PayloadSuffix|)
  {
    FramedClosingQuote(PayloadPrefix, Prompt(commandLine), PayloadSuffix);
  }
}
