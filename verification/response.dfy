/**
 * The raw-text scan `call_llm` applies to the response body
 * (shell_complete.cpp:77-90). It does not parse JSON: it finds the first
 * `"text":`, then the first double quote at or after the position seven
 * characters past the start of that marker, then the next double quote,
 * and returns what lies strictly between the two quotes. Escapes are not
 * decoded, so a value holding `\"` is cut off at that quote. Any failed
 * search yields the empty string.
 */
module Response {
  import opened Wrappers

  /** The marker searched for, seven characters long. */
  const TextMarker: string := "\"text\":"

  /** `p` occurs in `s` starting at index `k`. */
  ghost predicate OccursAt(s: string, p: string, k: int) {
    0 <= k && k + |p| <= |s| && s[k..k + |p|] == p
  }

  /** `k` is the first occurrence of `p` in `s` at or after `from`. */
  ghost predicate IsFirstFrom(s: string, p: string, from: int, k: int) {
    from <= k && OccursAt(s, p, k) && forall j :: from <= j < k ==> !OccursAt(s, p, j)
  }

  /** `r` is a contiguous piece of `s`. */
  ghost predicate IsSubstring(r: string, s: string) {
    exists i, j :: 0 <= i <= j <= |s| && s[i..j] == r
  }

  /** `std::string::find(p, from)`: the first index at or after `from` where
      `p` occurs, or `None` (the library's `npos`) when there is none. */
  function Find(s: string, p: string, from: nat): (r: Option<nat>)
    ensures r.Some? ==> IsFirstFrom(s, p, from, r.value)
    ensures r.None? ==> forall k :: from <= k ==> !OccursAt(s, p, k)
    decreases |s| - from
  {
    if from + |p| > |s| then None
    else if s[from..from + |p|] == p then Some(from)
    else Find(s, p, from + 1)
  }

  /** The text the scan returns for `response`. */
  function ExtractText(response: string): (r: string)
    ensures forall i :: 0 <= i < |r| ==> r[i] != '"'
    ensures IsSubstring(r, response)
    ensures (forall k :: !OccursAt(response, TextMarker, k)) ==> r == ""
  {
    match Find(response, TextMarker, 0)
    case None => assert response[0..0] == ""; ""
    case Some(m) =>
      match Find(response, "\"", m + 7)
      case None => assert response[0..0] == ""; ""
      case Some(a) =>
        match Find(response, "\"", a + 1)
        case None => assert response[0..0] == ""; ""
        case Some(b) =>
          assert forall j :: a + 1 <= j < b ==> response[j] != '"' by {
            forall j | a + 1 <= j < b
              ensures response[j] != '"'
            {
              assert !OccursAt(response, "\"", j);
              assert response[j..j + 1] == [response[j]];
            }
          }
          response[a + 1..b]
  }

  /** `c` occurs at `k` exactly when `s[k]` is `c`. */
  lemma OccursAtChar(s: string, c: char, k: int)
    requires 0 <= k < |s|
    ensures OccursAt(s, [c], k) <==> s[k] == c
  {
  }

  /** When a first marker, an opening quote after it and a closing quote
      after that all exist, the result is the text between the two quotes. */
  lemma ExtractBetweenQuotes(response: string, m: nat, a: nat, b: nat)
    requires IsFirstFrom(response, TextMarker, 0, m)
    requires IsFirstFrom(response, "\"", m + 7, a)
    requires IsFirstFrom(response, "\"", a + 1, b)
    ensures ExtractText(response) == response[a + 1..b]
  {
  }

  /** No double quote at or after seven characters past the first marker:
      the result is empty. */
  lemma ExtractNoOpeningQuote(response: string, m: nat)
    requires IsFirstFrom(response, TextMarker, 0, m)
    requires forall k :: m + 7 <= k < |response| ==> response[k] != '"'
    ensures ExtractText(response) == ""
  {
  }

  /** An opening quote with no later quote: the result is empty. */
  lemma ExtractNoClosingQuote(response: string, m: nat, a: nat)
    requires IsFirstFrom(response, TextMarker, 0, m)
    requires IsFirstFrom(response, "\"", m + 7, a)
    requires forall k :: a < k < |response| ==> response[k] != '"'
    ensures ExtractText(response) == ""
  {
  }

  /** No piece of `pre + TextMarker + rest` that starts inside `pre` is the
      marker, provided `pre` itself does not contain it: the marker cannot
      overlap itself. */
  lemma MarkerFirstAfter(pre: string, rest: string)
    requires forall k :: !OccursAt(pre, TextMarker, k)
    ensures IsFirstFrom(pre + TextMarker + rest, TextMarker, 0, |pre|)
  {
    var s := pre + TextMarker + rest;
    assert s[|pre|..|pre| + 7] == TextMarker;
    forall j | 0 <= j < |pre|
      ensures !OccursAt(s, TextMarker, j)
    {
      if j + 7 <= |pre| {
        assert s[j..j + 7] == pre[j..j + 7];
        assert !OccursAt(pre, TextMarker, j);
      } else {
        // The marker would have to start inside `pre` and run into the
        // copy after it; its only inner quote is followed by ':' not 't'.
        var d := |pre| - j;
        assert s[j..j + 7][d] == '"';
        if d == 5 {
          assert s[j..j + 7][6] == 't' != TextMarker[6];
        } else {
          assert s[j..j + 7][d] != TextMarker[d];
        }
      }
    }
  }

  /** A quote-free run `g` at `from` followed by a quote: that quote is the
      first one at or after `from`. */
  lemma QuoteAfterRun(s: string, from: nat, g: string)
    requires from + |g| < |s|
    requires s[from..from + |g|] == g
    requires forall i :: 0 <= i < |g| ==> g[i] != '"'
    requires s[from + |g|] == '"'
    ensures IsFirstFrom(s, "\"", from, from + |g|)
  {
    OccursAtChar(s, '"', from + |g|);
    forall j | from <= j < from + |g|
      ensures !OccursAt(s, "\"", j)
    {
      assert s[j] == g[j - from];
      OccursAtChar(s, '"', j);
    }
  }

  /**
   * A response that reaches its first marker after `pre`, has no quote in
   * `gap`, and then a quoted `value` without quotes in it, yields `value`.
   */
  lemma ExtractQuotedValue(pre: string, gap: string, value: string, post: string)
    requires forall k :: !OccursAt(pre, TextMarker, k)
    requires forall i :: 0 <= i < |gap| ==> gap[i] != '"'
    requires forall i :: 0 <= i < |value| ==> value[i] != '"'
    ensures ExtractText(pre + TextMarker + gap + "\"" + value + "\"" + post) == value
  {
    var t := gap + "\"" + value + "\"" + post;
    var s := pre + TextMarker + t;
    assert s == pre + TextMarker + gap + "\"" + value + "\"" + post;
    var m := |pre|;
    var a := m + 7 + |gap|;
    var b := a + 1 + |value|;
    MarkerFirstAfter(pre, t);
    assert s[m + 7..] == t;
    assert s[m + 7..a] == gap;
    QuoteAfterRun(s, m + 7, gap);
    assert s[a + 1..b] == value;
    QuoteAfterRun(s, a + 1, value);
    ExtractBetweenQuotes(s, m, a, b);
  }

  /**
   * The scan does not understand JSON escapes: a value whose text begins
   * with a quote-free `head` followed by the escape `\"` comes back as `head`
   * plus the lone backslash, the rest of the value being dropped. For the body
   * `{"text":"find . -name \"*.pdf\""}` that is `find . -name \`, not the
   * decoded `find . -name "*.pdf"`.
   */
  lemma ExtractStopsAtEscapedQuote(pre: string, gap: string, head: string, tail: string)
    requires forall k :: !OccursAt(pre, TextMarker, k)
    requires forall i :: 0 <= i < |gap| ==> gap[i] != '"'
    requires forall i :: 0 <= i < |head| ==> head[i] != '"'
    ensures ExtractText(pre + TextMarker + gap + "\"" + head + "\\\"" + tail) == head + "\\"
  {
    ExtractQuotedValue(pre, gap, head + "\\", tail);
    assert pre + TextMarker + gap + "\"" + (head + "\\") + "\"" + tail
        == pre + TextMarker + gap + "\"" + head + "\\\"" + tail;
  }
}
