/**
 * The JSON string-literal escaper `escape_json` of shell_complete.cpp, and an
 * independent decoder that serves as its partner.
 *
 * The escaper rewrites each character on its own: a double quote and a
 * backslash get a backslash in front of them, newline, carriage return and tab
 * become the two-character escapes `\n`, `\r` and `\t`, and every other
 * character (other control characters included) is copied unchanged.
 */
module JsonEscape {
  import opened Wrappers

  /** The five characters the escaper rewrites. */
  predicate IsSpecial(c: char) {
    c == '"' || c == '\\' || c == '\n' || c == '\r' || c == '\t'
  }

  /** The raw line-control characters that must not appear in the output. */
  predicate IsLineControl(c: char) {
    c == '\n' || c == '\r' || c == '\t'
  }

  /** Decoding table: the character denoted by a backslash followed by `e`. */
  function EscapedMeaning(e: char): Option<char> {
    match e
    case '"' => Some('"')
    case '\\' => Some('\\')
    case 'n' => Some('\n')
    case 'r' => Some('\r')
    case 't' => Some('\t')
    case _ => None
  }

  /** What one iteration of the escaper's loop writes for `c`. */
  function EscapeChar(c: char): (r: string)
    ensures !IsSpecial(c) ==> r == [c]
    ensures IsSpecial(c) ==> |r| == 2 && r[0] == '\\' && EscapedMeaning(r[1]) == Some(c)
    ensures forall i :: 0 <= i < |r| ==> !IsLineControl(r[i])
  {
    if c == '"' || c == '\\' then ['\\', c]
    else if c == '\n' then "\\n"
    else if c == '\r' then "\\r"
    else if c == '\t' then "\\t"
    else [c]
  }

  /** Number of characters of `s` that the escaper rewrites. */
  function CountSpecial(s: string): nat {
    if s == [] then 0
    else (if IsSpecial(s[0]) then 1 else 0) + CountSpecial(s[1..])
  }

  /** `escape_json(s)`: the per-character escapes of `s`, in order. */
  function Escape(s: string): (r: string)
    ensures |r| == |s| + CountSpecial(s)
    ensures forall i :: 0 <= i < |r| ==> !IsLineControl(r[i])
  {
    if s == [] then []
    else EscapeChar(s[0]) + Escape(s[1..])
  }

  /** The escaper as the source writes it: one left-to-right pass appending
      each character's escape to an output buffer. */
  method EscapeJson(s: string) returns (o: string)
    ensures o == Escape(s)
    ensures |o| >= |s|
  {
    o := "";
    var i := 0;
    while i < |s|
      invariant 0 <= i <= |s|
      invariant o + Escape(s[i..]) == Escape(s)
    {
      assert s[i..][1..] == s[i + 1..];
      o := o + EscapeChar(s[i]);
      i := i + 1;
    }
    assert s[|s|..] == [];
  }

  /**
   * Decoder for the escaper's output. It accepts a backslash followed by one of
   * `"`, `\`, `n`, `r`, `t`, and any character other than the five special ones;
   * a raw quote, a raw line control, an unknown escape or a trailing lone
   * backslash makes it fail.
   */
  function Unescape(t: string): (r: Option<string>)
    decreases |t|
  {
    if t == [] then Some([])
    else if t[0] == '\\' then
      if |t| < 2 then None
      else match EscapedMeaning(t[1])
        case None => None
        case Some(c) =>
          match Unescape(t[2..])
          case None => None
          case Some(rest) => Some([c] + rest)
    else if IsSpecial(t[0]) then None
    else
      match Unescape(t[1..])
      case None => None
      case Some(rest) => Some([t[0]] + rest)
  }

  /** Escaping distributes over concatenation. */
  lemma {:induction false} EscapeAppend(a: string, b: string)
    ensures Escape(a + b) == Escape(a) + Escape(b)
  {
    if a == [] {
      assert a + b == b;
    } else {
      assert (a + b)[0] == a[0];
      assert (a + b)[1..] == a[1..] + b;
      EscapeAppend(a[1..], b);
    }
  }

  /** A string without special characters is its own escape. */
  lemma {:induction false} EscapeVerbatim(s: string)
    requires forall i :: 0 <= i < |s| ==> !IsSpecial(s[i])
    ensures Escape(s) == s
  {
    if s != [] {
      EscapeVerbatim(s[1..]);
    }
  }

  /** Decoding the escaper's output gives back the input. */
  lemma {:induction false} UnescapeEscape(s: string)
    ensures Unescape(Escape(s)) == Some(s)
  {
    if s != [] {
      var c := s[0];
      var t := Escape(s);
      UnescapeEscape(s[1..]);
      if IsSpecial(c) {
        assert t[0] == '\\' && t[2..] == Escape(s[1..]);
      } else {
        assert t[0] == c && t[1..] == Escape(s[1..]);
      }
      assert [c] + s[1..] == s;
    }
  }

  /** Every string the decoder accepts is the escape of what it decodes to. */
  lemma {:induction false} EscapeUnescape(t: string, s: string)
    requires Unescape(t) == Some(s)
    ensures Escape(s) == t
    decreases |t|
  {
    if t != [] {
      if t[0] == '\\' {
        var c := EscapedMeaning(t[1]).value;
        var rest := Unescape(t[2..]).value;
        assert s == [c] + rest;
        EscapeUnescape(t[2..], rest);
        assert EscapeChar(c) == t[..2];
        assert Escape(s) == EscapeChar(c) + Escape(rest);
        assert t == t[..2] + t[2..];
      } else {
        var rest := Unescape(t[1..]).value;
        assert s == [t[0]] + rest;
        EscapeUnescape(t[1..], rest);
        assert Escape(s) == EscapeChar(t[0]) + Escape(rest);
        assert t == [t[0]] + t[1..];
      }
    }
  }

  /** Different inputs never escape to the same output. */
  lemma EscapeInjective(a: string, b: string)
    requires Escape(a) == Escape(b)
    ensures a == b
  {
    UnescapeEscape(a);
    UnescapeEscape(b);
  }

  /**
   * Where a JSON reader ends a string literal whose body starts at `t[0]`:
   * the index of the first double quote that is not the second character of
   * a backslash pair.
   */
  function ClosingQuote(t: string): (r: Option<nat>)
    ensures r.Some? ==> r.value < |t| && t[r.value] == '"'
    decreases |t|
  {
    if t == [] then None
    else if t[0] == '"' then Some(0)
    else if t[0] == '\\' then
      if |t| < 2 then None
      else match ClosingQuote(t[2..])
        case None => None
        case Some(k) => Some(k + 2)
    else
      match ClosingQuote(t[1..])
      case None => None
      case Some(k) => Some(k + 1)
  }

  /** An escaped text placed between two quotes cannot end the literal early:
      the reader's closing quote is the one written after it. */
  lemma {:induction false} EscapedStaysInsideLiteral(s: string, rest: string)
    ensures ClosingQuote(Escape(s) + ['"'] + rest) == Some(|Escape(s)|)
  {
    var t := Escape(s) + ['"'] + rest;
    if s != [] {
      var tail := Escape(s[1..]) + ['"'] + rest;
      EscapedStaysInsideLiteral(s[1..], rest);
      if IsSpecial(s[0]) {
        assert t[0] == '\\' && t[2..] == tail;
      } else {
        assert t[0] == s[0] && t[1..] == tail;
      }
    }
  }
}
