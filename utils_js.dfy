/**
 * The shared browser helpers besides `getCsrfToken`: the toast colour chosen for a message
 * type, and `escapeHtml`, which reads back the markup of a text node holding the text. A
 * text node serializes by the "escaping a string" steps of the HTML Living Standard
 * (section 13.3, serializing HTML fragments) outside attribute mode: `&`, U+00A0, `<` and
 * `>` become entities and every other character, quotes included, is kept.
 */
module UtilsJs {
  import opened Strings

  // ---------------------------------------------------------------- toast colours

  const ToastColours: map<string, string> :=
    map["error" := "#f44336", "success" := "#4CAF50", "warning" := "#ff9800", "info" := "#2196F3"]

  /** `colors[type] || colors.info` in `showToast`. */
  function ToastColour(kind: string): (colour: string)
    ensures kind in ToastColours ==> colour == ToastColours[kind]
    ensures kind !in ToastColours ==> colour == ToastColours["info"]
  {
    if kind in ToastColours && ToastColours[kind] != "" then ToastColours[kind] else ToastColours["info"]
  }

  /** Every type gets one of the four colours, and an unknown type looks like `info`. */
  lemma ToastColourIsKnown(kind: string)
    ensures ToastColour(kind) in ToastColours.Values
    ensures kind !in {"error", "success", "warning"} ==> ToastColour(kind) == ToastColour("info")
  {
    assert ToastColours["info"] in ToastColours.Values;
    if kind in ToastColours {
      assert ToastColours[kind] in ToastColours.Values;
    }
  }

  // ---------------------------------------------------------------- escapeHtml

  const NoBreakSpace: char := '\U{00A0}'

  /** How a text node writes one character of its data. */
  function EscapeChar(c: char): string {
    if c == '&' then "&amp;"
    else if c == NoBreakSpace then "&nbsp;"
    else if c == '<' then "&lt;"
    else if c == '>' then "&gt;"
    else [c]
  }

  /** `escapeHtml(text)`: the `innerHTML` of a `div` whose `textContent` is text. */
  function EscapeHtml(text: string): string {
    FlatMap(EscapeChar, text)
  }

  /** Escaping works character by character, so it distributes over concatenation. */
  lemma EscapeHtmlConcat(a: string, b: string)
    ensures EscapeHtml(a + b) == EscapeHtml(a) + EscapeHtml(b)
  {
    FlatMapConcat(EscapeChar, a, b);
  }

  /** Every `&` of t begins one of the four entities. */
  predicate AmpersandsBeginEntities(t: string) {
    forall k :: 0 <= k < |t| && t[k] == '&' ==>
      StartsWith(t[k..], "&amp;") || StartsWith(t[k..], "&nbsp;")
      || StartsWith(t[k..], "&lt;") || StartsWith(t[k..], "&gt;")
  }

  lemma EntityAtHead(c: char, tail: string, k: nat)
    requires k < |EscapeChar(c)| && EscapeChar(c)[k] == '&'
    ensures k == 0
    ensures var t := EscapeChar(c) + tail;
            StartsWith(t, "&amp;") || StartsWith(t, "&nbsp;") || StartsWith(t, "&lt;") || StartsWith(t, "&gt;")
  {
    StartsWithConcat(EscapeChar(c), tail);
  }

  lemma StartsWithShift(head: string, tail: string, k: nat, p: string)
    requires |head| <= k < |head + tail| && StartsWith(tail[k - |head|..], p)
    ensures StartsWith((head + tail)[k..], p)
  {
    assert (head + tail)[k..] == tail[k - |head|..];
  }

  /**
   * The escaped text holds no `<`, `>` or no-break space, so no tag can start in it, and
   * each `&` in it begins an entity.
   */
  lemma {:induction false} EscapeHtmlShape(s: string)
    ensures '<' !in EscapeHtml(s) && '>' !in EscapeHtml(s) && NoBreakSpace !in EscapeHtml(s)
    ensures AmpersandsBeginEntities(EscapeHtml(s))
    decreases |s|
  {
    if |s| > 0 {
      EscapeHtmlShape(s[1..]);
      var head, tail := EscapeChar(s[0]), EscapeHtml(s[1..]);
      var t := head + tail;
      assert EscapeHtml(s) == t;
      forall k | 0 <= k < |t| && t[k] == '&'
        ensures StartsWith(t[k..], "&amp;") || StartsWith(t[k..], "&nbsp;")
                || StartsWith(t[k..], "&lt;") || StartsWith(t[k..], "&gt;")
      {
        if k < |head| {
          EntityAtHead(s[0], tail, k);
          assert t[k..] == t;
        } else {
          assert tail[k - |head|] == '&';
          if StartsWith(tail[k - |head|..], "&amp;") {
            StartsWithShift(head, tail, k, "&amp;");
          } else if StartsWith(tail[k - |head|..], "&nbsp;") {
            StartsWithShift(head, tail, k, "&nbsp;");
          } else if StartsWith(tail[k - |head|..], "&lt;") {
            StartsWithShift(head, tail, k, "&lt;");
          } else {
            StartsWithShift(head, tail, k, "&gt;");
          }
        }
      }
    }
  }

  /** Text without the four special characters, quotes included, comes out as it went in. */
  lemma {:induction false} EscapeHtmlKeepsPlainText(s: string)
    requires '&' !in s && '<' !in s && '>' !in s && NoBreakSpace !in s
    ensures EscapeHtml(s) == s
    decreases |s|
  {
    if |s| > 0 {
      EscapeHtmlKeepsPlainText(s[1..]);
      assert s == [s[0]] + s[1..];
    }
  }

  /** Reads one character back from the start of escaped text, and how much it used. */
  function UnescapeAt(t: string): (r: (char, nat))
    requires |t| > 0
    ensures 1 <= r.1 <= |t|
  {
    if StartsWith(t, "&amp;") then ('&', 5)
    else if StartsWith(t, "&nbsp;") then (NoBreakSpace, 6)
    else if StartsWith(t, "&lt;") then ('<', 4)
    else if StartsWith(t, "&gt;") then ('>', 4)
    else (t[0], 1)
  }

  /** The decoding that undoes `escapeHtml`: the four entities back to their characters. */
  function UnescapeHtml(t: string): string
    decreases |t|
  {
    if |t| == 0 then ""
    else var (c, n) := UnescapeAt(t); [c] + UnescapeHtml(t[n..])
  }

  lemma DiffersAt(u: string, p: string, k: nat)
    requires k < |p| && k < |u| && u[k] != p[k]
    ensures !StartsWith(u, p)
  {
    assert |p| <= |u| ==> u[..|p|][k] == u[k];
  }

  lemma UnescapeAtEscaped(c: char, t: string)
    ensures UnescapeAt(EscapeChar(c) + t) == (c, |EscapeChar(c)|)
  {
    var e := EscapeChar(c);
    var u := e + t;
    StartsWithConcat(e, t);
    if c == '&' {
    } else if c == NoBreakSpace {
      DiffersAt(u, "&amp;", 1);
    } else if c == '<' {
      DiffersAt(u, "&amp;", 1); DiffersAt(u, "&nbsp;", 1);
    } else if c == '>' {
      DiffersAt(u, "&amp;", 1); DiffersAt(u, "&nbsp;", 1); DiffersAt(u, "&lt;", 1);
    } else {
      assert e == [c];
      DiffersAt(u, "&amp;", 0); DiffersAt(u, "&nbsp;", 0); DiffersAt(u, "&lt;", 0); DiffersAt(u, "&gt;", 0);
    }
  }

  lemma UnescapeCons(c: char, t: string)
    ensures UnescapeHtml(EscapeChar(c) + t) == [c] + UnescapeHtml(t)
  {
    UnescapeAtEscaped(c, t);
    StartsWithConcat(EscapeChar(c), t);
  }

  /** Nothing is lost: decoding the escaped text gives back the text. */
  lemma {:induction false} EscapeHtmlRoundTrip(s: string)
    ensures UnescapeHtml(EscapeHtml(s)) == s
    decreases |s|
  {
    if |s| > 0 {
      UnescapeCons(s[0], EscapeHtml(s[1..]));
      EscapeHtmlRoundTrip(s[1..]);
      assert s == [s[0]] + s[1..];
    }
  }
}
