/** The few JavaScript text operations the front ends are written in. */
module JsText {
  import opened Texts

  /** The class `\s`. */
  predicate IsSpace(c: char) {
    || '\t' <= c <= '\r' || c == ' ' || c == '\U{00A0}' || c == '\U{1680}'
    || '\U{2000}' <= c <= '\U{200A}' || c == '\U{2028}' || c == '\U{2029}'
    || c == '\U{202F}' || c == '\U{205F}' || c == '\U{3000}' || c == '\U{FEFF}'
  }

  /** `slice(0, n)` */
  function Take(s: string, n: nat): string {
    if |s| <= n then s else s[..n]
  }

  /** `replace(/[class]{least,}/g, put)`, matching runs from the left. */
  function ReplaceRuns(s: string, inClass: char -> bool, least: nat, put: char): string
    requires least >= 1
  {
    if s == "" then ""
    else
      var n := RunLength(s, inClass);
      if n >= least then [put] + ReplaceRuns(s[n..], inClass, least, put)
      else [s[0]] + ReplaceRuns(s[1..], inClass, least, put)
  }
}
