/** `getArticleIllustrationUrl` (labyrint.jsx:286-295): the picture shown next
    to a result article. */
module Illustrations {
  import opened Filters

  /** `availableArticleIllustrations`: the source numbers that have a picture. */
  const AvailableIllustrations: seq<int> := [3, 21]

  const IllustrationDir: string := "article-illustrations/"
  const IllustrationExt: string := ".jpg"
  const Placeholder: string := "article-illustration-placeholder.svg"

  function DigitChar(d: nat): char
    requires d < 10
  {
    "0123456789"[d]
  }

  function DigitValue(c: char): nat
  {
    if '0' <= c <= '9' then (c - '0') as nat else 0
  }

  lemma DigitRoundTrip(d: nat)
    requires d < 10
    ensures DigitValue(DigitChar(d)) == d
  {
  }

  /** How a template literal prints a non-negative whole number: decimal
      digits, most significant first, no leading zero. */
  function DecimalString(n: nat): string
  {
    if n < 10 then [DigitChar(n)] else DecimalString(n / 10) + [DigitChar(n % 10)]
  }

  /** Reads decimal digits back into a number. */
  function ParseDecimal(s: string): nat
  {
    if s == [] then 0 else ParseDecimal(s[..|s| - 1]) * 10 + DigitValue(s[|s| - 1])
  }

  lemma {:induction false} ParseDecimalString(n: nat)
    ensures ParseDecimal(DecimalString(n)) == n
    ensures |DecimalString(n)| > 0
  {
    var s := DecimalString(n);
    if n < 10 {
      DigitRoundTrip(n);
      assert s[..0] == [];
    } else {
      ParseDecimalString(n / 10);
      DigitRoundTrip(n % 10);
      assert s[..|s| - 1] == DecimalString(n / 10);
      assert ParseDecimal(s) == ParseDecimal(DecimalString(n / 10)) * 10 + n % 10;
      assert n == n / 10 * 10 + n % 10;
    }
  }

  /** `getArticleIllustrationUrl(conspiracy)` */
  function IllustrationUrl(a: Article): string
  {
    if a.sourcesNo in AvailableIllustrations then
      IllustrationDir + DecimalString(a.sourcesNo as nat) + IllustrationExt
    else
      Placeholder
  }

  /** Two result articles show the same picture exactly when they have the
      same source number or neither has a picture of its own. */
  lemma IllustrationUrlDistinguishes(a: Article, b: Article)
    ensures IllustrationUrl(a) == IllustrationUrl(b) <==>
              (a.sourcesNo == b.sourcesNo ||
               (a.sourcesNo !in AvailableIllustrations && b.sourcesNo !in AvailableIllustrations))
  {
  }
}
