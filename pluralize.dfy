/** The pluralizer: the last rune decides the suffix. */
module Plural {

  /** What replaces the last rune: "ses" for 's', "ies" for 'y', otherwise the rune and 's'. */
  function Suffix(last: char): string {
    if last == 's' then "ses" else if last == 'y' then "ies" else [last, 's']
  }

  function PluralOf(s: string): string
    requires |s| > 0
  {
    s[..|s| - 1] + Suffix(s[|s| - 1])
  }

  /** pluralize as the source writes it; the empty input makes the source index
      rune -1 and panic, so it is excluded. The source's error result is always nil. */
  method Pluralize(input: string) returns (out: string)
    requires |input| > 0
    ensures out == PluralOf(input)
  {
    out := [];
    for i := 0 to |input| - 1
      invariant out == input[..i]
    {
      out := out + [input[i]];
    }
    var lastRune := input[|input| - 1];
    if lastRune == 's' {
      out := out + ['s', 'e', 's'];
    } else if lastRune == 'y' {
      out := out + ['i', 'e', 's'];
    } else {
      out := out + [lastRune, 's'];
    }
  }

  /** The plural keeps every rune but the last, always ends in 's', and is two
      runes longer after a final 's' or 'y' and one rune longer otherwise. */
  lemma PluralShape(s: string)
    requires |s| > 0
    ensures var r := PluralOf(s); var n := |s|; var last := s[n - 1];
      && r[..n - 1] == s[..n - 1]
      && |r| == (if last == 's' || last == 'y' then n + 2 else n + 1)
      && r[|r| - 1] == 's'
      && (last == 's' ==> r[n - 1..] == "ses")
      && (last == 'y' ==> r[n - 1..] == "ies")
      && (last != 's' && last != 'y' ==> r[n - 1..] == [last, 's'] && r[..n] == s)
  {
  }

  lemma PluralExamples()
    ensures PluralOf("bus") == "buses"
    ensures PluralOf("category") == "categories"
    ensures PluralOf("cat") == "cats"
  {
  }
}
