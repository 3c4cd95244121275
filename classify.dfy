/** The convention classifier: isCamelCase, isPascalCase and isSnakeCase.
    Each convention is defined once as a predicate over the runes of an
    identifier; the methods are the source's early-exit scans, proved to
    decide exactly that predicate. */
module Classify {
  import opened Runes

  predicate AllLetters(s: string) {
    forall k :: 0 <= k < |s| ==> IsLetter(s[k])
  }

  /** Every rune is a letter and the first rune, if any, is not upper case. */
  predicate InCamelCase(s: string) {
    AllLetters(s) && (|s| > 0 ==> !IsUpper(s[0]))
  }

  /** Every rune is a letter and the first rune, if any, is not lower case. */
  predicate InPascalCase(s: string) {
    AllLetters(s) && (|s| > 0 ==> !IsLower(s[0]))
  }

  /** Every rune is a lower-case letter or the separator '_'. */
  predicate InSnakeCase(s: string) {
    forall k :: 0 <= k < |s| ==> IsLower(s[k]) || s[k] == '_'
  }

  /** An identifier in none of the three conventions. */
  predicate Unrecognized(s: string) {
    !InCamelCase(s) && !InPascalCase(s) && !InSnakeCase(s)
  }

  method IsCamelCase(input: string) returns (b: bool)
    ensures b <==> InCamelCase(input)
  {
    for i := 0 to |input|
      invariant forall k :: 0 <= k < i ==> IsLetter(input[k])
      invariant i > 0 ==> !IsUpper(input[0])
    {
      var r := input[i];
      if i == 0 {
        if IsUpper(r) {
          return false;
        }
      }
      if !IsLetter(r) {
        return false;
      }
    }
    return true;
  }

  method IsPascalCase(input: string) returns (b: bool)
    ensures b <==> InPascalCase(input)
  {
    for i := 0 to |input|
      invariant forall k :: 0 <= k < i ==> IsLetter(input[k])
      invariant i > 0 ==> !IsLower(input[0])
    {
      var r := input[i];
      if i == 0 {
        if IsLower(r) {
          return false;
        }
      }
      if !IsLetter(r) {
        return false;
      }
    }
    return true;
  }

  method IsSnakeCase(input: string) returns (b: bool)
    ensures b <==> InSnakeCase(input)
  {
    for i := 0 to |input|
      invariant forall k :: 0 <= k < i ==> IsLower(input[k]) || input[k] == '_'
    {
      var r := input[i];
      if !IsLower(r) && r != '_' {
        return false;
      }
    }
    return true;
  }

  /** The empty identifier is in all three conventions at once. */
  lemma EmptyInEveryConvention()
    ensures InCamelCase("") && InPascalCase("") && InSnakeCase("")
  {
  }

  /** A non-empty identifier in Pascal case is in no other convention. */
  lemma PascalExcludesOthers(s: string)
    requires |s| > 0 && InPascalCase(s)
    ensures !InCamelCase(s) && !InSnakeCase(s)
  {
    assert !IsLower(s[0]) && s[0] != '_';
  }

  /** The only overlap between camel case and snake case: identifiers made of
      lower-case letters alone (single lower-case words, and the empty one). */
  lemma CamelSnakeOverlap(s: string)
    ensures InCamelCase(s) && InSnakeCase(s) <==> forall k :: 0 <= k < |s| ==> IsLower(s[k])
  {
    if InCamelCase(s) && InSnakeCase(s) {
      forall k | 0 <= k < |s| ensures IsLower(s[k]) {
        assert IsLetter(s[k]);
      }
    }
  }

  /** An identifier is unrecognized exactly when it holds a rune that is neither
      a letter nor '_', or holds both an '_' and an upper-case letter. */
  lemma UnrecognizedIff(s: string)
    ensures Unrecognized(s) <==>
      (exists k :: 0 <= k < |s| && !IsLetter(s[k]) && s[k] != '_') ||
      ('_' in s && exists k :: 0 <= k < |s| && IsUpper(s[k]))
  {
    if Unrecognized(s) {
      assert !AllLetters(s);
      var j :| 0 <= j < |s| && !IsLower(s[j]) && s[j] != '_';
      if !IsLetter(s[j]) {
      } else {
        var m :| 0 <= m < |s| && !IsLetter(s[m]);
        assert IsUpper(s[j]);
        assert s[m] == '_' || (!IsLetter(s[m]) && s[m] != '_');
      }
    }
  }
}
