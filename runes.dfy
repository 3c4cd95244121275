/** Letter classes and case mapping on runes: the model's stand-in for Go's
    unicode.IsUpper, unicode.IsLower, unicode.IsLetter, unicode.ToUpper and
    unicode.ToLower, restricted to the ASCII letters. */
module Runes {

  predicate IsUpper(c: char) { 'A' <= c <= 'Z' }

  predicate IsLower(c: char) { 'a' <= c <= 'z' }

  predicate IsLetter(c: char) { IsUpper(c) || IsLower(c) }

  /** Maps a lower-case letter to its upper-case form; every other rune is returned unchanged. */
  function ToUpper(c: char): (r: char)
    ensures IsLower(c) ==> IsUpper(r)
    ensures !IsLower(c) ==> r == c
  {
    if IsLower(c) then (c as int - 32) as char else c
  }

  /** Maps an upper-case letter to its lower-case form; every other rune is returned unchanged. */
  function ToLower(c: char): (r: char)
    ensures IsUpper(c) ==> IsLower(r)
    ensures !IsUpper(c) ==> r == c
  {
    if IsUpper(c) then (c as int + 32) as char else c
  }

  /** The two letter classes are disjoint, the case maps preserve being a letter,
      never produce the opposite class, and undo each other on letters. */
  lemma CaseMapping(c: char)
    ensures !(IsUpper(c) && IsLower(c))
    ensures IsLetter(ToUpper(c)) == IsLetter(c) && IsLetter(ToLower(c)) == IsLetter(c)
    ensures !IsLower(ToUpper(c)) && !IsUpper(ToLower(c))
    ensures IsUpper(c) ==> ToUpper(ToLower(c)) == c
    ensures IsLower(c) ==> ToLower(ToUpper(c)) == c
  {
  }
}
