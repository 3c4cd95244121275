# genplate identifier helpers in Dafny

genplate renders a Go text template and exposes four helper functions to
templates: `Pluralize`, `CamelCase`, `PascalCase` and `SnakeCase`. This
project models those helpers and the three classifiers they use
(`isCamelCase`, `isPascalCase`, `isSnakeCase`), all from `genplate.go`.

- `runes.dfy` (module `Runes`): letter classes and case mapping. This is the
  model's version of Go's `unicode` functions, restricted to ASCII letters.
- `classify.dfy` (module `Classify`): each convention is written once as a
  predicate (`InCamelCase`, `InPascalCase`, `InSnakeCase`). The source's
  early-exit scans are methods proved to decide exactly that predicate.
  Lemmas cover the empty identifier, how the conventions overlap, and when
  an identifier is in none of them.
- `convert.dfy` (module `Convert`): the converters as functions of their
  input (`ToCamel`, `ToPascal`, `ToSnake`). Each checks camel, then Pascal,
  then snake, and fails with `CannotConvert(input, target)`. The source's
  rune-by-rune loops are methods (`CamelCase`, `PascalCase`, `SnakeCase`)
  proved equal to those functions. Lemmas give each branch's meaning:
  lengths, which runes change case, where separators appear, which
  convention the output is in, and worked examples.
- `intended.dfy` (module `Intended`): the corrected snake branches (see
  Findings) and the round trip they restore.
- `pluralize.dfy` (module `Plural`): `pluralize` as a loop-building method,
  proved equal to `PluralOf`, plus its shape and examples.

The snake branches are modelled as the code is written. Their test
`runes[i-i] == '_'` always reads rune 0. So `camelCase("hello_world")` is
`"helloworld"` and `pascalCase("hello_world")` is `"Helloworld"`. Kept
letters are upper-cased only when the input starts with `_`. The evident
intent is to upper-case the letter after each underscore, which would give
`"helloWorld"` and `"HelloWorld"`. That rule is the separate variant in
module `Intended`. Also, `pluralize("")` does not return an error: it
indexes rune -1 and panics. The model therefore requires a non-empty input.

The empty identifier is in all three conventions. Every converter therefore
maps it to itself, through the camel branch.

## Model

| member | source | states |
|---|---|---|
| Runes.CaseMapping | genplate.go:177-178 | upper and lower case are disjoint; the case maps keep letters letters, never give the opposite class, and undo each other on letters |
| Classify.IsCamelCase | genplate.go:202-217 | returns true iff every rune is a letter and the first rune, if any, is not upper case |
| Classify.IsPascalCase | genplate.go:219-234 | returns true iff every rune is a letter and the first rune, if any, is not lower case |
| Classify.IsSnakeCase | genplate.go:236-246 | returns true iff every rune is a lower-case letter or `_` |
| Classify.EmptyInEveryConvention | genplate.go:202-246 | the empty identifier satisfies all three predicates |
| Classify.PascalExcludesOthers | genplate.go:202-246 | a non-empty Pascal-case identifier is neither camel case nor snake case |
| Classify.CamelSnakeOverlap | genplate.go:202-246 | an identifier is both camel and snake case iff all its runes are lower-case letters |
| Classify.UnrecognizedIff | genplate.go:202-246 | no convention holds iff some rune is neither a letter nor `_`, or the identifier holds both an `_` and an upper-case letter |
| Convert.CamelCase | genplate.go:104-135 | the loop-built result equals `ToCamel(input)`, including the error case |
| Convert.PascalCase | genplate.go:137-168 | the loop-built result equals `ToPascal(input)`, including the error case |
| Convert.SnakeCase | genplate.go:170-200 | the loop-built result equals `ToSnake(input)`, including the error case |
| Convert.ConversionErrors | genplate.go:104-200 | each converter fails exactly when no convention holds; its only error carries the input and its own target |
| Convert.EmptyConverts | genplate.go:108-110 | every converter maps `""` to `""` |
| Convert.ConverterIdentity | genplate.go:104-200 | camelCase, pascalCase and snakeCase return an input already in their target convention unchanged; for snake case this includes lower-case words, which take the camel branch |
| Convert.CamelFromPascal | genplate.go:111-118 | on a non-empty Pascal input, camelCase keeps the length, lower-cases rune 0, copies the rest, and yields camel case |
| Convert.PascalFromCamel | genplate.go:142-149 | on a camel input, pascalCase keeps the length, upper-cases rune 0, copies the rest, and yields Pascal case |
| Convert.FlipComposes | genplate.go:104-168 | for camel or Pascal inputs, pascalCase after camelCase equals pascalCase, and camelCase after pascalCase equals camelCase |
| Convert.SnakeFromCamel | genplate.go:175-182 | on a camel input, snakeCase has length n plus the number of upper-case runes, is snake case, keeps rune 0 and starts with no `_`, holds one `_` per upper-case rune, and without its `_` equals the input in lower case |
| Convert.SnakeFromPascal | genplate.go:183-192 | on a non-empty Pascal input, snakeCase has length n plus the upper-case runes after position 0, is snake case, starts with the lower-cased rune 0, holds one `_` per later upper-case rune, and without its `_` equals the input in lower case |
| Convert.CamelFromSnake | genplate.go:119-129 | on a snake input that is not camel case, camelCase drops every `_` (length n minus the `_` count); case aside, nothing else changes; letters are all upper case if the input starts with `_`, otherwise all lower case |
| Convert.PascalFromSnake | genplate.go:152-162 | on a snake input that is not camel case, pascalCase drops every `_`; case aside, nothing else changes; the result is Pascal case, all upper case if the input starts with `_`, otherwise only its first letter |
| Convert.SnakeExamples | genplate.go:170-200 | snakeCase gives `"hello_world"` for both `"HelloWorld"` and `"helloWorld"` |
| Convert.CamelExample | genplate.go:119-129 | camelCase gives `"helloworld"` for `"hello_world"` |
| Convert.PascalExample | genplate.go:152-162 | pascalCase gives `"Helloworld"` for `"hello_world"` |
| Convert.StrayRune | genplate.go:130-131 | a single rune that is neither a letter nor `_` makes all three converters fail |
| Convert.UnrecognizedExamples | genplate.go:130-131 | all three converters fail on `"foo2bar"` and `"foo-bar"` |
| Intended.AsWrittenLosesBoundary | genplate.go:124 | the well-formed `"hello_world"` goes through camelCase or pascalCase and then snakeCase and comes back as `"helloworld"` |
| Intended.CamelRoundTrip | genplate.go:124 | with `runes[i-1]`, any well-formed snake identifier converted to camel case converts back to itself |
| Intended.PascalRoundTrip | genplate.go:157 | with `runes[i-1]`, any well-formed snake identifier converted to Pascal case converts back to itself |
| Intended.IntendedExamples | genplate.go:124 | with `runes[i-1]`, `"hello_world"` becomes `"helloWorld"` and `"HelloWorld"` |
| Plural.Pluralize | genplate.go:81-102 | for non-empty input, the loop-built result equals `PluralOf(input)` |
| Plural.PluralShape | genplate.go:81-101 | the plural keeps the first n-1 runes; it ends in `"ses"` after a final `s`, `"ies"` after `y`, and otherwise the last rune then `s`; its length is n+2 or n+1; it always ends in `s` |
| Plural.PluralExamples | genplate.go:92-99 | `"bus"` becomes `"buses"`, `"category"` becomes `"categories"`, `"cat"` becomes `"cats"` |

## Left out

- `main` (genplate.go:13-55): argument scanning, template parsing and execution, file creation and reading, JSON decoding and `log.Fatal`. These are I/O and library calls.
- `usage` (genplate.go:57-70): printing and `os.Exit`.
- `usefulFuncs` (genplate.go:72-79): it only registers the helpers under the template names `Pluralize`, `CamelCase`, `PascalCase` and `SnakeCase`. They are `Plural.Pluralize`, `Convert.CamelCase`, `Convert.PascalCase` and `Convert.SnakeCase` here.
- Go's Unicode tables: `Runes` treats only `A`-`Z` as upper case and `a`-`z` as lower case. Other runes count as non-letters and are left unchanged by the case maps. An identifier with a non-ASCII letter (for example `"café"`) is therefore classified differently from Go. Titlecase letters are not modelled.
- UTF-8 decoding in `[]rune(in)` and encoding in `string(out)`: identifiers are sequences of Unicode scalar values. The replacement of invalid UTF-8 is not modelled.
- The error message: `ConversionError.Message` builds the text `cannot convert <input> to <target>`, but no property is stated about it. The empty string Go returns beside an error is not modelled.
- Plural.Pluralize: the source's error result is always nil, so the method returns only the string. The empty input, where the source panics, is excluded by its precondition.

## Findings

| source | as written | input that shows it | evidently intended | confidence | as-written member | corrected member |
|---|---|---|---|---|---|---|
| genplate.go:124 | `i > 0 && runes[i-i] == '_'` tests rune 0, so no letter after an underscore is upper-cased | `"hello_world"`: camelCase gives `"helloworld"`, and snakeCase of that is `"helloworld"` | `runes[i-1]`: upper-case the letter after each underscore, giving `"helloWorld"`, which snake-cases back to `"hello_world"` | high, not executed | Intended.AsWrittenLosesBoundary | Intended.CamelRoundTrip |
| genplate.go:157 | the test `runes[i-i] == '_'` beside `i == 0` reads rune 0, so only the first letter is upper-cased | `"hello_world"`: pascalCase gives `"Helloworld"`, and snakeCase of that is `"helloworld"` | `runes[i-1]`: upper-case the first letter and each letter after an underscore, giving `"HelloWorld"` | high, not executed | Intended.AsWrittenLosesBoundary | Intended.PascalRoundTrip |

The converters in module `Convert` keep the as-written behaviour, because
they model the code as it runs. The corrected branches are
`Intended.ToCamelIntended` and `Intended.ToPascalIntended`, and the
intended-behaviour properties are proved about those.
