/** The convention converter: camelCase, pascalCase and snakeCase. Each
    classifies its input in the fixed order camel, Pascal, snake, returns the
    input unchanged when it is already in the target convention, rebuilds it
    rune by rune otherwise, and fails with an error naming the input and the
    target when no convention holds. The snake branches follow the code as
    written: the test `runes[i-i] == '_'` always reads rune 0. */
module Convert {
  import opened Runes
  import opened Classify

  datatype Target = CamelTarget | PascalTarget | SnakeTarget

  /** The target's name as the error message spells it. */
  function TargetName(t: Target): string {
    match t
    case CamelTarget => "camelCase"
    case PascalTarget => "pascalCase"
    case SnakeTarget => "snakeCase"
  }

  /** The one error a converter returns: the input matches no convention. */
  datatype ConversionError = CannotConvert(input: string, target: Target) {
    function Message(): string {
      "cannot convert " + input + " to " + TargetName(target)
    }
  }

  datatype Result<T> = Ok(value: T) | Err(error: ConversionError)

  // ---------------------------------------------------------------------
  // Rune-sequence transformations the branches are specified by

  function LowerFirst(s: string): string {
    if s == [] then [] else [ToLower(s[0])] + s[1..]
  }

  function UpperFirst(s: string): string {
    if s == [] then [] else [ToUpper(s[0])] + s[1..]
  }

  function LowerAll(s: string): string {
    seq(|s|, k requires 0 <= k < |s| => ToLower(s[k]))
  }

  function UpperAll(s: string): string {
    seq(|s|, k requires 0 <= k < |s| => ToUpper(s[k]))
  }

  /** The runes of s other than '_', in order. */
  function DropUnderscores(s: string): string {
    if s == [] then [] else (if s[0] == '_' then [] else [s[0]]) + DropUnderscores(s[1..])
  }

  /** How the camel-to-snake conversion emits one rune. */
  function Split(c: char): string {
    if IsUpper(c) then ['_', ToLower(c)] else [c]
  }

  /** Every upper-case rune replaced by '_' and its lower-case form. */
  function Snakify(s: string): string {
    if s == [] then [] else Split(s[0]) + Snakify(s[1..])
  }

  function CountUpper(s: string): nat {
    if s == [] then 0 else (if IsUpper(s[0]) then 1 else 0) + CountUpper(s[1..])
  }

  /** The snake branch of camelCase as written: the underscores are dropped, and
      the kept runes are upper-cased only when rune 0 is '_'. */
  function CamelOfSnake(s: string): string {
    if |s| > 0 && s[0] == '_' then UpperAll(DropUnderscores(s)) else DropUnderscores(s)
  }

  /** The snake branch of pascalCase as written: the underscores are dropped;
      when rune 0 is '_' every kept rune is upper-cased, otherwise only the first. */
  function PascalOfSnake(s: string): string {
    if |s| > 0 && s[0] == '_' then UpperAll(DropUnderscores(s)) else UpperFirst(DropUnderscores(s))
  }

  // ---------------------------------------------------------------------
  // The three converters as functions of the input

  function ToCamel(s: string): Result<string> {
    if InCamelCase(s) then Ok(s)
    else if InPascalCase(s) then Ok(LowerFirst(s))
    else if InSnakeCase(s) then Ok(CamelOfSnake(s))
    else Err(CannotConvert(s, CamelTarget))
  }

  function ToPascal(s: string): Result<string> {
    if InCamelCase(s) then Ok(UpperFirst(s))
    else if InPascalCase(s) then Ok(s)
    else if InSnakeCase(s) then Ok(PascalOfSnake(s))
    else Err(CannotConvert(s, PascalTarget))
  }

  function ToSnake(s: string): Result<string> {
    if InCamelCase(s) then Ok(Snakify(s))
    else if InPascalCase(s) then Ok(Snakify(LowerFirst(s)))
    else if InSnakeCase(s) then Ok(s)
    else Err(CannotConvert(s, SnakeTarget))
  }

  // ---------------------------------------------------------------------
  // The converters as the source writes them

  method CamelCase(input: string) returns (r: Result<string>)
    ensures r == ToCamel(input)
  {
    var camel := IsCamelCase(input);
    if camel {
      return Ok(input);
    }
    var out: string := [];
    var pascal := IsPascalCase(input);
    if pascal {
      for i := 0 to |input|
        invariant out == LowerFirst(input[..i])
      {
        LowerFirstStep(input, i);
        if i == 0 {
          out := out + [ToLower(input[i])];
        } else {
          out := out + [input[i]];
        }
      }
      assert input[..|input|] == input;
      return Ok(out);
    }
    var snake := IsSnakeCase(input);
    if snake {
      for i := 0 to |input|
        invariant out == CamelOfSnake(input[..i])
      {
        CamelOfSnakeStep(input, i);
        var c := input[i];
        if c == '_' {
          continue;
        }
        if i > 0 && input[i - i] == '_' {
          out := out + [ToUpper(c)];
        } else {
          out := out + [c];
        }
      }
      assert input[..|input|] == input;
      return Ok(out);
    }
    return Err(CannotConvert(input, CamelTarget));
  }

  method PascalCase(input: string) returns (r: Result<string>)
    ensures r == ToPascal(input)
  {
    var out: string := [];
    var camel := IsCamelCase(input);
    if camel {
      for i := 0 to |input|
        invariant out == UpperFirst(input[..i])
      {
        UpperFirstStep(input, i);
        if i == 0 {
          out := out + [ToUpper(input[i])];
        } else {
          out := out + [input[i]];
        }
      }
      assert input[..|input|] == input;
      return Ok(out);
    }
    var pascal := IsPascalCase(input);
    if pascal {
      return Ok(input);
    }
    var snake := IsSnakeCase(input);
    if snake {
      for i := 0 to |input|
        invariant out == PascalOfSnake(input[..i])
      {
        PascalOfSnakeStep(input, i);
        var c := input[i];
        if c == '_' {
          continue;
        }
        if i == 0 || input[i - i] == '_' {
          out := out + [ToUpper(c)];
        } else {
          out := out + [c];
        }
      }
      assert input[..|input|] == input;
      return Ok(out);
    }
    return Err(CannotConvert(input, PascalTarget));
  }

  method SnakeCase(input: string) returns (r: Result<string>)
    ensures r == ToSnake(input)
  {
    var out: string := [];
    var camel := IsCamelCase(input);
    if camel {
      for i := 0 to |input|
        invariant out == Snakify(input[..i])
      {
        SnakifySnoc(input[..i], input[i]);
        assert input[..i + 1] == input[..i] + [input[i]];
        var c := input[i];
        if IsUpper(c) {
          out := out + ['_', ToLower(c)];
        } else {
          out := out + [c];
        }
      }
      assert input[..|input|] == input;
      return Ok(out);
    }
    var pascal := IsPascalCase(input);
    if pascal {
      for i := 0 to |input|
        invariant out == Snakify(LowerFirst(input[..i]))
      {
        LowerFirstStep(input, i);
        SnakifySnoc(LowerFirst(input[..i]), if i == 0 then ToLower(input[i]) else input[i]);
        var c := input[i];
        if i == 0 {
          out := out + [ToLower(c)];
        } else if IsUpper(c) {
          out := out + ['_', ToLower(c)];
        } else {
          out := out + [c];
        }
      }
      assert input[..|input|] == input;
      return Ok(out);
    }
    var snake := IsSnakeCase(input);
    if snake {
      return Ok(input);
    }
    return Err(CannotConvert(input, SnakeTarget));
  }

  // ---------------------------------------------------------------------
  // One loop step of each rebuilding branch

  lemma LowerFirstStep(s: string, i: nat)
    requires i < |s|
    ensures LowerFirst(s[..i + 1]) == LowerFirst(s[..i]) + [if i == 0 then ToLower(s[i]) else s[i]]
  {
  }

  lemma UpperFirstStep(s: string, i: nat)
    requires i < |s|
    ensures UpperFirst(s[..i + 1]) == UpperFirst(s[..i]) + [if i == 0 then ToUpper(s[i]) else s[i]]
  {
  }

  lemma SnakifySnoc(s: string, c: char)
    ensures Snakify(s + [c]) == Snakify(s) + Split(c)
  {
    SnakifyConcat(s, [c]);
  }

  lemma SnakifyCons(c: char, s: string)
    ensures Snakify([c] + s) == Split(c) + Snakify(s)
  {
    assert ([c] + s)[1..] == s;
  }

  lemma DropUnderscoresStep(s: string, i: nat)
    requires i < |s|
    ensures DropUnderscores(s[..i + 1]) == DropUnderscores(s[..i]) + (if s[i] == '_' then [] else [s[i]])
  {
    assert s[..i + 1] == s[..i] + [s[i]];
    DropUnderscoresConcat(s[..i], [s[i]]);
  }

  lemma UpperAllConcat(a: string, b: string)
    ensures UpperAll(a + b) == UpperAll(a) + UpperAll(b)
  {
  }

  lemma LowerAllConcat(a: string, b: string)
    ensures LowerAll(a + b) == LowerAll(a) + LowerAll(b)
  {
  }

  lemma CamelOfSnakeStep(s: string, i: nat)
    requires i < |s|
    ensures CamelOfSnake(s[..i + 1]) ==
      CamelOfSnake(s[..i]) + (if s[i] == '_' then [] else if i > 0 && s[0] == '_' then [ToUpper(s[i])] else [s[i]])
  {
    DropUnderscoresStep(s, i);
    UpperAllConcat(DropUnderscores(s[..i]), if s[i] == '_' then [] else [s[i]]);
  }

  lemma PascalOfSnakeStep(s: string, i: nat)
    requires i < |s|
    ensures PascalOfSnake(s[..i + 1]) ==
      PascalOfSnake(s[..i]) + (if s[i] == '_' then [] else if i == 0 || s[0] == '_' then [ToUpper(s[i])] else [s[i]])
  {
    DropUnderscoresStep(s, i);
    var e := if s[i] == '_' then [] else [s[i]];
    UpperAllConcat(DropUnderscores(s[..i]), e);
    if i > 0 && s[0] != '_' {
    }
  }

  // ---------------------------------------------------------------------
  // Facts about the transformations

  lemma {:induction false} DropUnderscoresConcat(a: string, b: string)
    ensures DropUnderscores(a + b) == DropUnderscores(a) + DropUnderscores(b)
  {
    if a == [] {
      assert a + b == b;
    } else {
      assert (a + b)[1..] == a[1..] + b;
      DropUnderscoresConcat(a[1..], b);
    }
  }

  lemma {:induction false} SnakifyConcat(a: string, b: string)
    ensures Snakify(a + b) == Snakify(a) + Snakify(b)
  {
    if a == [] {
      assert a + b == b;
    } else {
      assert (a + b)[1..] == a[1..] + b;
      SnakifyConcat(a[1..], b);
    }
  }

  /** Dropping the separators removes exactly the underscores. */
  lemma {:induction false} DropUnderscoresLength(s: string)
    ensures |DropUnderscores(s)| == |s| - multiset(s)['_']
    ensures '_' !in DropUnderscores(s)
  {
    if s != [] {
      assert s == [s[0]] + s[1..];
      DropUnderscoresLength(s[1..]);
    }
  }

  lemma {:induction false} DropUnderscoresNone(s: string)
    requires forall k :: 0 <= k < |s| ==> s[k] != '_'
    ensures DropUnderscores(s) == s
  {
    if s != [] {
      DropUnderscoresNone(s[1..]);
    }
  }

  /** Dropping the separators of a snake-case identifier leaves lower-case letters only. */
  lemma {:induction false} DropUnderscoresOfSnake(s: string)
    requires InSnakeCase(s)
    ensures forall k :: 0 <= k < |DropUnderscores(s)| ==> IsLower(DropUnderscores(s)[k])
  {
    if s != [] {
      DropUnderscoresOfSnake(s[1..]);
    }
  }

  lemma {:induction false} SnakifyNoUpper(s: string)
    requires forall k :: 0 <= k < |s| ==> !IsUpper(s[k])
    ensures Snakify(s) == s
  {
    if s != [] {
      SnakifyNoUpper(s[1..]);
    }
  }

  lemma {:induction false} SnakifyLength(s: string)
    ensures |Snakify(s)| == |s| + CountUpper(s)
  {
    if s != [] {
      SnakifyLength(s[1..]);
    }
  }

  /** An all-letter identifier becomes snake case. */
  lemma {:induction false} SnakifyInSnakeCase(s: string)
    requires AllLetters(s)
    ensures InSnakeCase(Snakify(s))
  {
    if s != [] {
      SnakifyInSnakeCase(s[1..]);
      assert IsLetter(s[0]) && IsLower(ToLower(s[0]));
    }
  }

  /** Removing the separators from the snake form gives back the input in
      lower case: the conversion loses nothing but case. */
  lemma {:induction false} SnakifyUndo(s: string)
    requires AllLetters(s)
    ensures DropUnderscores(Snakify(s)) == LowerAll(s)
  {
    if s != [] {
      var x := s[0];
      SplitOfLetter(x);
      SnakifyUndo(s[1..]);
      DropUnderscoresConcat(Split(x), Snakify(s[1..]));
      assert s == [x] + s[1..];
      LowerAllConcat([x], s[1..]);
    }
  }

  /** One separator is inserted per upper-case rune. */
  lemma {:induction false} SnakifySeparators(s: string)
    requires AllLetters(s)
    ensures multiset(Snakify(s))['_'] == CountUpper(s)
  {
    if s != [] {
      var x := s[0];
      SplitOfLetter(x);
      SnakifySeparators(s[1..]);
      assert Snakify(s) == Split(x) + Snakify(s[1..]);
    }
  }

  lemma SplitOfLetter(x: char)
    requires IsLetter(x)
    ensures DropUnderscores(Split(x)) == [ToLower(x)]
    ensures multiset(Split(x))['_'] == if IsUpper(x) then 1 else 0
  {
    if IsUpper(x) {
      var l := ToLower(x);
      assert Split(x)[1..] == [l];
      assert [l][1..] == [];
      assert DropUnderscores([l]) == [l] + DropUnderscores([]);
    } else {
      assert [x][1..] == [];
    }
  }

  // ---------------------------------------------------------------------
  // Properties of the converters

  /** A converter fails exactly when the input matches no convention, and its
      only error names the input and the target. */
  lemma ConversionErrors(s: string)
    ensures ToCamel(s).Err? <==> Unrecognized(s)
    ensures ToPascal(s).Err? <==> Unrecognized(s)
    ensures ToSnake(s).Err? <==> Unrecognized(s)
    ensures ToCamel(s).Err? ==> ToCamel(s).error == CannotConvert(s, CamelTarget)
    ensures ToPascal(s).Err? ==> ToPascal(s).error == CannotConvert(s, PascalTarget)
    ensures ToSnake(s).Err? ==> ToSnake(s).error == CannotConvert(s, SnakeTarget)
  {
  }

  /** Every converter maps the empty identifier to itself. */
  lemma EmptyConverts()
    ensures ToCamel("") == Ok("") && ToPascal("") == Ok("") && ToSnake("") == Ok("")
  {
  }

  /** A converter returns an identifier already in its target convention unchanged. */
  lemma ConverterIdentity(s: string)
    ensures InCamelCase(s) ==> ToCamel(s) == Ok(s)
    ensures InPascalCase(s) ==> ToPascal(s) == Ok(s)
    ensures InSnakeCase(s) ==> ToSnake(s) == Ok(s)
  {
    if InPascalCase(s) && InCamelCase(s) {
      assert s == [];
    }
    if InSnakeCase(s) && InCamelCase(s) {
      CamelSnakeOverlap(s);
      SnakifyNoUpper(s);
    }
    if InSnakeCase(s) && !InCamelCase(s) {
      assert !InPascalCase(s);
    }
  }

  /** camelCase of a Pascal-case identifier lower-cases rune 0 only, giving camel case. */
  lemma CamelFromPascal(s: string)
    requires |s| > 0 && InPascalCase(s)
    ensures ToCamel(s).Ok?
    ensures var r := ToCamel(s).value;
      |r| == |s| && r[0] == ToLower(s[0]) && IsLower(r[0]) && r[1..] == s[1..] && InCamelCase(r)
  {
    PascalExcludesOthers(s);
    var r := LowerFirst(s);
    assert forall k :: 1 <= k < |r| ==> r[k] == s[k];
  }

  /** pascalCase of a camel-case identifier upper-cases rune 0 only, giving Pascal case. */
  lemma PascalFromCamel(s: string)
    requires InCamelCase(s)
    ensures ToPascal(s).Ok?
    ensures var r := ToPascal(s).value;
      |r| == |s| && (|s| > 0 ==> r[0] == ToUpper(s[0]) && IsUpper(r[0]) && r[1..] == s[1..]) && InPascalCase(r)
  {
    var r := UpperFirst(s);
    assert forall k :: 1 <= k < |r| ==> r[k] == s[k];
  }

  /** Flipping the first letter in either order agrees with converting directly. */
  lemma FlipComposes(s: string)
    requires InCamelCase(s) || InPascalCase(s)
    ensures ToCamel(s).Ok? && ToPascal(ToCamel(s).value) == ToPascal(s)
    ensures ToPascal(s).Ok? && ToCamel(ToPascal(s).value) == ToCamel(s)
  {
    if |s| > 0 && InPascalCase(s) {
      CamelFromPascal(s);
      var c := ToCamel(s).value;
      PascalFromCamel(c);
      assert ToPascal(c).value == s;
      ConverterIdentity(s);
    } else if |s| > 0 {
      PascalFromCamel(s);
      var p := ToPascal(s).value;
      CamelFromPascal(p);
      assert ToCamel(p).value == s;
      ConverterIdentity(s);
    }
  }

  /** snakeCase of a camel-case identifier puts '_' before each upper-case rune
      and lower-cases it; the first rune is kept and no separator leads. */
  lemma SnakeFromCamel(s: string)
    requires InCamelCase(s)
    ensures ToSnake(s).Ok?
    ensures var r := ToSnake(s).value;
      && |r| == |s| + CountUpper(s)
      && InSnakeCase(r)
      && (|s| > 0 ==> r[0] == s[0] && r[0] != '_')
      && multiset(r)['_'] == CountUpper(s)
      && DropUnderscores(r) == LowerAll(s)
  {
    SnakifyLength(s);
    SnakifyInSnakeCase(s);
    SnakifyUndo(s);
    SnakifySeparators(s);
    if |s| > 0 {
      assert IsLetter(s[0]);
    }
  }

  /** snakeCase of a Pascal-case identifier lower-cases rune 0 and puts '_'
      before each later upper-case rune, lower-casing it. */
  lemma SnakeFromPascal(s: string)
    requires |s| > 0 && InPascalCase(s)
    ensures ToSnake(s).Ok?
    ensures var r := ToSnake(s).value;
      && |r| == |s| + CountUpper(s[1..])
      && InSnakeCase(r)
      && r[0] == ToLower(s[0]) && r[0] != '_'
      && multiset(r)['_'] == CountUpper(s[1..])
      && DropUnderscores(r) == LowerAll(s)
  {
    PascalExcludesOthers(s);
    var l := LowerFirst(s);
    LowerFirstOfPascal(s);
    SnakifyLength(l);
    SnakifyInSnakeCase(l);
    SnakifyUndo(l);
    SnakifySeparators(l);
    SnakifyCons(l[0], l[1..]);
  }

  lemma LowerFirstOfPascal(s: string)
    requires |s| > 0 && InPascalCase(s)
    ensures var l := LowerFirst(s);
      && |l| == |s| && AllLetters(l) && l[0] == ToLower(s[0]) && IsLower(l[0])
      && l == [l[0]] + s[1..] && CountUpper(l) == CountUpper(s[1..]) && LowerAll(l) == LowerAll(s)
  {
    var l := LowerFirst(s);
    assert forall k :: 1 <= k < |l| ==> l[k] == s[k];
    assert IsLetter(s[0]) && IsLower(l[0]);
    assert l[1..] == s[1..];
    assert LowerAll(l)[0] == LowerAll(s)[0];
  }

  /** camelCase of a snake-case identifier (as written): the underscores are
      dropped and, ignoring case, nothing else changes; the kept letters are all
      upper case when the input starts with '_', and all lower case otherwise. */
  lemma CamelFromSnake(s: string)
    requires InSnakeCase(s) && !InCamelCase(s)
    ensures ToCamel(s).Ok?
    ensures var r := ToCamel(s).value;
      && |r| == |s| - multiset(s)['_']
      && LowerAll(r) == DropUnderscores(s)
      && (s[0] == '_' ==> forall k :: 0 <= k < |r| ==> IsUpper(r[k]))
      && (s[0] != '_' ==> forall k :: 0 <= k < |r| ==> IsLower(r[k]))
  {
    assert !InPascalCase(s);
    var d := DropUnderscores(s);
    DropUnderscoresLength(s);
    DropUnderscoresOfSnake(s);
    if s[0] == '_' {
      UpperAllOfLower(d);
    } else {
      LowerAllOfLower(d);
    }
  }

  /** pascalCase of a snake-case identifier (as written): the underscores are
      dropped and, ignoring case, nothing else changes; the result is in Pascal
      case, with every letter upper case when the input starts with '_', and
      only the first otherwise. */
  lemma PascalFromSnake(s: string)
    requires InSnakeCase(s) && !InCamelCase(s)
    ensures ToPascal(s).Ok?
    ensures var r := ToPascal(s).value;
      && |r| == |s| - multiset(s)['_']
      && LowerAll(r) == DropUnderscores(s)
      && InPascalCase(r)
      && (s[0] == '_' ==> forall k :: 0 <= k < |r| ==> IsUpper(r[k]))
      && (s[0] != '_' ==> |r| > 0 && IsUpper(r[0]) && forall k :: 1 <= k < |r| ==> IsLower(r[k]))
  {
    assert !InPascalCase(s);
    var d := DropUnderscores(s);
    DropUnderscoresLength(s);
    DropUnderscoresOfSnake(s);
    if s[0] == '_' {
      UpperAllOfLower(d);
    } else {

      UpperFirstOfLower(d);
    }
  }

  /** Upper-casing a run of lower-case letters, and lower-casing it back. */
  lemma UpperAllOfLower(d: string)
    requires forall k :: 0 <= k < |d| ==> IsLower(d[k])
    ensures forall k :: 0 <= k < |UpperAll(d)| ==> IsUpper(UpperAll(d)[k])
    ensures LowerAll(UpperAll(d)) == d
    ensures InPascalCase(UpperAll(d))
  {
    var u := UpperAll(d);
    forall k | 0 <= k < |d| ensures LowerAll(u)[k] == d[k] {
      CaseMapping(d[k]);
    }
  }

  lemma LowerAllOfLower(d: string)
    requires forall k :: 0 <= k < |d| ==> IsLower(d[k])
    ensures LowerAll(d) == d
  {
  }

  lemma UpperFirstOfLower(d: string)
    requires |d| > 0 && forall k :: 0 <= k < |d| ==> IsLower(d[k])
    ensures var u := UpperFirst(d);
      && |u| == |d| && IsUpper(u[0]) && (forall k :: 1 <= k < |u| ==> IsLower(u[k]))
      && LowerAll(u) == d && InPascalCase(u)
  {
    var u := UpperFirst(d);
    assert forall k :: 1 <= k < |u| ==> u[k] == d[k];
    CaseMapping(d[0]);
    assert LowerAll(u)[0] == d[0];
  }

  // ---------------------------------------------------------------------
  // Worked examples

  lemma SnakifyTwoWords(a: string, x: char, b: string)
    requires forall k :: 0 <= k < |a| ==> !IsUpper(a[k])
    requires forall k :: 0 <= k < |b| ==> !IsUpper(b[k])
    requires IsUpper(x)
    ensures Snakify(a + [x] + b) == a + ['_', ToLower(x)] + b
  {
    var l := a + [x];
    SnakifyNoUpper(a);
    SnakifyNoUpper(b);
    SnakifySnoc(a, x);
    assert Snakify(l) == a + ['_', ToLower(x)];
    SnakifyConcat(l, b);
  }

  lemma DropTwoWords(a: string, b: string)
    requires forall k :: 0 <= k < |a| ==> a[k] != '_'
    requires forall k :: 0 <= k < |b| ==> b[k] != '_'
    ensures DropUnderscores(a + ['_'] + b) == a + b
  {
    var u := ['_'];
    assert DropUnderscores(u) == [] by {
      assert u[1..] == [];
    }
    DropUnderscoresNone(a);
    DropUnderscoresNone(b);
    DropUnderscoresConcat(a, u);
    assert a + [] == a;
    assert DropUnderscores(a + u) == a;
    DropUnderscoresConcat(a + u, b);
  }

  lemma HelloWorldSnake()
    ensures Snakify("helloWorld") == "hello_world"
  {
    assert "helloWorld" == "hello" + ['W'] + "orld";
    SnakifyTwoWords("hello", 'W', "orld");
    assert "hello" + ['_', 'w'] + "orld" == "hello_world";
  }

  lemma HelloWorldShapes()
    ensures InCamelCase("helloWorld")
    ensures !InCamelCase("HelloWorld") && InPascalCase("HelloWorld")
    ensures LowerFirst("HelloWorld") == "helloWorld"
  {
    assert "HelloWorld"[1..] == "elloWorld";
    assert "helloWorld" == ['h'] + "elloWorld";
  }

  /** The camel-to-snake and Pascal-to-snake examples. */
  lemma SnakeExamples()
    ensures ToSnake("HelloWorld") == Ok("hello_world")
    ensures ToSnake("helloWorld") == Ok("hello_world")
  {
    HelloWorldShapes();
    HelloWorldSnake();
  }

  lemma HelloWorldDrop()
    ensures DropUnderscores("hello_world") == "helloworld"
  {
    assert "hello_world" == "hello" + ['_'] + "world";
    DropTwoWords("hello", "world");
    assert "hello" + "world" == "helloworld";
  }

  lemma HelloWorldClass()
    ensures !InCamelCase("hello_world") && !InPascalCase("hello_world") && InSnakeCase("hello_world")
    ensures "hello_world"[0] == 'h'
  {
    assert "hello_world"[5] == '_';
  }

  /** Snake to camel as written: the word boundary is lost. */
  lemma CamelExample()
    ensures ToCamel("hello_world") == Ok("helloworld")
  {
    HelloWorldClass();
    HelloWorldDrop();
  }

  lemma HelloworldUpperFirst()
    ensures UpperFirst("helloworld") == "Helloworld"
  {
    assert "helloworld"[1..] == "elloworld";
    assert ['H'] + "elloworld" == "Helloworld";
  }

  /** Snake to Pascal as written: only the first letter is upper-cased. */
  lemma PascalExample()
    ensures ToPascal("hello_world") == Ok("Helloworld")
  {
    HelloWorldClass();
    HelloWorldDrop();
    HelloworldUpperFirst();
  }

  /** Digits and symbols put an identifier in no convention. */
  lemma UnrecognizedExamples()
    ensures ToCamel("foo2bar").Err? && ToPascal("foo2bar").Err? && ToSnake("foo2bar").Err?
    ensures ToCamel("foo-bar").Err? && ToPascal("foo-bar").Err? && ToSnake("foo-bar").Err?
  {
    StrayRune("foo2bar", 3);
    StrayRune("foo-bar", 3);
  }

  /** One rune that is neither a letter nor '_' makes every converter fail. */
  lemma StrayRune(s: string, k: nat)
    requires k < |s| && !IsLetter(s[k]) && s[k] != '_'
    ensures ToCamel(s).Err? && ToPascal(s).Err? && ToSnake(s).Err?
  {
  }
}
