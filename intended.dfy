/** The snake-source branches of camelCase and pascalCase as evidently
    intended: the test reads the rune before the current one, `runes[i-1]`,
    where the code reads `runes[i-i]`, so the letter after each underscore is
    upper-cased. This is a corrected variant kept beside the as-written model
    in module Convert; it is not what the code does. */
module Intended {
  import opened Runes
  import opened Classify
  import opened Convert

  /** Drops the underscores and upper-cases each rune that follows one;
      `upNext` says whether the first rune is upper-cased too. */
  function JoinWords(s: string, upNext: bool): string {
    if s == [] then []
    else if s[0] == '_' then JoinWords(s[1..], true)
    else [if upNext then ToUpper(s[0]) else s[0]] + JoinWords(s[1..], false)
  }

  /** camelCase with the corrected snake branch (`i > 0 && runes[i-1] == '_'`). */
  function ToCamelIntended(s: string): Result<string> {
    if InCamelCase(s) then Ok(s)
    else if InPascalCase(s) then Ok(LowerFirst(s))
    else if InSnakeCase(s) then Ok(JoinWords(s, false))
    else Err(CannotConvert(s, CamelTarget))
  }

  /** pascalCase with the corrected snake branch (`i == 0 || runes[i-1] == '_'`). */
  function ToPascalIntended(s: string): Result<string> {
    if InCamelCase(s) then Ok(UpperFirst(s))
    else if InPascalCase(s) then Ok(s)
    else if InSnakeCase(s) then Ok(JoinWords(s, true))
    else Err(CannotConvert(s, PascalTarget))
  }

  /** No two underscores side by side. */
  predicate NoDoubleUnderscore(s: string) {
    forall k :: 0 < k < |s| ==> s[k - 1] != '_' || s[k] != '_'
  }

  /** A well-formed snake-case identifier: lower-case words joined by single
      underscores, with no underscore at either end. */
  predicate CanonicalSnake(s: string) {
    |s| > 0 && InSnakeCase(s) && s[0] != '_' && s[|s| - 1] != '_' && NoDoubleUnderscore(s)
  }

  lemma {:induction false} JoinWordsLetters(s: string, upNext: bool)
    requires InSnakeCase(s)
    ensures AllLetters(JoinWords(s, upNext))
  {
    if s != [] {
      JoinWordsLetters(s[1..], s[0] == '_');
      if s[0] != '_' {
        assert IsLetter(ToUpper(s[0]));
      }
    }
  }

  lemma TailShape(t: string)
    requires |t| > 0 && InSnakeCase(t) && NoDoubleUnderscore(t) && t[|t| - 1] != '_'
    ensures var r := t[1..]; InSnakeCase(r) && NoDoubleUnderscore(r) && (|r| > 0 ==> r[|r| - 1] != '_')
    ensures t[0] == '_' ==> |t| > 1 && t[1] != '_'
  {
    var r := t[1..];
    forall k | 0 < k < |r| ensures r[k - 1] != '_' || r[k] != '_' {
      assert r[k - 1] == t[k] && r[k] == t[k + 1];
    }
    if t[0] == '_' {
      assert |t| > 1;
      assert t[0] != '_' || t[1] != '_';
    }
  }

  /** Snake-casing the joined words puts back every underscore that was
      dropped: a separator before each word but the first. */
  lemma {:induction false} JoinWordsUndo(t: string, upNext: bool)
    requires InSnakeCase(t) && NoDoubleUnderscore(t)
    requires |t| > 0 ==> t[|t| - 1] != '_'
    requires upNext && |t| > 0 ==> t[0] != '_'
    ensures Snakify(JoinWords(t, upNext)) == if upNext && |t| > 0 then ['_'] + t else t
  {
    if t != [] {
      var rest := t[1..];
      TailShape(t);
      assert t == [t[0]] + rest;
      if t[0] == '_' {
        JoinWordsUndo(rest, true);
      } else {
        JoinWordsUndo(rest, false);
        var c := if upNext then ToUpper(t[0]) else t[0];
        SnakifyCons(c, JoinWords(rest, false));
        CaseMapping(t[0]);
      }
    }
  }

  /** With the corrected branch, snake case converted to camel case converts
      back to the same snake case identifier. */
  lemma CamelRoundTrip(s: string)
    requires CanonicalSnake(s)
    ensures ToCamelIntended(s).Ok?
    ensures ToSnake(ToCamelIntended(s).value) == Ok(s)
  {
    if InCamelCase(s) {
      ConverterIdentity(s);
    } else {
      assert !InPascalCase(s);
      var c := JoinWords(s, false);
      JoinWordsLetters(s, false);
      JoinWordsUndo(s, false);
      assert c[0] == s[0];
      assert InCamelCase(c);
    }
  }

  /** With the corrected branch, snake case converted to Pascal case converts
      back to the same snake case identifier. */
  lemma PascalRoundTrip(s: string)
    requires CanonicalSnake(s)
    ensures ToPascalIntended(s).Ok?
    ensures ToSnake(ToPascalIntended(s).value) == Ok(s)
  {
    if InCamelCase(s) {
      var p := UpperFirst(s);
      PascalFromCamel(s);
      assert !InCamelCase(p);
      assert LowerFirst(p) == s by {
        CaseMapping(s[0]);
      }
      CamelSnakeOverlap(s);
      SnakifyNoUpper(s);
    } else {
      assert !InPascalCase(s);
      var p := JoinWords(s, true);
      var c := JoinWords(s, false);
      JoinWordsLetters(s, true);
      JoinWordsUndo(s, false);
      assert p == [ToUpper(s[0])] + JoinWords(s[1..], false);
      assert c == [s[0]] + JoinWords(s[1..], false);
      CaseMapping(s[0]);
      assert !InCamelCase(p) && InPascalCase(p);
      assert LowerFirst(p) == c;
    }
  }

  lemma HelloWorldCanonical()
    ensures CanonicalSnake("hello_world")
  {
    var s := "hello_world";
    assert InSnakeCase(s);
    forall k | 0 < k < |s| ensures s[k - 1] != '_' || s[k] != '_' {
      if k != 5 && k != 6 {
        assert s[k] != '_';
      }
    }
  }

  lemma HelloworldCamelSnake()
    ensures ToSnake("helloworld") == Ok("helloworld")
  {
    assert InCamelCase("helloworld");
    SnakifyNoUpper("helloworld");
  }

  lemma HelloworldPascalSnake()
    ensures ToSnake("Helloworld") == Ok("helloworld")
  {
    var w := "elloworld";
    assert "Helloworld" == ['H'] + w && "helloworld" == ['h'] + w;
    assert !InCamelCase("Helloworld") && InPascalCase("Helloworld");
    assert LowerFirst("Helloworld") == "helloworld";
    SnakifyNoUpper("helloworld");
  }

  /** The as-written converters lose the word boundary of "hello_world": the
      round trip through camel or Pascal case comes back as "helloworld". */
  lemma AsWrittenLosesBoundary()
    ensures CanonicalSnake("hello_world")
    ensures ToCamel("hello_world") == Ok("helloworld") && ToSnake("helloworld") == Ok("helloworld")
    ensures ToPascal("hello_world") == Ok("Helloworld") && ToSnake("Helloworld") == Ok("helloworld")
    ensures "helloworld" != "hello_world"
  {
    HelloWorldCanonical();
    CamelExample();
    PascalExample();
    HelloworldCamelSnake();
    HelloworldPascalSnake();
  }

  /** Two words joined: the second always gets an upper-case first letter. */
  lemma JoinTwoWords(a: string, b: string, upNext: bool)
    requires |a| > 0
    requires forall k :: 0 <= k < |a| ==> a[k] != '_'
    requires forall k :: 0 <= k < |b| ==> b[k] != '_'
    ensures JoinWords(a + ['_'] + b, upNext) == (if upNext then UpperFirst(a) else a) + UpperFirst(b)
  {
    var u := ['_'] + b;
    assert a + ['_'] + b == a + u;
    JoinWordsConcat(a, u, upNext);
    assert u[1..] == b;
    JoinWordsWord(a, upNext);
    JoinWordsWord(b, true);
  }

  lemma HelloWorldJoined()
    ensures JoinWords("hello_world", false) == "helloWorld"
    ensures JoinWords("hello_world", true) == "HelloWorld"
  {
    assert "hello_world" == "hello" + ['_'] + "world";
    JoinTwoWords("hello", "world", false);
    JoinTwoWords("hello", "world", true);
    assert "hello" == ['h'] + "ello" && "world" == ['w'] + "orld";
    assert UpperFirst("hello") == "Hello";
    assert UpperFirst("world") == "World";
    assert "hello" + "World" == "helloWorld";
    assert "Hello" + "World" == "HelloWorld";
  }

  /** The corrected converters give the expected "helloWorld" and "HelloWorld". */
  lemma IntendedExamples()
    ensures ToCamelIntended("hello_world") == Ok("helloWorld")
    ensures ToPascalIntended("hello_world") == Ok("HelloWorld")
  {
    HelloWorldClass();
    HelloWorldJoined();
  }

  /** A single word is kept, or has its first rune upper-cased. */
  lemma {:induction false} JoinWordsWord(s: string, upNext: bool)
    requires forall k :: 0 <= k < |s| ==> s[k] != '_'
    ensures JoinWords(s, upNext) == if upNext then UpperFirst(s) else s
  {
    if s != [] {
      JoinWordsWord(s[1..], false);
    }
  }

  /** Joining a prefix that does not end in '_' leaves the flag for the rest unset. */
  lemma {:induction false} JoinWordsConcat(a: string, b: string, upNext: bool)
    requires |a| > 0 && a[|a| - 1] != '_'
    ensures JoinWords(a + b, upNext) == JoinWords(a, upNext) + JoinWords(b, false)
  {
    assert (a + b)[1..] == a[1..] + b;
    if |a| > 1 {
      JoinWordsConcat(a[1..], b, a[0] == '_');
    } else {
      assert a[1..] == [];
      assert a + b == [a[0]] + b;
    }
  }
}
