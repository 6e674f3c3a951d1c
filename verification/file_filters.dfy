/** The two file filters that decide which input files are read: `PatternFileFilter`, an OR
    over full-match patterns, and `XmlContentFileFilter`, which turns the patterns into
    exclusions and checks the XML content against an expected-result expression such as
    `length(!=0)`. */
module FileFilters {
  import opened Results
  import opened Text
  import opened Foreign

  /** Some pattern fully matches the absolute path. */
  predicate AnyPatternMatches(env: Env, patterns: seq<string>, path: string) {
    exists i :: 0 <= i < |patterns| && env.fullMatch(patterns[i], path)
  }

  /** `PatternFileFilter.accept`: tries the patterns in list order and stops at the first one
      that matches. `tried` is how many patterns were tried. */
  method PatternAccept(env: Env, patterns: seq<string>, path: string) returns (accepted: bool, tried: nat)
    ensures accepted <==> AnyPatternMatches(env, patterns, path)
    ensures accepted ==> 0 < tried <= |patterns| && env.fullMatch(patterns[tried - 1], path)
    ensures !accepted ==> tried == |patterns|
    ensures forall j :: 0 <= j < tried - 1 ==> !env.fullMatch(patterns[j], path)
  {
    accepted, tried := false, 0;
    while tried < |patterns|
      invariant tried <= |patterns|
      invariant forall j :: 0 <= j < tried ==> !env.fullMatch(patterns[j], path)
    {
      accepted := env.fullMatch(patterns[tried], path);
      tried := tried + 1;
      if accepted {
        return;
      }
    }
  }

  /** The answer does not depend on the order of the patterns. */
  lemma PatternOrderIrrelevant(env: Env, patterns: seq<string>, reordered: seq<string>, path: string)
    requires multiset(patterns) == multiset(reordered)
    ensures AnyPatternMatches(env, patterns, path) <==> AnyPatternMatches(env, reordered, path)
  {
    if AnyPatternMatches(env, patterns, path) {
      var i :| 0 <= i < |patterns| && env.fullMatch(patterns[i], path);
      assert patterns[i] in multiset(reordered);
    }
    if AnyPatternMatches(env, reordered, path) {
      var i :| 0 <= i < |reordered| && env.fullMatch(reordered[i], path);
      assert reordered[i] in multiset(patterns);
    }
  }

  /** The expected-result expression is split on the regex `[\(|\)]`. */
  const CallSeparators: set<char> := {'(', '|', ')'}

  const LengthFunction: string := "length"
  const SizeFunction: string := "size"
  const ValueFunction: string := "value"
  const NotEqualOperator: string := "!="
  const EqualOperator: string := "=="

  /** Only paths ending in this are looked at by the content filter. */
  const XmlSuffix: string := "xml"

  /** "length" and "size" are synonyms. */
  predicate IsCountFunction(name: string) {
    name == LengthFunction || name == SizeFunction
  }

  const Int32Min: int := -0x8000_0000
  const Int32Max: int := 0x7FFF_FFFF

  predicate AllDigits(s: string) {
    forall i :: 0 <= i < |s| ==> IsDigit(s[i])
  }

  function DigitChar(d: nat): (c: char)
    requires d < 10
    ensures IsDigit(c) && c as int - '0' as int == d
  {
    ('0' as int + d) as char
  }

  /** The number a run of decimal digits denotes, read most significant digit first. */
  function DecimalValue(s: string): nat
    requires AllDigits(s)
  {
    if s == [] then 0 else DecimalValue(s[..|s| - 1]) * 10 + (s[|s| - 1] as int - '0' as int)
  }

  /** The shortest decimal digits of a natural number (`Integer.toString`, without sign). */
  function Decimal(n: nat): (s: string)
    ensures s != [] && AllDigits(s)
  {
    if n < 10 then [DigitChar(n)] else Decimal(n / 10) + [DigitChar(n % 10)]
  }

  /** `Integer.toString`. */
  function IntToString(n: int): (s: string)
    ensures s != []
  {
    if n < 0 then "-" + Decimal(-n) else Decimal(n)
  }

  /** `Integer.parseInt` in radix 10: an optional sign, at least one digit, and a value
      that fits in 32 bits; anything else is a `NumberFormatException` (`None`). */
  function ParseInt(s: string): (r: Option<int>)
    ensures r.Some? ==> Int32Min <= r.value <= Int32Max
    ensures r.Some? ==> s != [] && (r.value < 0 ==> s[0] == '-')
    ensures r.Some? ==> AllDigits(if s[0] == '-' || s[0] == '+' then s[1..] else s)
  {
    if s == [] then None
    else
      var digits := if s[0] == '-' || s[0] == '+' then s[1..] else s;
      if digits == [] || !AllDigits(digits) then None
      else
        var magnitude: int := DecimalValue(digits);
        var v := if s[0] == '-' then -magnitude else magnitude;
        if Int32Min <= v <= Int32Max then Some(v) else None
  }

  lemma {:induction false} DecimalRoundTrip(n: nat)
    ensures DecimalValue(Decimal(n)) == n
  {
    if n >= 10 {
      DecimalRoundTrip(n / 10);
      var s := Decimal(n);
      assert s[..|s| - 1] == Decimal(n / 10);
    }
  }

  /** `parseInt` reads back every 32-bit value that `toString` writes. */
  lemma ParseIntRoundTrip(n: int)
    requires Int32Min <= n <= Int32Max
    ensures ParseInt(IntToString(n)) == Some(n)
  {
    var s := IntToString(n);
    if n < 0 {
      DecimalRoundTrip(-n);
      assert s[0] == '-' && s[1..] == Decimal(-n);
    } else {
      DecimalRoundTrip(n);
      assert IsDigit(s[0]);
    }
  }

  /** The configured content filter. */
  datatype ContentFilter = ContentFilter(patterns: seq<string>, xPath: string, expectedResult: string)

  /** `evaluate`: checks the document against the expected-result expression. The expression
      splits into a function name and its argument; a missing argument is an index error,
      the argument of a count function is an operator and an `int`, and the argument of
      `value` loses its first two characters. An XPath failure fails the check of the file. */
  function Evaluate(xp: XPathView, filter: ContentFilter, file: string): (r: Result<bool>)
    ensures |Split(filter.expectedResult, CallSeparators)| < 2 ==> r == Err(MalformedExpectedResult(filter.expectedResult))
    ensures r.Ok? ==> |Split(filter.expectedResult, CallSeparators)| >= 2
    ensures r.Ok? ==> var name := Split(filter.expectedResult, CallSeparators)[0];
                      IsCountFunction(name) || name == ValueFunction
    ensures r.Err? ==> r.failure.MalformedExpectedResult? || r.failure.UnrecognizedFunction?
                       || r.failure == ContentCheckFailed(file)
  {
    var call := Split(filter.expectedResult, CallSeparators);
    if |call| < 2 then Err(MalformedExpectedResult(filter.expectedResult))
    else
      var name := call[0];
      var argument := call[1];
      if IsCountFunction(name) then
        match xp.nodesAt(filter.xPath)
        case None => Err(ContentCheckFailed(file))
        case Some(nodes) =>
          if StartsWith(argument, NotEqualOperator) then
            match ParseInt(argument[2..])
            case None => Err(MalformedExpectedResult(filter.expectedResult))
            case Some(n) => Ok(|nodes| != n)
          else if StartsWith(argument, EqualOperator) then
            match ParseInt(argument[2..])
            case None => Err(MalformedExpectedResult(filter.expectedResult))
            case Some(n) => Ok(|nodes| == n)
          else Ok(false)
      else if name == ValueFunction then
        match xp.stringAt(filter.xPath)
        case None => Err(ContentCheckFailed(file))
        case Some(v) =>
          if |argument| < 2 then Err(MalformedExpectedResult(filter.expectedResult))
          else Ok(v == argument[2..])
      else Err(UnrecognizedFunction(name))
  }

  /** A call written `name(argument)`. */
  function Call(name: string, argument: string): string {
    name + "(" + argument + ")"
  }

  lemma {:induction false} FieldsAfterPiece(x: string, sep: char, y: string, seps: set<char>)
    requires NoneIn(x, seps) && sep in seps
    ensures Fields(x + [sep] + y, seps) == [x] + Fields(y, seps)
  {
    var s := x + [sep] + y;
    if x == [] {
      assert s[1..] == y;
    } else {
      assert s[1..] == x[1..] + [sep] + y;
      FieldsAfterPiece(x[1..], sep, y, seps);
      assert [x[0]] + x[1..] == x;
    }
  }

  /** A call whose name and argument hold no separator splits into exactly those two. */
  lemma SplitCall(name: string, argument: string)
    requires NoneIn(name, CallSeparators) && NoneIn(argument, CallSeparators) && argument != []
    ensures Split(Call(name, argument), CallSeparators) == [name, argument]
  {
    assert Call(name, argument) == name + ['('] + (argument + [')'] + []);
    FieldsAfterPiece(name, '(', argument + [')'] + [], CallSeparators);
    FieldsAfterPiece(argument, ')', [], CallSeparators);
    var f := Fields(Call(name, argument), CallSeparators);
    assert f == [name, argument, []];
    assert DropTrailingEmpty(f) == DropTrailingEmpty([name, argument]);
  }

  lemma DecimalHasNoSeparator(n: nat)
    ensures NoneIn(Decimal(n), CallSeparators)
  {
    var s := Decimal(n);
    forall i | 0 <= i < |s| ensures s[i] !in CallSeparators {
      assert IsDigit(s[i]);
    }
  }

  /** `length(!=N)` (or `size(!=N)`) accepts exactly the documents whose node count is not N. */
  lemma CountNotEqualExpression(xp: XPathView, patterns: seq<string>, query: string, name: string, n: nat, file: string)
    requires IsCountFunction(name) && n <= Int32Max && xp.nodesAt(query).Some?
    ensures Evaluate(xp, ContentFilter(patterns, query, Call(name, NotEqualOperator + Decimal(n))), file)
              == Ok(|xp.nodesAt(query).value| != n)
  {
    var argument := NotEqualOperator + Decimal(n);
    DecimalHasNoSeparator(n);
    SplitCall(name, argument);
    assert argument[2..] == Decimal(n);
    ParseIntRoundTrip(n);
  }

  /** `length(==N)` (or `size(==N)`) accepts exactly the documents whose node count is N. */
  lemma CountEqualExpression(xp: XPathView, patterns: seq<string>, query: string, name: string, n: nat, file: string)
    requires IsCountFunction(name) && n <= Int32Max && xp.nodesAt(query).Some?
    ensures Evaluate(xp, ContentFilter(patterns, query, Call(name, EqualOperator + Decimal(n))), file)
              == Ok(|xp.nodesAt(query).value| == n)
  {
    var argument := EqualOperator + Decimal(n);
    DecimalHasNoSeparator(n);
    SplitCall(name, argument);
    assert argument[2..] == Decimal(n);
    ParseIntRoundTrip(n);
  }

  /** A count argument with any other operator never accepts. */
  lemma CountOtherOperator(xp: XPathView, patterns: seq<string>, query: string, name: string, argument: string, file: string)
    requires IsCountFunction(name) && xp.nodesAt(query).Some?
    requires NoneIn(argument, CallSeparators) && argument != []
    requires !StartsWith(argument, NotEqualOperator) && !StartsWith(argument, EqualOperator)
    ensures Evaluate(xp, ContentFilter(patterns, query, Call(name, argument)), file) == Ok(false)
  {
    SplitCall(name, argument);
  }

  /** `value(arg)` compares the string value with `arg` minus its first two characters. */
  lemma ValueExpression(xp: XPathView, patterns: seq<string>, query: string, argument: string, file: string)
    requires xp.stringAt(query).Some?
    requires NoneIn(argument, CallSeparators) && |argument| >= 2
    ensures Evaluate(xp, ContentFilter(patterns, query, Call(ValueFunction, argument)), file)
              == Ok(xp.stringAt(query).value == argument[2..])
  {
    assert NoneIn(ValueFunction, CallSeparators);
    SplitCall(ValueFunction, argument);
  }

  /** Any other function name is rejected with the name, whatever the document holds. */
  lemma UnknownFunctionExpression(xp: XPathView, patterns: seq<string>, query: string, name: string, argument: string, file: string)
    requires !IsCountFunction(name) && name != ValueFunction
    requires NoneIn(name, CallSeparators) && NoneIn(argument, CallSeparators) && argument != []
    ensures Evaluate(xp, ContentFilter(patterns, query, Call(name, argument)), file) == Err(UnrecognizedFunction(name))
  {
    SplitCall(name, argument);
  }

  /** `XmlContentFileFilter.accept`: a path matched by a configured pattern is excluded, a
      path not ending in "xml" is not looked at, and any other file is accepted by the verdict
      of the expression on its content. `document` is the parsed file, `None` when it does not
      parse. */
  function ContentAccept(env: Env, filter: ContentFilter, path: string, document: Option<XPathView>): (r: Result<bool>)
    ensures AnyPatternMatches(env, filter.patterns, path) ==> r == Ok(false)
    ensures !EndsWith(path, XmlSuffix) ==> r == Ok(false)
    ensures r == Ok(true) ==> document.Some? && Evaluate(document.value, filter, path) == Ok(true)
    ensures !AnyPatternMatches(env, filter.patterns, path) && EndsWith(path, XmlSuffix) ==>
              (document.None? ==> r == Err(ContentCheckFailed(path)))
              && (document.Some? ==> r == Evaluate(document.value, filter, path))
  {
    var excluded := |filter.patterns| > 0 && AnyPatternMatches(env, filter.patterns, path);
    if !excluded && EndsWith(path, XmlSuffix) then
      match document
      case None => Err(ContentCheckFailed(path))
      case Some(xp) => Evaluate(xp, filter, path)
    else Ok(false)
  }

  /** The file filters a processor entry can register. */
  datatype FileFilter = PatternFilter(patterns: seq<string>) | XmlContentFilter(content: ContentFilter)

  /** `FileFilter.accept` of either filter. */
  function Accept(env: Env, filter: FileFilter, path: string, document: Option<XPathView>): (r: Result<bool>)
    ensures filter.PatternFilter? ==> r == Ok(AnyPatternMatches(env, filter.patterns, path))
    ensures filter.XmlContentFilter? ==> r == ContentAccept(env, filter.content, path, document)
  {
    match filter
    case PatternFilter(patterns) => Ok(AnyPatternMatches(env, patterns, path))
    case XmlContentFilter(content) => ContentAccept(env, content, path, document)
  }

  /** With no patterns the pattern filter accepts nothing. */
  lemma NoPatternsAcceptNothing(env: Env, path: string, document: Option<XPathView>)
    ensures Accept(env, PatternFilter([]), path, document) == Ok(false)
  {
  }
}
