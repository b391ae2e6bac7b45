/**
 * The input/output pairs of the repository's unit and integration tests,
 * stated as lemmas about the model.
 */
module Examples {
  import opened Wrappers
  import opened Helpers
  import opened Core

  /**
   * Filtering kept text around a run with nothing kept in it yields the
   * kept text alone; lets the examples below avoid unfolding the filter
   * over a whole literal.
   */
  lemma FilterAround(a: string, b: string, c: string)
    requires AllKept(a) && AllKept(c) && RemoveSpecial(b) == ""
    ensures RemoveSpecial(a + b + c) == a + c
  {
    RemoveSpecialConcat(a + b, c);
    RemoveSpecialConcat(a, b);
    RemoveSpecialKeepsKept(a);
    RemoveSpecialKeepsKept(c);
  }

  lemma FilterHelloWorld()
    ensures RemoveSpecial("Hello!@#World") == "HelloWorld"
  {
    var a, b, c := "Hello", "!@#", "World";
    FilterAround(a, b, c);
    assert a + b + c == "Hello!@#World";
    assert a + c == "HelloWorld";
  }

  lemma SanitizeRemovesSpecialCharacters()
    ensures SanitizeString("Hello!@#World") == "HelloWorld"
  {
    FilterHelloWorld();
    assert NoEdgeWhitespace("HelloWorld");
    SanitizeWithoutEdgeWhitespace("Hello!@#World");
  }

  lemma SanitizePreservesAlphanumeric()
    ensures SanitizeString("Test123") == "Test123"
  {
    SanitizeKeepsClean("Test123");
  }

  lemma SanitizePreservesSpaces()
    ensures SanitizeString("Hello World") == "Hello World"
  {
    SanitizeKeepsClean("Hello World");
  }

  lemma ValidateInputExamples()
    ensures ValidateInput(Some("value"), "default") == "value"
    ensures ValidateInput(None, "default") == "default"
    ensures ValidateInput(Some(42), 0) == 42
    ensures ValidateInput(None, 0) == 0
    ensures ValidateInput(Some([1, 2]), []) == [1, 2]
  {
  }

  lemma BasicGreeting()
    ensures ExampleFunction("World", 1) == "Hello, World!"
  {
  }

  lemma GreetClaude()
    ensures ExampleFunction("Claude", 1) == "Hello, Claude!"
  {
    ExampleFunctionOnce("Claude");
  }

  lemma GreetingWithCount()
    ensures ExampleFunction("Claude", 3) == "Hello, Claude! Hello, Claude! Hello, Claude!"
  {
    var g := "Hello, Claude!";
    GreetClaude();
    ExampleFunctionUnfold("Claude", 1);
    ExampleFunctionUnfold("Claude", 2);
    assert ExampleFunction("Claude", 3) == g + " " + g + " " + g;
  }

  lemma EmptyName()
    ensures ExampleFunction("", 1) == "Hello, !"
  {
  }

  lemma ParametrizedGreetings()
    ensures ExampleFunction("Alice", 1) == "Hello, Alice!"
    ensures ExampleFunction("Bob", 2) == "Hello, Bob! Hello, Bob!"
    ensures ExampleFunction("", 1) == "Hello, !"
  {
    ExampleFunctionUnfold("Bob", 1);
  }

  lemma FilterClaude()
    ensures RemoveSpecial("Claude!@#$%") == "Claude"
  {
    var a, b, c := "Claude", "!@#$%", "";
    FilterAround(a, b, c);
    assert a + b + c == "Claude!@#$%";
    assert a + c == "Claude";
  }

  lemma SanitizeClaude()
    ensures SanitizeString("Claude!@#$%") == "Claude"
  {
    FilterClaude();
    assert NoEdgeWhitespace("Claude");
    SanitizeWithoutEdgeWhitespace("Claude!@#$%");
  }

  /**
   * The integration test's composition of `sanitize_string` and
   * `example_function`: the sanitized name, greeted once.
   */
  lemma SanitizedGreeting()
    ensures ExampleFunction(SanitizeString("Claude!@#$%"), 1) == "Hello, Claude!"
  {
    SanitizeClaude();
    GreetClaude();
  }
}
