# claude_code_setup core, modelled in Dafny

The `claude_code_setup` package is a small Python project template. Its
behaviour lives in two pure functions of `utils/helpers.py` and one of
`core/main.py`:

- `sanitize_string(value)` deletes every character outside the regular
  expression class `[a-zA-Z0-9\s]` and then strips leading and trailing
  whitespace (`helpers.dfy`, module `Helpers`);
- `validate_input(value, default)` returns `value` unless it is `None`, in
  which case it returns `default` (`helpers.dfy`, module `Helpers`, with
  `None` modelled by `Option` in `wrappers.dfy`);
- `example_function(name, count=1)` builds the greeting `"Hello, {name}!"`
  and joins `count` copies of it with single spaces (`main.dfy`, module
  `Core`).

All three are pure, so the model is made of functions and lemmas. Python
strings become `string` (sequences of Unicode scalar values).

Some details follow the code rather than the prose around it:

- The docstring of `sanitize_string` speaks of "alphanumeric characters and
  spaces". The code keeps ASCII letters and digits only (there is no
  Unicode `\w`), and it keeps every character Python's `\s` matches, which
  includes tabs, line breaks and the Unicode spaces. `Helpers.IsWhitespace`
  lists exactly that set:
  - U+0009–U+000D and U+001C–U+0020;
  - U+0085 and U+00A0;
  - U+1680, U+2000–U+200A, U+2028, U+2029, U+202F, U+205F and U+3000.

  `str.strip()` with no argument removes the same set.
- `Helpers.Strip` follows CPython's strip: it scans forward from the start
  past whitespace, then backward from the end, never passing the first
  scan's stop.

`examples.dfy` (module `Examples`) restates the input/output pairs of the
repository's unit and integration tests as lemmas about the model.

## Model

| member | source | states |
|---|---|---|
| Helpers.IsWhitespace | src/claude_code_setup/utils/helpers.py:21 | the characters `\s` matches in a `str` pattern, which are also those `str.strip()` removes |
| Helpers.IsKept | src/claude_code_setup/utils/helpers.py:21 | membership in `[a-zA-Z0-9\s]`: ASCII letters, ASCII digits and Python whitespace |
| Helpers.RemoveSpecial | src/claude_code_setup/utils/helpers.py:21 | the substitution leaves only characters of `[a-zA-Z0-9\s]` |
| Helpers.RemoveSpecialCounts | src/claude_code_setup/utils/helpers.py:21 | after the substitution, every kept character occurs exactly as often as in the input, and every other character not at all |
| Helpers.RemoveSpecialIsSubsequence | src/claude_code_setup/utils/helpers.py:21 | the substitution only deletes characters: its result is a subsequence of the input |
| Helpers.RemoveSpecialKeepsKept | src/claude_code_setup/utils/helpers.py:21 | a string made only of kept characters passes through the substitution unchanged |
| Helpers.RemoveSpecialFixpoint | src/claude_code_setup/utils/helpers.py:21 | the substitution leaves a string unchanged if and only if every character is in the class |
| Helpers.RemoveSpecialConcat | src/claude_code_setup/utils/helpers.py:21 | the substitution acts character by character, so filtering `a + b` is filtering `a` followed by filtering `b` |
| Helpers.SkipLeading | src/claude_code_setup/utils/helpers.py:21 | the forward scan of `strip()` stops between its start and the end of the string; `Helpers.SkipLeadingSpec` states where |
| Helpers.SkipTrailing | src/claude_code_setup/utils/helpers.py:21 | the backward scan of `strip()` stops between its lower bound and its start; `Helpers.SkipTrailingSpec` states where |
| Helpers.SkipLeadingSpec | src/claude_code_setup/utils/helpers.py:21 | the forward scan of `strip()` passes only whitespace and stops at the first other character or at the end |
| Helpers.SkipTrailingSpec | src/claude_code_setup/utils/helpers.py:21 | the backward scan of `strip()` passes only whitespace and stops after the last other character or at its lower bound |
| Helpers.Strip | src/claude_code_setup/utils/helpers.py:21 | `strip()` returns a slice of its input with only whitespace outside it and no whitespace at either of its ends |
| Helpers.StripUnique | src/claude_code_setup/utils/helpers.py:21 | those two properties determine the result: any slice with only whitespace outside it and no whitespace at its ends is the result of `strip()` |
| Helpers.StripFixpoint | src/claude_code_setup/utils/helpers.py:21 | `strip()` leaves a string unchanged if and only if neither end is whitespace |
| Helpers.StripIsSubsequence | src/claude_code_setup/utils/helpers.py:21 | `strip()` returns a subsequence of its input |
| Helpers.StripKeepsNonWhitespace | src/claude_code_setup/utils/helpers.py:21 | `strip()` removes whitespace only: every other character keeps its number of occurrences |
| Helpers.SanitizeString | src/claude_code_setup/utils/helpers.py:11-21 | the sanitized string holds only `[a-zA-Z0-9\s]` characters and starts and ends with a character that is not whitespace, or is empty |
| Helpers.SanitizeIsSubsequence | src/claude_code_setup/utils/helpers.py:11-21 | sanitizing only deletes characters: the result is a subsequence of the input and never longer |
| Helpers.SanitizeKeepsAlphanumerics | src/claude_code_setup/utils/helpers.py:11-21 | every ASCII letter and digit of the input survives, as often as it occurs |
| Helpers.SanitizeDropsSpecials | src/claude_code_setup/utils/helpers.py:11-21 | no character outside `[a-zA-Z0-9\s]` survives |
| Helpers.SanitizeWithoutEdgeWhitespace | src/claude_code_setup/utils/helpers.py:21 | when the substitution leaves no whitespace at either end, `strip()` changes nothing |
| Helpers.SanitizeKeepsClean | src/claude_code_setup/utils/helpers.py:11-21 | a string of kept characters with no whitespace at its ends is returned unchanged |
| Helpers.SanitizeFixpoint | src/claude_code_setup/utils/helpers.py:11-21 | sanitizing returns the input unchanged if and only if every character is kept and neither end is whitespace |
| Helpers.SanitizeIdempotent | src/claude_code_setup/utils/helpers.py:11-21 | sanitizing twice gives the same result as sanitizing once |
| Helpers.ValidateInput | src/claude_code_setup/utils/helpers.py:24-35 | the result is the value when it is present and the default when it is `None` |
| Helpers.ValidateInputIsDefault | src/claude_code_setup/utils/helpers.py:24-35 | the default is returned exactly when the value is `None` or already equals the default: a present value is never replaced |
| Core.Greeting | src/claude_code_setup/core/main.py:17 | the f-string: `len(name) + 8` characters, `"Hello, "` then the name then `"!"` |
| Core.Repeat | src/claude_code_setup/core/main.py:18 | `[x] * count` has `count` elements, all equal to `x`, and is empty when `count` is zero or negative |
| Core.Join | src/claude_code_setup/core/main.py:18 | `sep.join(parts)`: its partner `Core.JoinSnoc` states how each further part is appended |
| Core.JoinSnoc | src/claude_code_setup/core/main.py:18 | joining one more part appends the separator and that part |
| Core.ExampleFunction | src/claude_code_setup/core/main.py:6-18 | a `count` of zero or less gives the empty string |
| Core.ExampleFunctionOnce | src/claude_code_setup/core/main.py:6-18 | with the default count of one, the result is `"Hello, " + name + "!"` |
| Core.ExampleFunctionUnfold | src/claude_code_setup/core/main.py:17-18 | one more repetition appends a space and one more greeting |
| Core.ExampleFunctionLength | src/claude_code_setup/core/main.py:17-18 | the result has `count` greetings of `len(name) + 8` characters each and `count - 1` spaces |
| Core.ExampleFunctionAt | src/claude_code_setup/core/main.py:17-18 | copy `k` of the greeting starts at `k * (len(name) + 9)`, and every copy but the last is followed by one space |
| Core.ExampleFunctionEnds | src/claude_code_setup/core/main.py:17-18 | with at least one repetition the result starts with `"Hello, "` and ends with `"!"` |
| Examples.SanitizeRemovesSpecialCharacters | tests/unit/test_utils.py:14-16 | `"Hello!@#World"` sanitizes to `"HelloWorld"` |
| Examples.SanitizePreservesAlphanumeric | tests/unit/test_utils.py:19-21 | `"Test123"` sanitizes to itself |
| Examples.SanitizePreservesSpaces | tests/unit/test_utils.py:24-26 | `"Hello World"` sanitizes to itself |
| Examples.ValidateInputExamples | tests/unit/test_utils.py:33-47 | the five `validate_input` cases of the tests |
| Examples.BasicGreeting | tests/unit/test_core.py:14-17 | `"World"` with the default count gives `"Hello, World!"` |
| Examples.GreetingWithCount | tests/unit/test_core.py:20-23 | `"Claude"` with count 3 gives three greetings separated by single spaces |
| Examples.EmptyName | tests/unit/test_core.py:26-29 | the empty name gives `"Hello, !"` |
| Examples.ParametrizedGreetings | tests/unit/test_core.py:32-42 | the three parametrized cases (Alice once, Bob twice, the empty name once) |
| Examples.SanitizeClaude | tests/integration/test_integration.py:17-18 | `"Claude!@#$%"` sanitizes to `"Claude"` |
| Examples.SanitizedGreeting | tests/integration/test_integration.py:15-20 | greeting the sanitized `"Claude!@#$%"` once gives `"Hello, Claude!"` |

## Left out

- `main()` and the `if __name__ == "__main__"` guard (src/claude_code_setup/core/main.py:21-27) only print to the console. Console output is not modelled.
- Python's regular expression engine is not modelled in general. Only the single character-class substitution used by `sanitize_string` is modelled, as a character filter.
- Lone surrogate code points, which a Python `str` may hold, cannot appear in a Dafny `string`, so inputs containing them are not covered.
- Dynamic typing is not modelled. `example_function` formats any `name` through the f-string (`None` gives `"Hello, None!"`, `42` gives `"Hello, 42!"`); the model covers `str` names only. It accepts any integral `count` (an `int`, a `bool`, an object with `__index__`) and raises `TypeError` on a non-integral one such as a float; the model covers `int` counts only. `sanitize_string` raises `TypeError` on a non-`str` argument; the model's `string` parameter rules that call out.
- Core.Repeat: `[x] * count` first converts `count` to the platform's index-sized integer, so a count outside that range (below -2^63 or above 2^63 - 1 on a 64-bit build) raises `OverflowError`, and a large positive count exhausts memory. The model's integers are unbounded, and it returns the empty sequence for every non-positive count and `count` copies for every positive one.
- Core.ExampleFunction: for the same reason, a `count` outside the index-sized range raises `OverflowError` in Python, and a large positive count exhausts memory. The model instead returns `""` for every `count <= 0` and the joined greetings for every positive count; neither error path is modelled.
- Core.ExampleFunction: the default argument `count=1` has no counterpart in Dafny. A call without `count` is modelled as a call with `1`, and `Core.ExampleFunctionOnce` states that case.
- `src/claude_code_setup/utils/__init__.py` only re-exports the two helpers, so it has nothing to model. `tests/conftest.py` holds fixtures and `tests/e2e/test_e2e.py` is a placeholder; neither states a property of the core.
