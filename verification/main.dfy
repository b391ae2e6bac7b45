/**
 * `claude_code_setup.core.main.example_function`: the greeting
 * `"Hello, " + name + "!"` repeated `count` times and joined by single spaces.
 */
module Core {

  /** The f-string `f"Hello, {name}!"`: seven characters before the name, one after. */
  function Greeting(name: string): (g: string)
    ensures |g| == |name| + 8
    ensures g[..7] == "Hello, " && g[7..|g| - 1] == name && g[|g| - 1] == '!'
  {
    "Hello, " + name + "!"
  }

  /** Python's list repetition `[x] * count`: empty when `count <= 0`. */
  function Repeat<T>(x: T, count: int): (r: seq<T>)
    ensures |r| == if count <= 0 then 0 else count
    ensures forall i :: 0 <= i < |r| ==> r[i] == x
    decreases count
  {
    if count <= 0 then [] else Repeat(x, count - 1) + [x]
  }

  /** Python's `sep.join(parts)`: the parts in order, `sep` between neighbours. */
  function Join(sep: string, parts: seq<string>): string
    decreases |parts|
  {
    if |parts| == 0 then ""
    else if |parts| == 1 then parts[0]
    else parts[0] + sep + Join(sep, parts[1..])
  }

  /** Joining one more part appends the separator and that part. */
  lemma {:induction false} JoinSnoc(sep: string, parts: seq<string>, p: string)
    requires |parts| >= 1
    ensures Join(sep, parts + [p]) == Join(sep, parts) + sep + p
    decreases |parts|
  {
    assert (parts + [p])[1..] == parts[1..] + [p];
    if |parts| > 1 {
      JoinSnoc(sep, parts[1..], p);
    }
  }

  /**
   * `example_function(name, count)`. A `count` of zero or less repeats the
   * greeting zero times, and joining nothing gives the empty string.
   */
  function ExampleFunction(name: string, count: int): (r: string)
    ensures count <= 0 ==> r == ""
  {
    Join(" ", Repeat(Greeting(name), count))
  }

  /** The default `count` of one gives the greeting itself. */
  lemma ExampleFunctionOnce(name: string)
    ensures ExampleFunction(name, 1) == "Hello, " + name + "!"
  {
  }

  /** One more repetition appends a space and one more greeting. */
  lemma ExampleFunctionUnfold(name: string, n: int)
    requires n >= 1
    ensures ExampleFunction(name, n + 1) == ExampleFunction(name, n) + " " + Greeting(name)
  {
    var g := Greeting(name);
    assert Repeat(g, n + 1) == Repeat(g, n) + [g];
    JoinSnoc(" ", Repeat(g, n), g);
  }

  /** `count` greetings of `|name| + 8` characters each and `count - 1` spaces. */
  lemma {:induction false} ExampleFunctionLength(name: string, count: int)
    requires count >= 1
    ensures |ExampleFunction(name, count)| == count * (|name| + 8) + (count - 1)
    decreases count
  {
    if count > 1 {
      ExampleFunctionLength(name, count - 1);
      ExampleFunctionUnfold(name, count - 1);
      assert count * (|name| + 8) == (count - 1) * (|name| + 8) + (|name| + 8);
    }
  }

  /**
   * The arithmetic of the layout, kept apart from the sequence reasoning:
   * `n` copies of width `w` (greeting plus space) less the final space.
   */
  lemma LayoutArith(n: int, k: int, m: int, w: int)
    requires 1 <= n && 0 <= k <= n && m >= 8 && w == m + 1
    ensures n * m + (n - 1) == n * w - 1
    ensures k < n ==> k * w + w <= n * w
    ensures k == n - 1 ==> k * w + w == n * w
    ensures 0 <= k * w
  {
    assert n * w == n * m + n;
    MulNonnegative(k, w);
    if k < n {
      MulNonnegative(n - k - 1, w);
      assert n * w == (n - k - 1) * w + k * w + w;
    }
  }

  /** A product of two non-negative numbers is non-negative. */
  lemma {:induction false} MulNonnegative(a: int, b: int)
    requires a >= 0 && b >= 0
    ensures a * b >= 0
    decreases a
  {
    if a > 0 {
      MulNonnegative(a - 1, b);
      assert a * b == (a - 1) * b + b;
    }
  }

  /**
   * The layout of the result: copy `k` of the greeting (counting from 0)
   * starts at `k * (|name| + 9)`, and every copy but the last is followed
   * by one space.
   */
  lemma {:induction false} ExampleFunctionAt(name: string, count: int, k: int)
    requires 0 <= k < count
    ensures var w := |name| + 9;
      var r := ExampleFunction(name, count);
      && k * w + w - 1 <= |r|
      && r[k * w..k * w + w - 1] == Greeting(name)
      && (k < count - 1 ==> k * w + w - 1 < |r| && r[k * w + w - 1] == ' ')
    decreases count
  {
    var w := |name| + 9;
    var g := Greeting(name);
    var r := ExampleFunction(name, count);
    if count > 1 {
      var n := count - 1;
      var prev := ExampleFunction(name, n);
      ExampleFunctionUnfold(name, n);
      ExampleFunctionLength(name, n);
      LayoutArith(n, k, |name| + 8, w);
      var kw := k * w;
      assert |prev| == n * w - 1;
      assert r == prev + " " + g;
      if k < n {
        ExampleFunctionAt(name, n, k);
        assert kw + w - 1 <= |prev|;
        assert r[kw..kw + w - 1] == prev[kw..kw + w - 1];
        if k < n - 1 {
          assert r[kw + w - 1] == prev[kw + w - 1];
        } else {
          assert kw + w - 1 == |prev|;
        }
      } else {
        assert kw == |prev| + 1;
        assert r[kw..kw + w - 1] == g;
      }
    }
  }

  /** With at least one repetition the result starts with "Hello, " and ends with "!". */
  lemma ExampleFunctionEnds(name: string, count: int)
    requires count >= 1
    ensures var r := ExampleFunction(name, count);
      |r| >= 8 && r[..7] == "Hello, " && r[|r| - 1] == '!'
  {
    var w := |name| + 9;
    var r := ExampleFunction(name, count);
    var g := Greeting(name);
    ExampleFunctionAt(name, count, 0);
    ExampleFunctionAt(name, count, count - 1);
    ExampleFunctionLength(name, count);
    LayoutArith(count, count - 1, |name| + 8, w);
    var last := (count - 1) * w;
    assert |r| == count * w - 1;
    assert last + w - 1 == |r|;
    assert r[..7] == r[0..w - 1][..7] == g[..7];
    assert r[|r| - 1] == r[last..last + w - 1][w - 2] == g[w - 2];
  }
}
