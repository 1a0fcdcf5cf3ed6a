/**
  The test registry of utils/Tester.cpp: tests are registered in order, and a run
  selects them by an optional matcher (the SERVER_TESTS environment variable,
  passed in) against "base.name".
*/
module Tester {
  import opened Wrappers

  /** A registered test; `func` identifies the test function, which the model never calls. */
  datatype Test = Test(base: string, name: string, func: nat)

  /** RegisterTest: appends the test after all earlier ones and reports true. */
  function RegisterTest(tests: seq<Test>, base: string, name: string, func: nat): (r: (seq<Test>, bool))
    ensures r.1
    ensures |r.0| == |tests| + 1 && r.0[..|tests|] == tests
    ensures r.0[|tests|] == Test(base, name, func)
  {
    (tests + [Test(base, name, func)], true)
  }

  /** The name a matcher is compared against. */
  function FullName(t: Test): (r: string)
    ensures |r| == |t.base| + 1 + |t.name|
    ensures r[..|t.base|] == t.base && r[|t.base|] == '.' && r[|t.base| + 1..] == t.name
  {
    t.base + "." + t.name
  }

  /** `pat` occurs in `s` starting at position `i`. */
  predicate MatchesAt(s: string, pat: string, i: nat)
  {
    i + |pat| <= |s| && s[i..i + |pat|] == pat
  }

  /** Substring search from position `i` on, as strstr does from the start. */
  function ContainsFrom(s: string, pat: string, i: nat): (b: bool)
    decreases |s| - i
    ensures b <==> exists j :: i <= j && MatchesAt(s, pat, j)
  {
    if i + |pat| > |s| then false
    else MatchesAt(s, pat, i) || ContainsFrom(s, pat, i + 1)
  }

  function Contains(s: string, pat: string): (b: bool)
    ensures b <==> exists j :: 0 <= j && MatchesAt(s, pat, j)
  {
    ContainsFrom(s, pat, 0)
  }

  /** Whether a run with this matcher executes `t`. */
  predicate Selected(t: Test, matcher: Option<string>)
  {
    matcher.None? || Contains(FullName(t), matcher.value)
  }

  /** A test is selected iff there is no matcher or the matcher occurs somewhere in "base.name". */
  lemma SelectedIff(t: Test, matcher: Option<string>)
    ensures Selected(t, matcher) <==>
      matcher.None? || exists j :: 0 <= j && MatchesAt(t.base + "." + t.name, matcher.value, j)
  {
  }

  /** The tests a run executes, in registration order. */
  function Select(tests: seq<Test>, matcher: Option<string>): (r: seq<Test>)
    decreases |tests|
    ensures |r| <= |tests|
  {
    if |tests| == 0 then []
    else
      var last := tests[|tests| - 1];
      var init := tests[..|tests| - 1];
      Select(init, matcher) + (if Selected(last, matcher) then [last] else [])
  }

  /** A test is run iff it is registered and the matcher selects it. */
  lemma {:induction false} SelectMembers(tests: seq<Test>, matcher: Option<string>)
    decreases |tests|
    ensures forall t :: t in Select(tests, matcher) <==> t in tests && Selected(t, matcher)
  {
    if |tests| > 0 {
      var last := tests[|tests| - 1];
      var init := tests[..|tests| - 1];
      SelectMembers(init, matcher);
      assert tests == init + [last];
    }
  }

  /**
    RunAllTests: walks the registry in order, skipping the tests whose full name
    does not contain the matcher, and reports how many ran. It always returns 0.
  */
  method RunAllTests(tests: seq<Test>, matcher: Option<string>) returns (ran: seq<Test>, num: int, ret: int)
    ensures ran == Select(tests, matcher)
    ensures num == |ran|
    ensures ret == 0
  {
    ran := [];
    num := 0;
    var i := 0;
    while i < |tests|
      invariant 0 <= i <= |tests|
      invariant ran == Select(tests[..i], matcher)
      invariant num == |ran|
    {
      var t := tests[i];
      assert tests[..i + 1] == tests[..i] + [t];
      i := i + 1;
      if matcher.Some? && !Contains(FullName(t), matcher.value) {
        continue;
      }
      ran := ran + [t];
      num := num + 1;
    }
    assert tests[..|tests|] == tests;
    ret := 0;
  }

  /** Selection distributes over concatenation, so it keeps registration order. */
  lemma {:induction false} SelectAppend(a: seq<Test>, b: seq<Test>, matcher: Option<string>)
    decreases |b|
    ensures Select(a + b, matcher) == Select(a, matcher) + Select(b, matcher)
  {
    if |b| == 0 {
      assert a + b == a;
    } else {
      var init := b[..|b| - 1];
      var last := b[|b| - 1];
      var tail := if Selected(last, matcher) then [last] else [];
      assert (a + b)[..|a + b| - 1] == a + init;
      assert (a + b)[|a + b| - 1] == last;
      SelectUnfold(a + b, matcher);
      SelectUnfold(b, matcher);
      SelectAppend(a, init, matcher);
      assert Select(a + init, matcher) + tail == Select(a, matcher) + (Select(init, matcher) + tail);
    }
  }

  /** One step of Select from the back: the last test is appended iff it is selected. */
  lemma SelectUnfold(tests: seq<Test>, matcher: Option<string>)
    requires |tests| > 0
    ensures Select(tests, matcher)
         == Select(tests[..|tests| - 1], matcher)
          + (if Selected(tests[|tests| - 1], matcher) then [tests[|tests| - 1]] else [])
  {
  }

  /** With no matcher every registered test runs, in registration order. */
  lemma {:induction false} NoMatcherRunsAll(tests: seq<Test>)
    decreases |tests|
    ensures Select(tests, None) == tests
  {
    if |tests| > 0 {
      NoMatcherRunsAll(tests[..|tests| - 1]);
      assert tests == tests[..|tests| - 1] + [tests[|tests| - 1]];
    }
  }

  /** A newly registered test runs last, exactly when the matcher selects it. */
  lemma RegisterThenRun(tests: seq<Test>, base: string, name: string, func: nat, matcher: Option<string>)
    ensures var t := Test(base, name, func);
      Select(RegisterTest(tests, base, name, func).0, matcher)
        == Select(tests, matcher) + (if Selected(t, matcher) then [t] else [])
  {
    var t := Test(base, name, func);
    SelectAppend(tests, [t], matcher);
    assert Select([t], matcher) == Select([], matcher) + (if Selected(t, matcher) then [t] else []);
  }

  /** An empty registry runs nothing and reports zero. */
  lemma EmptyRegistry(matcher: Option<string>)
    ensures Select([], matcher) == []
  {
  }

  /** The empty matcher selects every test, as strstr finds the empty string anywhere. */
  lemma {:induction false} SelectEmptyMatcher(tests: seq<Test>)
    decreases |tests|
    ensures Select(tests, Some("")) == Select(tests, None)
  {
    if |tests| > 0 {
      SelectEmptyMatcher(tests[..|tests| - 1]);
      assert MatchesAt(FullName(tests[|tests| - 1]), "", 0);
    }
  }
}
