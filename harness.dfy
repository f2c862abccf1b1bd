/** The assertion engine and the registry (trabfa/bscpp.hpp:55-96, 344-379): the
    process-wide registry of examples, the check counter `num_checks` and the list of
    failure records, with `check_expect`, `check_within` and `run_tests` as the methods
    that change them. A test body is arbitrary client code; here it is the sequence of
    checks it performs, in order. */
module Harness {
  import opened Values
  import opened Text
  import opened Equality
  import opened Repr
  import Names

  /** An operand of `check_expect`: its value and what `type_name` gives for its static type. */
  datatype Operand = Operand(value: Value, typeName: string)

  /** One check a test body performs. `comparable` is the compile-time answer of
      `has_is_eq<A, B>`; for `check_within`, `withinDelta` is the answer of `approx_eq` and the
      three texts are how `repr` and `<<` print the two doubles and the tolerance. */
  datatype Check =
    | Expect(left: Operand, right: Operand, comparable: bool, file: string, line: int)
    | Within(withinDelta: bool, leftText: string, rightText: string, deltaText: string, file: string, line: int)

  /** A registered example: the checks its body performs when it is run. */
  type Example = seq<Check>

  /** `num_checks` is an `unsigned int`. */
  const CounterModulus: nat := 0x1_0000_0000

  predicate CheckWellFormed(c: Check) {
    c.Expect? ==> WellFormed(c.left.value) && WellFormed(c.right.value)
  }

  predicate ChecksWellFormed(checks: seq<Check>) {
    forall k :: 0 <= k < |checks| ==> CheckWellFormed(checks[k])
  }

  /** The first line of every failure record. */
  function Location(file: string, line: int): string {
    "  " + file + " at line " + IntToString(line) + ":\n"
  }

  /** The record of a comparison that failed: the location, then the `left :` and `right:`
      lines. */
  function MismatchText(left: Operand, right: Operand, file: string, line: int): string
    requires WellFormed(left.value) && WellFormed(right.value)
  {
    Location(file, line) +
    ("    left : " + (Repr.Repr(left.value) + "\n" +
     "    right: " + Repr.Repr(right.value) + "\n"))
  }

  /** The record of operands whose types have no `is_eq`: the location, then the two type names. */
  function IncomparableText(left: Operand, right: Operand, file: string, line: int): string {
    Location(file, line) +
    ("    cannot compare values of types " + (left.typeName + " and " + right.typeName + ".\n"))
  }

  /** The record of a tolerance check that failed: the location, the tolerance, then the
      `left :` and `right:` lines. */
  function WithinText(leftText: string, rightText: string, deltaText: string, file: string, line: int): string {
    Location(file, line) +
    ("    the absolute difference in not within " + (deltaText + "\n" +
     "    left : " + leftText + "\n" +
     "    right: " + rightText + "\n"))
  }

  /** The failure records one check appends: at most one, and one exactly when the operand
      types are incomparable, the values are not `is_eq`, or the tolerance is exceeded. */
  function Recorded(c: Check): (r: seq<string>)
    requires CheckWellFormed(c)
    ensures |r| <= 1
  {
    match c
    case Expect(left, right, comparable, file, line) =>
      if !comparable then [IncomparableText(left, right, file, line)]
      else if !IsEq(left.value, right.value) then [MismatchText(left, right, file, line)]
      else []
    case Within(withinDelta, leftText, rightText, deltaText, file, line) =>
      if withinDelta then [] else [WithinText(leftText, rightText, deltaText, file, line)]
  }

  /** `check_equal` records a failure exactly when the operand types are incomparable or the
      values are not `is_eq`, and the record shows the types or the two `repr`s accordingly;
      `check_within` records one exactly when the tolerance is exceeded. */
  lemma RecordedWhen(c: Check)
    requires CheckWellFormed(c)
    ensures c.Expect? ==> (Recorded(c) != [] <==> !c.comparable || !IsEq(c.left.value, c.right.value))
    ensures c.Expect? && !c.comparable ==> Recorded(c) == [IncomparableText(c.left, c.right, c.file, c.line)]
    ensures c.Expect? && c.comparable && Recorded(c) != [] ==> Recorded(c) == [MismatchText(c.left, c.right, c.file, c.line)]
    ensures c.Within? ==> (Recorded(c) != [] <==> !c.withinDelta)
  {
  }

  /** The location line of a failure record: indented by two spaces, ended by a colon. */
  lemma LocationText(file: string, line: int)
    ensures var loc := Location(file, line);
            |loc| >= 4 && loc[..2] == "  " && loc[|loc| - 2..] == ":\n"
  {
  }

    /** A mismatch record starts with the location and the `left :` label and ends a line. */
  lemma MismatchTextShape(left: Operand, right: Operand, file: string, line: int)
    requires WellFormed(left.value) && WellFormed(right.value)
    ensures Location(file, line) + "    left : " <= MismatchText(left, right, file, line)
    ensures var m := MismatchText(left, right, file, line); m[|m| - 1] == '\n'
  {
    var loc, lit := Location(file, line), "    left : ";
    var tail := Repr.Repr(left.value) + "\n" + "    right: " + Repr.Repr(right.value) + "\n";
    assert MismatchText(left, right, file, line) == loc + (lit + tail);
    ConcatAssoc(loc, lit, tail);
    HeadAndLine(loc + lit, tail);
  }

  /** An incomparable-types record starts with the location and the `cannot compare` line
      and ends a line. */
  lemma IncomparableTextShape(left: Operand, right: Operand, file: string, line: int)
    ensures Location(file, line) + "    cannot compare values of types " <= IncomparableText(left, right, file, line)
    ensures var c := IncomparableText(left, right, file, line); c[|c| - 1] == '\n'
  {
    var loc, lit := Location(file, line), "    cannot compare values of types ";
    var tail := left.typeName + " and " + right.typeName + ".\n";
    assert IncomparableText(left, right, file, line) == loc + (lit + tail);
    ConcatAssoc(loc, lit, tail);
    HeadAndLine(loc + lit, tail);
  }

  /** A tolerance record starts with the location and the tolerance line and ends a line. */
  lemma WithinTextShape(leftText: string, rightText: string, deltaText: string, file: string, line: int)
    ensures Location(file, line) + "    the absolute difference in not within "
            <= WithinText(leftText, rightText, deltaText, file, line)
    ensures var w := WithinText(leftText, rightText, deltaText, file, line); w[|w| - 1] == '\n'
  {
    var loc, lit := Location(file, line), "    the absolute difference in not within ";
    var tail := deltaText + "\n" + "    left : " + leftText + "\n" + "    right: " + rightText + "\n";
    assert WithinText(leftText, rightText, deltaText, file, line) == loc + (lit + tail);
    ConcatAssoc(loc, lit, tail);
    HeadAndLine(loc + lit, tail);
  }

  /** A head followed by a tail ending in a newline: the head is a prefix and the whole ends
      in that newline. */
  lemma HeadAndLine(head: string, tail: string)
    requires tail != [] && tail[|tail| - 1] == '\n'
    ensures head <= head + tail
    ensures (head + tail)[|head + tail| - 1] == '\n'
  {
  }

  /** The three kinds of failure record can be told apart: at one location they differ in
      the line after it. */
  lemma RecordKindsDiffer(left: Operand, right: Operand, leftText: string, rightText: string,
                          deltaText: string, file: string, line: int)
    requires WellFormed(left.value) && WellFormed(right.value)
    ensures MismatchText(left, right, file, line) != IncomparableText(left, right, file, line)
    ensures MismatchText(left, right, file, line) != WithinText(leftText, rightText, deltaText, file, line)
    ensures IncomparableText(left, right, file, line) != WithinText(leftText, rightText, deltaText, file, line)
  {
    var n := |Location(file, line)|;
    var m := MismatchText(left, right, file, line);
    var c := IncomparableText(left, right, file, line);
    var w := WithinText(leftText, rightText, deltaText, file, line);
    assert m[n + 4] == 'l' by {
      assert (Location(file, line) + "    left : ")[n + 4] == 'l';
    }
    assert c[n + 4] == 'c' by {
      assert (Location(file, line) + "    cannot compare values of types ")[n + 4] == 'c';
    }
    assert w[n + 4] == 't' by {
      assert (Location(file, line) + "    the absolute difference in not within ")[n + 4] == 't';
    }
  }

  /** The failure records a run of checks appends, in the order the checks run. */
  function Failures(checks: seq<Check>): (r: seq<string>)
    requires ChecksWellFormed(checks)
    ensures |r| <= |checks|
  {
    if checks == [] then []
    else Failures(checks[..|checks| - 1]) + Recorded(checks[|checks| - 1])
  }

  /** All checks of the registered examples, example by example in registration order. */
  function AllChecks(examples: seq<Example>): (r: seq<Check>)
    ensures examples == [] ==> r == []
  {
    if examples == [] then []
    else AllChecks(examples[..|examples| - 1]) + examples[|examples| - 1]
  }

  predicate ExamplesWellFormed(examples: seq<Example>) {
    forall i :: 0 <= i < |examples| ==> ChecksWellFormed(examples[i])
  }

  /** The number of checks the registered examples perform. */
  function CheckCount(examples: seq<Example>): (n: nat)
    ensures n == |AllChecks(examples)|
  {
    if examples == [] then 0
    else CheckCount(examples[..|examples| - 1]) + |examples[|examples| - 1]|
  }

  /** The failure records of running the registered examples one after the other. */
  function ExampleFailures(examples: seq<Example>): (r: seq<string>)
    requires ExamplesWellFormed(examples)
    ensures |r| <= CheckCount(examples)
  {
    if examples == [] then []
    else ExampleFailures(examples[..|examples| - 1]) + Failures(examples[|examples| - 1])
  }

  /** Running one more example appends its failure records. */
  lemma ExampleFailuresSnoc(examples: seq<Example>, i: nat)
    requires i < |examples| && ExamplesWellFormed(examples)
    ensures ExamplesWellFormed(examples[..i]) && ExamplesWellFormed(examples[..i + 1])
    ensures ChecksWellFormed(examples[i])
    ensures CheckCount(examples[..i + 1]) == CheckCount(examples[..i]) + |examples[i]|
    ensures ExampleFailures(examples[..i + 1]) == ExampleFailures(examples[..i]) + Failures(examples[i])
  {
    assert examples[..i + 1][..i] == examples[..i];
  }

  /** Running the examples one by one records the same failures, in the same order, as
      running all their checks as one stretch. */
  lemma {:induction false} ExampleFailuresFlat(examples: seq<Example>)
    requires ExamplesWellFormed(examples)
    ensures ChecksWellFormed(AllChecks(examples))
    ensures ExampleFailures(examples) == Failures(AllChecks(examples))
    decreases |examples|
  {
    if examples != [] {
      var n := |examples| - 1;
      ExampleFailuresFlat(examples[..n]);
      FailuresAppend(AllChecks(examples[..n]), examples[n]);
    }
  }

  /** One more check appends its record. */
  lemma FailuresSnoc(checks: seq<Check>, j: nat)
    requires j < |checks| && ChecksWellFormed(checks)
    ensures ChecksWellFormed(checks[..j]) && ChecksWellFormed(checks[..j + 1]) && CheckWellFormed(checks[j])
    ensures Failures(checks[..j + 1]) == Failures(checks[..j]) + Recorded(checks[j])
  {
    assert checks[..j + 1][..j] == checks[..j];
  }

  /** Running two stretches of checks one after the other records the failures of the first,
      then those of the second. */
  lemma {:induction false} FailuresAppend(xs: seq<Check>, ys: seq<Check>)
    requires ChecksWellFormed(xs) && ChecksWellFormed(ys)
    ensures ChecksWellFormed(xs + ys)
    ensures Failures(xs + ys) == Failures(xs) + Failures(ys)
    decreases |ys|
  {
    ChecksAppendWellFormed(xs, ys);
    if ys == [] {
      AppendEmpty(xs);
    } else {
      var n := |ys| - 1;
      FailuresSnoc(ys, n);
      FailuresAppend(xs, ys[..n]);
      FailuresAppendStep(xs, ys[..n], ys[n]);
      InitAndLast(ys);
    }
  }

  /** The step of `FailuresAppend`: if it holds for `init`, it holds for `init` and one more check. */
  lemma FailuresAppendStep(xs: seq<Check>, init: seq<Check>, last: Check)
    requires ChecksWellFormed(xs) && ChecksWellFormed(init) && CheckWellFormed(last)
    requires ChecksWellFormed(xs + init) && Failures(xs + init) == Failures(xs) + Failures(init)
    ensures ChecksWellFormed(init + [last]) && ChecksWellFormed(xs + (init + [last]))
    ensures Failures(xs + (init + [last])) == Failures(xs) + Failures(init + [last])
  {
    FailuresSnocOne(init, last);
    FailuresSnocOne(xs + init, last);
    ConcatAssoc(xs, init, [last]);
    ConcatAssoc(Failures(xs), Failures(init), Recorded(last));
  }

  /** One check after a stretch appends its record. */
  lemma FailuresSnocOne(checks: seq<Check>, c: Check)
    requires ChecksWellFormed(checks) && CheckWellFormed(c)
    ensures ChecksWellFormed(checks + [c])
    ensures Failures(checks + [c]) == Failures(checks) + Recorded(c)
  {
    assert (checks + [c])[..|checks|] == checks;
  }

  /** Two stretches of well-formed checks make a well-formed stretch. */
  lemma ChecksAppendWellFormed(xs: seq<Check>, ys: seq<Check>)
    requires ChecksWellFormed(xs) && ChecksWellFormed(ys)
    ensures ChecksWellFormed(xs + ys)
  {
    forall k | 0 <= k < |xs + ys|
      ensures CheckWellFormed((xs + ys)[k])
    {
      if k >= |xs| {
        assert (xs + ys)[k] == ys[k - |xs|];
      }
    }
  }

  /** The registry the header allocates on first registration. */
  class Registry {
    var examples: seq<Example>

    constructor ()
      ensures examples == []
    {
      examples := [];
    }
  }

  /** The header's process-wide state: `exs` (null until the first registration),
      `num_checks` and `failures`. `executed`, the number of checks run so far, is kept
      alongside to state what the wrapping counter counts. */
  class TestState {
    var exs: Registry?
    var numChecks: nat
    var failures: seq<string>
    ghost var executed: nat

    /** The counter is the number of checks run, modulo 2^32; there are never more failure
        records than checks run. */
    ghost predicate Valid()
      reads this
    {
      numChecks == executed % CounterModulus && |failures| <= executed
    }

    /** The state before any static initialiser runs: a null registry, no checks, no failures. */
    constructor ()
      ensures Valid()
      ensures exs == null && numChecks == 0 && failures == [] && executed == 0
    {
      exs := null;
      numChecks := 0;
      failures := [];
      executed := 0;
    }

    /** `register_example`: allocate the registry if it does not exist yet, then append. */
    method RegisterExample(example: Example)
      requires Valid()
      modifies this`exs, exs
      ensures Valid()
      ensures exs != null
      ensures old(exs) == null ==> fresh(exs) && exs.examples == [example]
      ensures old(exs) != null ==> exs == old(exs) && exs.examples == old(exs.examples) + [example]
    {
      if exs == null {
        exs := new Registry();
      }
      exs.examples := exs.examples + [example];
    }

    /** `check_equal`: count the check; record a failure when the types cannot be compared
        or the values are not `is_eq`. */
    method CheckEqual(left: Operand, right: Operand, comparable: bool, file: string, line: int)
      requires Valid() && WellFormed(left.value) && WellFormed(right.value)
      modifies this`numChecks, this`failures, this`executed
      ensures Valid()
      ensures executed == old(executed) + 1
      ensures executed < CounterModulus ==> |failures| <= numChecks
      ensures numChecks == (old(numChecks) + 1) % CounterModulus
      ensures failures == old(failures) + Recorded(Expect(left, right, comparable, file, line))
    {
      numChecks := (numChecks + 1) % CounterModulus;
      executed := executed + 1;
      if comparable {
        if !IsEq(left.value, right.value) {
          failures := failures + [MismatchText(left, right, file, line)];
        }
      } else {
        failures := failures + [IncomparableText(left, right, file, line)];
      }
    }

    /** `_check_within`: count the check; record a failure when `approx_eq` does not hold. */
    method CheckWithin(withinDelta: bool, leftText: string, rightText: string, deltaText: string,
                       file: string, line: int)
      requires Valid()
      modifies this`numChecks, this`failures, this`executed
      ensures Valid()
      ensures executed == old(executed) + 1
      ensures executed < CounterModulus ==> |failures| <= numChecks
      ensures numChecks == (old(numChecks) + 1) % CounterModulus
      ensures failures == old(failures) + Recorded(Within(withinDelta, leftText, rightText, deltaText, file, line))
    {
      numChecks := (numChecks + 1) % CounterModulus;
      executed := executed + 1;
      if !withinDelta {
        failures := failures + [WithinText(leftText, rightText, deltaText, file, line)];
      }
    }

    /** One check of a test body: `check_expect` or `check_within`. */
    method RunCheck(c: Check)
      requires Valid() && CheckWellFormed(c)
      modifies this`numChecks, this`failures, this`executed
      ensures Valid()
      ensures executed == old(executed) + 1
      ensures failures == old(failures) + Recorded(c)
    {
      match c
      case Expect(left, right, comparable, file, line) =>
        CheckEqual(left, right, comparable, file, line);
      case Within(withinDelta, leftText, rightText, deltaText, file, line) =>
        CheckWithin(withinDelta, leftText, rightText, deltaText, file, line);
    }

    /** Running one example's body: its checks, in order. */
    method RunExample(ex: Example)
      requires Valid() && ChecksWellFormed(ex)
      modifies this`numChecks, this`failures, this`executed
      ensures Valid()
      ensures executed == old(executed) + |ex|
      ensures failures == old(failures) + Failures(ex)
    {
      for j := 0 to |ex|
        invariant Valid()
        invariant executed == old(executed) + j
        invariant failures == old(failures) + Failures(ex[..j])
      {
        FailuresSnoc(ex, j);
        ghost var before := Failures(ex[..j]);
        RunCheck(ex[j]);
        ConcatAssoc(old(failures), before, Recorded(ex[j]));
      }
      assert ex[..|ex|] == ex;
    }

    /** `run_tests` without its printing: run every registered example in registration order,
        each performing its checks in order, and return the number of passed checks it
        prints, `num_checks - failures.size()` in `size_t` arithmetic. */
    method RunTests() returns (passed: nat)
      requires Valid() && exs != null
      requires ExamplesWellFormed(exs.examples)
      modifies this`numChecks, this`failures, this`executed
      ensures Valid()
      ensures executed == old(executed) + CheckCount(exs.examples)
      ensures numChecks == (old(numChecks) + CheckCount(exs.examples)) % CounterModulus
      ensures failures == old(failures) + ExampleFailures(exs.examples)
      ensures passed == (numChecks - |failures|) % Names.SizeModulus
      ensures executed < CounterModulus ==> |failures| <= numChecks && passed == numChecks - |failures|
    {
      var examples := exs.examples;
      for i := 0 to |examples|
        invariant Valid()
        invariant executed == old(executed) + CheckCount(examples[..i])
        invariant failures == old(failures) + ExampleFailures(examples[..i])
      {
        ExampleFailuresSnoc(examples, i);
        ghost var before := ExampleFailures(examples[..i]);
        RunExample(examples[i]);
        ConcatAssoc(old(failures), before, Failures(examples[i]));
      }
      assert examples[..|examples|] == examples;
      CounterWraps(old(executed), old(numChecks), CheckCount(examples));
      passed := (numChecks - |failures|) % Names.SizeModulus;
      PassedWithoutWrap(executed, numChecks, |failures|, passed);
    }
  }

  lemma ConcatAssoc<T>(a: seq<T>, b: seq<T>, c: seq<T>)
    ensures (a + b) + c == a + (b + c)
  {
  }

  lemma AppendEmpty<T>(a: seq<T>)
    ensures a + [] == a
  {
  }

  lemma InitAndLast<T>(s: seq<T>)
    requires s != []
    ensures s[..|s| - 1] + [s[|s| - 1]] == s
  {
  }

  /** Before the counter wraps, the passed tally is the number of checks without a failure record. */
  lemma PassedWithoutWrap(executed: nat, counter: nat, failed: nat, passed: nat)
    requires counter == executed % CounterModulus && failed <= executed
    requires passed == (counter - failed) % Names.SizeModulus
    ensures executed < CounterModulus ==> passed == counter - failed
  {
    if executed < CounterModulus {
      assert counter == executed;
      assert 0 <= counter - failed < Names.SizeModulus;
    }
  }

  /** Counting modulo 2^32 step by step or all at once gives the same counter. */
  lemma CounterWraps(executed: nat, counter: nat, n: nat)
    requires counter == executed % CounterModulus
    ensures (executed + n) % CounterModulus == (counter + n) % CounterModulus
  {
    var q := executed / CounterModulus;
    assert executed + n == q * CounterModulus + (counter + n);
  }
}
