/**
 * The three lifecycle hooks of the spawner, seen through what `subprocess.run`
 * reports: an exit status and, for the converge-to hook, the captured stdout.
 */
module Hooks {
  import opened Wrappers
  import opened PyText

  /** The part of a `CompletedProcess` the spawner looks at. */
  datatype Completed = Completed(returnCode: int, stdout: seq<byte>)

  /** `int(stdout.decode("utf-8").strip())`, or None where that raises ValueError. */
  function StdoutValue(stdout: seq<byte>): Option<int> {
    match Decode(stdout)
    case None => None
    case Some(text) => ParseInt(Strip(text))
  }

  /** The desired count one run of the converge-to hook yields, if it yields one. */
  function AttemptValue(attempt: Completed): Option<int> {
    if attempt.returnCode == 0 then StdoutValue(attempt.stdout) else None
  }

  /** What each run of the converge-to hook yields, in the order of the runs. */
  function Readings(attempts: seq<Completed>): (vs: seq<Option<int>>)
    ensures |vs| == |attempts|
  {
    if attempts == [] then [] else [AttemptValue(attempts[0])] + Readings(attempts[1..])
  }

  lemma {:induction false} ReadingAt(attempts: seq<Completed>, j: nat)
    requires j < |attempts|
    ensures Readings(attempts)[j] == AttemptValue(attempts[j])
    decreases j
  {
    if j > 0 {
      ReadingAt(attempts[1..], j - 1);
    }
  }

  /** Reading `k` is the first one that is a count. */
  ghost predicate IsFirstCount(vs: seq<Option<int>>, k: int) {
    && 0 <= k < |vs|
    && vs[k].Some?
    && forall j :: 0 <= j < k ==> vs[j].None?
  }

  /** The count `call_converge_to` returns after runs with these readings: the first one. */
  function FirstCount(vs: seq<Option<int>>): Option<int>
  {
    if vs == [] then None
    else if vs[0].Some? then vs[0]
    else FirstCount(vs[1..])
  }

  /** A count is returned exactly when some reading is one, and then it is the first. */
  lemma {:induction false} FirstCountIsFirst(vs: seq<Option<int>>)
    ensures FirstCount(vs).Some? <==> exists k :: IsFirstCount(vs, k)
    ensures forall k :: IsFirstCount(vs, k) ==> FirstCount(vs) == vs[k]
    decreases |vs|
  {
    if vs != [] {
      var tail := vs[1..];
      FirstCountIsFirst(tail);
      if vs[0].Some? {
        assert IsFirstCount(vs, 0);
      } else {
        forall k | IsFirstCount(vs, k) ensures IsFirstCount(tail, k - 1) {
          assert forall j :: 0 <= j < k - 1 ==> tail[j] == vs[j + 1];
        }
        forall k | IsFirstCount(tail, k) ensures IsFirstCount(vs, k + 1) {
          forall j | 0 <= j < k + 1 ensures vs[j].None? {
            if j > 0 {
              assert vs[j] == tail[j - 1];
            }
          }
        }
      }
    }
  }

  /** No count is returned exactly when no reading is one. */
  lemma {:induction false} FirstCountNone(vs: seq<Option<int>>)
    ensures FirstCount(vs).None? <==> forall j :: 0 <= j < |vs| ==> vs[j].None?
    decreases |vs|
  {
    if vs != [] {
      var tail := vs[1..];
      FirstCountNone(tail);
      assert forall j :: 0 < j < |vs| ==> vs[j] == tail[j - 1];
    }
  }

  lemma RenderEnds(n: int)
    ensures |Render(n)| > 0
    ensures !IsSpace(Render(n)[0]) && !IsSpace(Render(n)[|Render(n)| - 1])
  {
    var r := RenderNat(if n < 0 then -n else n);
    assert IsDigit(r[0]) && IsDigit(r[|r| - 1]);
  }

  /**
   * A hook that prints a number of at most `MaxStrDigits` digits, with any
   * whitespace around it, is read as that number.
   */
  lemma StdoutValueOfPrintedNumber(before: string, n: int, after: string)
    requires AllSpace(before) && AllSpace(after)
    requires |RenderNat(if n < 0 then -n else n)| <= MaxStrDigits
    ensures StdoutValue(Encode(before + Render(n) + after)) == Some(n)
  {
    var text := before + Render(n) + after;
    DecodeEncode(text);
    RenderEnds(n);
    StripPadded(before, Render(n), after);
    ParseRender(n);
  }

  /**
   * A count is read exactly when the stdout is valid UTF-8 whose stripped text is an
   * integer literal.
   */
  lemma StdoutValueCharacterization(stdout: seq<byte>)
    ensures StdoutValue(stdout).Some? <==>
      Decode(stdout).Some? && IsIntLiteral(Strip(Decode(stdout).value))
  {
    if Decode(stdout).Some? {
      ParseIntCorrect(Strip(Decode(stdout).value));
    }
  }

  /** A run printing more than `MaxStrDigits` digits yields no count: `int()` refuses it. */
  lemma LongNumberScenario(digits: string)
    requires AllDigits(digits) && |digits| > MaxStrDigits
    ensures AttemptValue(Completed(0, Encode(digits))) == None
  {
    DecodeEncode(digits);
    assert !IsSpace(digits[0]) && !IsSpace(digits[|digits| - 1]);
    StripPadded([], digits, []);
    assert [] + digits + [] == digits;
    DigitLimit(digits);
  }

  /** A run that exits nonzero never yields a count, whatever it prints. */
  lemma FailedAttemptIgnored(attempt: Completed)
    requires attempt.returnCode != 0
    ensures AttemptValue(attempt) == None
  {
  }

  lemma LettersDecode()
    ensures Decode([0x61, 0x62, 0x63]) == Some("abc")
  {
    assert Encode("abc") == [0x61, 0x62, 0x63];
    DecodeEncode("abc");
  }

  lemma LettersStrip()
    ensures Strip("abc") == "abc"
  {
    StripPadded([], "abc", []);
    assert [] + "abc" + [] == "abc";
  }

  /** "abc" decodes but is not an integer literal. */
  lemma LettersAreNotACount()
    ensures StdoutValue([0x61, 0x62, 0x63]) == None
  {
    LettersDecode();
    LettersStrip();
    assert ParseInt("abc") == None;
  }

  /** Exit 1; then exit 0 printing "abc"; then exit 0 printing "3": the third run yields 3. */
  lemma RetryScenario()
    ensures var attempts := [Completed(1, []), Completed(0, [0x61, 0x62, 0x63]), Completed(0, [0x33])];
      Readings(attempts) == [None, None, Some(3)] && FirstCount(Readings(attempts)) == Some(3)
  {
    var vs: seq<Option<int>> := [None, None, Some(3)];
    assert FirstCount(vs) == Some(3) by {
      assert vs[1..] == [None, Some(3)] && vs[1..][1..] == [Some(3)];
    }
    LettersAreNotACount();
    ThreeIsRead();
    ReadingsOfThree(Completed(1, []), Completed(0, [0x61, 0x62, 0x63]), Completed(0, [0x33]));
  }

  lemma ReadingsOfThree(a: Completed, b: Completed, c: Completed)
    ensures Readings([a, b, c]) == [AttemptValue(a), AttemptValue(b), AttemptValue(c)]
  {
    assert [a, b, c][1..] == [b, c] && [b, c][1..] == [c];
    assert Readings([c]) == [AttemptValue(c)];
  }

  lemma ThreeIsRead()
    ensures AttemptValue(Completed(0, [0x33])) == Some(3)
  {
    assert Encode([] + Render(3) + []) == [0x33];
    StdoutValueOfPrintedNumber([], 3, []);
  }

  /** Exit 0 printing "7\n" yields 7. */
  lemma NewlineScenario()
    ensures AttemptValue(Completed(0, [0x37, 0x0A])) == Some(7)
  {
    assert Encode([] + Render(7) + "\n") == [0x37, 0x0A];
    StdoutValueOfPrintedNumber([], 7, "\n");
  }

  /** Undecodable output (a lone 0xFF byte) is a failed attempt, not a crash. */
  lemma UndecodableScenario()
    ensures AttemptValue(Completed(0, [0xFF])) == None
  {
    assert DecodeFirst([0xFF]) == Invalid;
    assert Decode([0xFF]) == None;
  }

  /** The error `subprocess.run(..., check=True)` raises on a nonzero exit. */
  datatype TakeError = CalledProcessError(returnCode: int)

  /** How a call of `call_take` ends: it returns a value, or it raises. */
  datatype TakeReturn = Returned(value: bool) | Raised(error: TakeError)

  /**
   * `call_take`: a nonzero exit raises; otherwise the result is `not` of the
   * CompletedProcess object, which is always truthy.
   */
  function TakeResult(returnCode: int): (r: TakeReturn)
    ensures r.Returned? <==> returnCode == 0
    ensures r.Returned? ==> r.value == false
    ensures r.Raised? ==> r.error == CalledProcessError(returnCode)
  {
    if returnCode != 0 then Raised(CalledProcessError(returnCode))
    else
      var completedIsTruthy := true;
      Returned(!completedIsTruthy)
  }

  /** Python's truth value of an int. */
  predicate IntTruthy(n: int) {
    n != 0
  }

  /** `call_release`: `not result.returncode`. */
  function ReleaseResult(returnCode: int): (released: bool)
    ensures released <==> returnCode == 0
  {
    !IntTruthy(returnCode)
  }
}
