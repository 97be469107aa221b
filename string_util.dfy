/**
 * StringUtil: stripping a leading delimiter from a token.
 * Strings are sequences of characters and "starts with" is the ordinal
 * prefix test `p <= s`.
 */
module StringUtil {

  /** `r` is what is left of `s` once some prefix has been removed. */
  predicate IsSuffix(r: string, s: string)
  {
    |r| <= |s| && r == s[|s| - |r|..]
  }

  /** Chop(actual, startsWith): `actual` without a leading `startsWith`, or `actual` itself. */
  function Chop(actual: string, startsWith: string): (r: string)
    ensures startsWith <= actual ==> startsWith + r == actual
    ensures !(startsWith <= actual) ==> r == actual
    ensures IsSuffix(r, actual)
  {
    if startsWith <= actual then actual[|startsWith|..] else actual
  }

  /**
   * Chop(actual, startsWith[]): the first delimiter, in list order, whose
   * chop changes `actual` decides the result; `actual` when none does.
   */
  function ChopAny(actual: string, delimiters: seq<string>): (r: string)
    ensures IsSuffix(r, actual)
    decreases |delimiters|
  {
    if delimiters == [] then actual
    else if Chop(actual, delimiters[0]) != actual then Chop(actual, delimiters[0])
    else ChopAny(actual, delimiters[1..])
  }

  /** The first changing delimiter wins, whatever the ones after it would do. */
  lemma {:induction false} ChopAnyPicksFirst(actual: string, delimiters: seq<string>, i: nat)
    requires i < |delimiters| && Chop(actual, delimiters[i]) != actual
    requires forall j :: 0 <= j < i ==> Chop(actual, delimiters[j]) == actual
    ensures ChopAny(actual, delimiters) == Chop(actual, delimiters[i])
    decreases i
  {
    if i > 0 {
      ChopAnyPicksFirst(actual, delimiters[1..], i - 1);
    }
  }

  /**
   * The loop's exit point: `j` is the first delimiter whose chop changes
   * `actual`, and the list chop is that chop; `j` is |delimiters| when no
   * delimiter changes it, and the list chop is then `actual`.
   */
  lemma {:induction false} FirstChange(actual: string, delimiters: seq<string>) returns (j: nat)
    ensures j <= |delimiters|
    ensures forall i :: 0 <= i < j ==> Chop(actual, delimiters[i]) == actual
    ensures j < |delimiters| ==> Chop(actual, delimiters[j]) != actual && ChopAny(actual, delimiters) == Chop(actual, delimiters[j])
    ensures j == |delimiters| ==> ChopAny(actual, delimiters) == actual
  {
    if delimiters == [] {
      j := 0;
    } else if Chop(actual, delimiters[0]) != actual {
      j := 0;
    } else {
      var k := FirstChange(actual, delimiters[1..]);
      j := k + 1;
      assert forall i :: 1 <= i <= k ==> delimiters[i] == delimiters[1..][i - 1];
    }
  }

  /** The list chop is the identity exactly when no single delimiter changes the token. */
  lemma ChopAnyIdentity(actual: string, delimiters: seq<string>)
    ensures ChopAny(actual, delimiters) == actual
        <==> forall j :: 0 <= j < |delimiters| ==> Chop(actual, delimiters[j]) == actual
  {
    var j := FirstChange(actual, delimiters);
  }

  /** When the list chop changes the token, the listed delimiter `j` was stripped from its front. */
  lemma ChopAnyStripsListed(actual: string, delimiters: seq<string>) returns (j: nat)
    requires ChopAny(actual, delimiters) != actual
    ensures j < |delimiters| && delimiters[j] <= actual && delimiters[j] + ChopAny(actual, delimiters) == actual
  {
    j := FirstChange(actual, delimiters);
  }

  /** With ["-", "--"] the token "--x" loses one dash: order of the list, not length, decides. */
  lemma ShortDelimiterListedFirstWins()
    ensures ChopAny("--x", ["-", "--"]) == "-x"
  {
    assert Chop("--x", "-") == "-x";
  }

  /**
   * The foreach loop of Chop(actual, startsWith[]): chop with each
   * delimiter in turn and return the first result that differs.
   */
  method ChopFirstMatch(actual: string, delimiters: seq<string>) returns (r: string)
    ensures r == ChopAny(actual, delimiters)
  {
    for i := 0 to |delimiters|
      invariant ChopAny(actual, delimiters[i..]) == ChopAny(actual, delimiters)
    {
      var result := Chop(actual, delimiters[i]);
      if result != actual {
        return result;
      }
      assert delimiters[i..][1..] == delimiters[i + 1..];
    }
    return actual;
  }
}
