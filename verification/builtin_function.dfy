/**
 * BuiltinFunction: a built-in callable's arity and keyword validation and
 * the packing of keyword arguments when it is called.
 *
 * A builtin records the least and greatest number of positional arguments
 * it takes, whether that number is fixed, and whether it accepts keywords.
 * With specialised builtins enabled, a call is validated first; a failed
 * validation raises a TypeError whose message says why.
 */
module BuiltinFunction {

  /** A value handed to a builtin; its contents play no part here. */
  datatype Value = Value(id: nat)

  datatype PKeyword = PKeyword(name: string, value: Value)

  datatype Builtin = Builtin(
    name: string,
    minNumOfArgs: int,
    maxNumOfArgs: int,
    takesFixedNumOfArgs: bool,
    takesKeywordArg: bool,
    callTarget: nat)

  /** The six-argument constructor. */
  function NewBuiltin(name: string, minNumOfArgs: int, maxNumOfArgs: int, takesFixedNumOfArgs: bool,
                      takesKeywordArg: bool, callTarget: nat): (b: Builtin)
    ensures b.name == name && b.callTarget == callTarget
    ensures b.minNumOfArgs == minNumOfArgs && b.maxNumOfArgs == maxNumOfArgs
    ensures b.takesFixedNumOfArgs == takesFixedNumOfArgs && b.takesKeywordArg == takesKeywordArg
  {
    Builtin(name, minNumOfArgs, maxNumOfArgs, takesFixedNumOfArgs, takesKeywordArg, callTarget)
  }

  /** The two-argument constructor: every other field keeps Java's default. */
  function NewSimpleBuiltin(name: string, callTarget: nat): (b: Builtin)
    ensures b.name == name && b.callTarget == callTarget
    ensures b.minNumOfArgs == 0 && b.maxNumOfArgs == 0
    ensures !b.takesFixedNumOfArgs && !b.takesKeywordArg
  {
    Builtin(name, 0, 0, false, false, callTarget)
  }

  // ---------------------------------------------------------------------
  // Decimal formatting, as string concatenation and %d print an int

  function Digit(d: nat): char
    requires d < 10
  {
    "0123456789"[d]
  }

  predicate IsDigit(c: char) {
    '0' <= c <= '9'
  }

  predicate AllDigits(s: string) {
    forall i :: 0 <= i < |s| ==> IsDigit(s[i])
  }

  function NatToDecimal(n: nat): (s: string)
    ensures |s| >= 1 && AllDigits(s)
    decreases n
  {
    if n < 10 then [Digit(n)] else NatToDecimal(n / 10) + [Digit(n % 10)]
  }

  function IntToDecimal(i: int): (s: string)
    ensures |s| >= 1
    ensures i < 0 <==> s[0] == '-'
    ensures i >= 0 ==> AllDigits(s)
  {
    if i < 0 then "-" + NatToDecimal(-i) else NatToDecimal(i)
  }

  /** The reference reading of a digit string. */
  function ParseDecimal(s: string): nat
    requires AllDigits(s)
  {
    if |s| == 0 then 0
    else ParseDecimal(s[..|s| - 1]) * 10 + ((s[|s| - 1] as int) - ('0' as int))
  }

  lemma {:induction false} ParseNatToDecimal(n: nat)
    ensures ParseDecimal(NatToDecimal(n)) == n
    decreases n
  {
    if n >= 10 {
      ParseNatToDecimal(n / 10);
      var s := NatToDecimal(n);
      assert s[..|s| - 1] == NatToDecimal(n / 10);
    }
  }

  lemma NatToDecimalInjective(m: nat, n: nat)
    ensures NatToDecimal(m) == NatToDecimal(n) ==> m == n
  {
    ParseNatToDecimal(m);
    ParseNatToDecimal(n);
  }

  lemma IntToDecimalInjective(i: int, j: int)
    ensures IntToDecimal(i) == IntToDecimal(j) ==> i == j
  {
    if IntToDecimal(i) == IntToDecimal(j) {
      if i < 0 {
        assert IntToDecimal(i)[1..] == NatToDecimal(-i);
        assert IntToDecimal(j)[1..] == NatToDecimal(-j);
        NatToDecimalInjective(-i, -j);
      } else {
        NatToDecimalInjective(i, j);
      }
    }
  }

  // ---------------------------------------------------------------------
  // Validation

  datatype Check = Accepted | TypeError(message: string)

  predicate KeywordsRejected(b: Builtin, numOfKeywords: nat) {
    !b.takesKeywordArg && numOfKeywords > 0
  }

  predicate ArityRejected(b: Builtin, numOfArgs: nat) {
    b.takesFixedNumOfArgs && numOfArgs != b.maxNumOfArgs
  }

  function KeywordMessage(name: string): string {
    name + "() takes no keyword arguments"
  }

  /** The count phrase comes from the least number of arguments. */
  function ArgsBlurb(minNumOfArgs: int): string {
    if minNumOfArgs == 0 then "no arguments"
    else if minNumOfArgs == 1 then "exactly one argument"
    else IntToDecimal(minNumOfArgs) + " arguments"
  }

  function CountPhrase(numOfArgs: nat): string {
    " (" + NatToDecimal(numOfArgs) + " given)"
  }

  function ArityMessage(name: string, minNumOfArgs: int, numOfArgs: nat): string {
    name + "() takes " + ArgsBlurb(minNumOfArgs) + CountPhrase(numOfArgs)
  }

  /** The keyword check runs first; the arity check only for a fixed number
      of arguments, against the greatest number. */
  function CheckForUnexpectedCall(b: Builtin, numOfArgs: nat, numOfKeywords: nat): (r: Check)
    ensures r.TypeError? <==> KeywordsRejected(b, numOfKeywords) || ArityRejected(b, numOfArgs)
    ensures KeywordsRejected(b, numOfKeywords) ==> r == TypeError(KeywordMessage(b.name))
    ensures !KeywordsRejected(b, numOfKeywords) && ArityRejected(b, numOfArgs) ==>
      r == TypeError(ArityMessage(b.name, b.minNumOfArgs, numOfArgs))
  {
    if KeywordsRejected(b, numOfKeywords) then TypeError(KeywordMessage(b.name))
    else if ArityRejected(b, numOfArgs) then TypeError(ArityMessage(b.name, b.minNumOfArgs, numOfArgs))
    else Accepted
  }

  /** A builtin made with the two-argument constructor refuses exactly the
      calls with keywords: it is never fixed, so no arity error arises. */
  lemma SimpleBuiltinRejectsOnlyKeywords(name: string, callTarget: nat, numOfArgs: nat, numOfKeywords: nat)
    ensures var r := CheckForUnexpectedCall(NewSimpleBuiltin(name, callTarget), numOfArgs, numOfKeywords);
      (r.TypeError? <==> numOfKeywords > 0) && (r.TypeError? ==> r.message == KeywordMessage(name))
  {
  }

  /** A fixed builtin whose least and greatest counts differ refuses every
      count but the greatest, and the message names the least count: it is
      not the message the greatest count would give. For one to two
      arguments, a call with none is told "exactly one argument". */
  lemma BlurbFollowsMinimum(name: string, minNumOfArgs: int, maxNumOfArgs: int, callTarget: nat, numOfArgs: nat)
    requires minNumOfArgs != maxNumOfArgs && numOfArgs != maxNumOfArgs
    ensures CheckForUnexpectedCall(NewBuiltin(name, minNumOfArgs, maxNumOfArgs, true, false, callTarget), numOfArgs, 0) ==
      TypeError(ArityMessage(name, minNumOfArgs, numOfArgs))
    ensures ArityMessage(name, minNumOfArgs, numOfArgs) != ArityMessage(name, maxNumOfArgs, numOfArgs)
  {
    if ArityMessage(name, minNumOfArgs, numOfArgs) == ArityMessage(name, maxNumOfArgs, numOfArgs) {
      ArityMessageNamesMinimum(name, minNumOfArgs, maxNumOfArgs, numOfArgs);
    }
  }

  lemma PrefixCancel(p: string, x: string, y: string)
    requires p + x == p + y
    ensures x == y
  {
    assert x == (p + x)[|p|..];
    assert y == (p + y)[|p|..];
  }

  lemma SuffixCancel(x: string, y: string, q: string)
    requires x + q == y + q
    ensures x == y
  {
    assert x == (x + q)[..|x|];
    assert y == (y + q)[..|y|];
  }

  /** The arity message tells how many arguments were given: different
      counts give different messages. */
  lemma ArityMessageNamesCount(name: string, minNumOfArgs: int, m: nat, n: nat)
    requires ArityMessage(name, minNumOfArgs, m) == ArityMessage(name, minNumOfArgs, n)
    ensures m == n
  {
    PrefixCancel(name + "() takes " + ArgsBlurb(minNumOfArgs), CountPhrase(m), CountPhrase(n));
    SuffixCancel(" (" + NatToDecimal(m), " (" + NatToDecimal(n), " given)");
    PrefixCancel(" (", NatToDecimal(m), NatToDecimal(n));
    NatToDecimalInjective(m, n);
  }

  /** The arity message also tells the least count: different least counts
      give different messages. */
  lemma ArityMessageNamesMinimum(name: string, min1: int, min2: int, n: nat)
    requires ArityMessage(name, min1, n) == ArityMessage(name, min2, n)
    ensures min1 == min2
  {
    SuffixCancel(name + "() takes " + ArgsBlurb(min1), name + "() takes " + ArgsBlurb(min2), CountPhrase(n));
    PrefixCancel(name + "() takes ", ArgsBlurb(min1), ArgsBlurb(min2));
    BlurbInjective(min1, min2);
  }

  lemma BlurbInjective(min1: int, min2: int)
    requires ArgsBlurb(min1) == ArgsBlurb(min2)
    ensures min1 == min2
  {
    BlurbHead(min1);
    BlurbHead(min2);
    if min1 != 0 && min1 != 1 && min2 != 0 && min2 != 1 {
      SuffixCancel(IntToDecimal(min1), IntToDecimal(min2), " arguments");
      IntToDecimalInjective(min1, min2);
    }
  }

  /** The first character of the phrase: 'n', 'e', or a sign or digit. */
  lemma BlurbHead(m: int)
    ensures |ArgsBlurb(m)| > 0
    ensures m == 0 ==> ArgsBlurb(m)[0] == 'n'
    ensures m == 1 ==> ArgsBlurb(m)[0] == 'e'
    ensures m != 0 && m != 1 ==> ArgsBlurb(m)[0] == '-' || IsDigit(ArgsBlurb(m)[0])
  {
    if m != 0 && m != 1 {
      assert ArgsBlurb(m)[0] == IntToDecimal(m)[0];
    }
  }

  /** A keyword refusal can never be mistaken for an arity refusal. */
  lemma MessagesTellReasonsApart(name: string, minNumOfArgs: int, numOfArgs: nat)
    ensures KeywordMessage(name) != ArityMessage(name, minNumOfArgs, numOfArgs)
  {
    var k := KeywordMessage(name);
    var a := ArityMessage(name, minNumOfArgs, numOfArgs);
    var at := |name| + 9;
    assert k[at] == 'n' && k[at + 3] == 'k';
    if minNumOfArgs == 0 {
      assert a[at + 3] == 'a';
    } else if minNumOfArgs == 1 {
      assert a[at] == 'e';
    } else {
      assert a[at] == IntToDecimal(minNumOfArgs)[0];
      assert a[at] == '-' || IsDigit(a[at]);
    }
  }

  // ---------------------------------------------------------------------
  // Calls

  /** What a call target receives: the positional arguments, and a keyword
      array only when the call had keywords. */
  datatype KeywordArray = NoKeywordArray | KeywordArray(keywords: seq<PKeyword>)

  datatype PArguments = PArguments(arguments: seq<Value>, keywords: KeywordArray)

  datatype CallOutcome = Raised(message: string) | Invoked(callTarget: nat, arguments: PArguments)

  /** The call without keywords: no validation, straight to the call target. */
  function CallPositional(b: Builtin, args: seq<Value>): (r: CallOutcome)
    ensures r.Invoked? && r.callTarget == b.callTarget
    ensures r.arguments.arguments == args && r.arguments.keywords.NoKeywordArray?
  {
    Invoked(b.callTarget, PArguments(args, NoKeywordArray))
  }

  /** The keywords, copied element by element into a fresh array. */
  method PackKeywords(keywords: seq<PKeyword>) returns (packed: seq<PKeyword>)
    ensures |packed| == |keywords|
    ensures forall i :: 0 <= i < |keywords| ==> packed[i] == keywords[i]
  {
    var a := new PKeyword[|keywords|];
    var i := 0;
    while i < |keywords|
      invariant 0 <= i <= |keywords|
      invariant forall j :: 0 <= j < i ==> a[j] == keywords[j]
    {
      a[i] := keywords[i];
      i := i + 1;
    }
    packed := a[..];
  }

  /** The call with keywords. Validation runs only with specialised builtins;
      keywords, if any, reach the call target in a new array of the same
      length and order. */
  method Call(b: Builtin, args: seq<Value>, keywords: seq<PKeyword>, useSpecializedBuiltins: bool)
    returns (r: CallOutcome)
    ensures r.Raised? <==>
      useSpecializedBuiltins && CheckForUnexpectedCall(b, |args|, |keywords|).TypeError?
    ensures r.Raised? ==> r.message == CheckForUnexpectedCall(b, |args|, |keywords|).message
    ensures r.Invoked? ==> r.callTarget == b.callTarget && r.arguments.arguments == args
    ensures r.Invoked? && |keywords| == 0 ==> r == CallPositional(b, args)
    ensures r.Invoked? && |keywords| > 0 ==> r.arguments.keywords == KeywordArray(keywords)
  {
    var check := CheckForUnexpectedCall(b, |args|, |keywords|);
    if useSpecializedBuiltins && check.TypeError? {
      return Raised(check.message);
    }
    if |keywords| == 0 {
      return Invoked(b.callTarget, PArguments(args, NoKeywordArray));
    }
    var packed := PackKeywords(keywords);
    return Invoked(b.callTarget, PArguments(args, KeywordArray(packed)));
  }
}
