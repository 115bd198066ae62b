/** room_list_from_arbitray_str (shots.py:578-699): free text typed by a user,
    e.g. "101-110, A1-A20", split on commas into room identifiers and the
    tokens that could not be used.

    The model follows the code. Where the code differs from its docstring and
    comments (the simple alphabetic ranges, the end of complex ranges, their
    padding width), the lemmas at the end of this module state what the code
    does. */
module RoomParser {
  import opened Text

  /** The parser's argument: a Python str, or a value of any other type. */
  datatype Arg = Str(s: string) | NotStr

  /** formatted_list and skipped_items, the two lists the parser returns. */
  datatype Rooms = Rooms(formatted: seq<string>, skipped: seq<string>)

  /** What one comma-separated token contributes: rooms appended to
      formatted_list, the token appended to skipped_items, or an exception. */
  datatype TokenOutcome = Added(rooms: seq<string>) | Skipped | Raised(error: PyError)

  // ---------------------------------------------------------------------
  // The expansions (list comprehensions in the source)

  /** [str(k) for k in range(lo, hi + 1)] : empty when hi < lo. */
  function NumericRange(lo: nat, hi: nat): seq<string>
  {
    seq(if lo <= hi then hi - lo + 1 else 0, k requires 0 <= k => NatToString(lo + k))
  }

  /** [pretext + f"{k:0{width}d}" for k in range(lo, hi)] : hi itself is left out. */
  function ComplexItems(pretext: string, lo: nat, hi: nat, width: int): seq<string>
  {
    seq(if lo < hi then hi - lo else 0, k requires 0 <= k => pretext + ZeroPad(lo + k, width))
  }

  /** len(s[1:]) */
  function TailLength(s: string): nat
  {
    if s == [] then 0 else |s| - 1
  }

  /** A side of a complex range cut into the text before its trailing run of
      digits and that run (possibly empty). */
  function SplitTrailingDigits(s: string): (string, string)
  {
    if |s| == 0 || !IsDigit(s[|s| - 1]) then (s, [])
    else
      var (pretext, numbers) := SplitTrailingDigits(s[..|s| - 1]);
      (pretext, numbers + [s[|s| - 1]])
  }

  /** The two parts make up the side, the second is all digits, and the
      first does not end in a digit. */
  lemma {:induction false} SplitTrailingDigitsCorrect(s: string)
    ensures var (pretext, numbers) := SplitTrailingDigits(s);
      && pretext + numbers == s && AllDigits(numbers)
      && (pretext != [] ==> !IsDigit(pretext[|pretext| - 1]))
  {
    if |s| > 0 && IsDigit(s[|s| - 1]) {
      var init := s[..|s| - 1];
      SplitTrailingDigitsCorrect(init);
      var (pretext, numbers) := SplitTrailingDigits(init);
      assert pretext + (numbers + [s[|s| - 1]]) == (pretext + numbers) + [s[|s| - 1]];
      assert s == init + [s[|s| - 1]];
    }
  }

  // ---------------------------------------------------------------------
  // One token

  /** The complex branch (shots.py:661-692) for the two sides of a hyphen.
      When both sides are the same text, the source's scan loop assigns the
      start-side variables twice and never the end-side ones, so the test
      that follows reads an unassigned local. */
  function ComplexRange(beg: string, end: string): TokenOutcome
  {
    if beg == end then Raised(UnboundLocalError)
    else
      var b, e := SplitTrailingDigits(beg), SplitTrailingDigits(end);
      if b.0 == e.0 && IsDigits(b.1) && IsDigits(e.1) && DigitsValue(b.1) < DigitsValue(e.1) then
        Added(ComplexItems(b.0, DigitsValue(b.1), DigitsValue(e.1), Max(TailLength(beg), TailLength(end))))
      else Skipped
  }

  /** The test of shots.py:616-617: list(c0 + c1) == sorted(c0 + c1) for the
      first two characters of the start side, i.e. c0 <= c1. */
  predicate SimpleAlphaGateOpen(beg: string)
    requires |beg| >= 2
  {
    beg[0] <= beg[1]
  }

  /** A token with at least one hyphen (shots.py:598-692). */
  function HyphenToken(token: string): TokenOutcome
  {
    var sides := Split(token, '-');
    if |sides| != 2 then Raised(ValueError)
    else
      var beg, end := sides[0], sides[1];
      if IsDigits(beg) && IsDigits(end) then
        Added(NumericRange(DigitsValue(beg), DigitsValue(end)))
      else if beg == [] then Raised(IndexError)
      else if !IsAlpha(beg[0]) then ComplexRange(beg, end)
      else if end == [] then Raised(IndexError)
      else if IsAlpha(end[0]) && IsDigits(beg[1..]) then
        // The gate compares a letter with a digit, and every digit sorts
        // before every letter: the generator of shots.py:618-658 is never
        // reached and the token is skipped.
        if SimpleAlphaGateOpen(beg) then (assert false; Skipped) else Skipped
      else ComplexRange(beg, end)
  }

  /** The classification of one token other than the whole-input test. */
  function TokenRule(token: string): TokenOutcome
  {
    if '-' in token then HyphenToken(token)
    else if WordCount(token) == 1 then Added([token])
    else Skipped
  }

  /** One token of `input` (shots.py:594-696). The first test looks at the
      whole input, not at the token. */
  function ExpandToken(input: string, token: string): TokenOutcome
  {
    if IsDigits(input) then Added([token]) else TokenRule(token)
  }

  // ---------------------------------------------------------------------
  // The whole input

  /** Adds what one token contributes to the two lists built so far. */
  function Append(acc: Rooms, token: string, o: TokenOutcome): Result<Rooms>
  {
    match o
    case Added(rooms) => Ok(Rooms(acc.formatted + rooms, acc.skipped))
    case Skipped => Ok(Rooms(acc.formatted, acc.skipped + [token]))
    case Raised(e) => Err(e)
  }

  /** The tokens handled one after the other; the first exception ends the call. */
  function ExpandTokens(input: string, tokens: seq<string>): Result<Rooms>
  {
    if tokens == [] then Ok(Rooms([], []))
    else
      match ExpandTokens(input, tokens[..|tokens| - 1])
      case Err(e) => Err(e)
      case Ok(acc) => Append(acc, tokens[|tokens| - 1], ExpandToken(input, tokens[|tokens| - 1]))
  }

  /** room_list_from_arbitray_str(input_str) */
  function ExpandRooms(arg: Arg): Result<Rooms>
  {
    match arg
    case NotStr => Ok(Rooms([], []))
    case Str(s) => ExpandTokens(s, Split(s, ','))
  }

  /** The results of two inputs side by side: what the parser gives for the
      two texts joined by a comma. */
  function Combine(a: Result<Rooms>, b: Result<Rooms>): Result<Rooms>
  {
    match a
    case Err(e) => Err(e)
    case Ok(x) =>
      match b
      case Err(e) => Err(e)
      case Ok(y) => Ok(Rooms(x.formatted + y.formatted, x.skipped + y.skipped))
  }

  // ---------------------------------------------------------------------
  // The imperative parser

  /** The reverse character scan of shots.py:667-675. Prepending each
      character stands for the source's appending followed by reversing. */
  method ScanTrailingDigits(s: string) returns (pretext: string, numbers: string)
    ensures (pretext, numbers) == SplitTrailingDigits(s)
  {
    ghost var split := SplitTrailingDigits(s);
    SplitTrailingDigitsCorrect(s);
    var roomIsInt := true;
    pretext, numbers := "", "";
    var j := |s|;
    while j > 0
      invariant 0 <= j <= |s|
      invariant roomIsInt ==> pretext == [] && numbers == s[j..] && AllDigits(s[j..])
      invariant !roomIsInt ==> j < |split.0| && pretext == s[j..|split.0|] && numbers == split.1
    {
      var c := s[j - 1];
      if !IsDigit(c) {
        if roomIsInt {
          SplitAtDigitRun(s, j);
        }
        roomIsInt := false;
      }
      if roomIsInt {
        numbers := [c] + numbers;
      } else {
        pretext := [c] + pretext;
      }
      j := j - 1;
    }
    if roomIsInt {
      SplitAtDigitRun(s, 0);
    } else {
      assert split.0 == s[..|split.0|];
    }
  }

  /** The complex branch as the source runs it: both sides scanned in a loop
      that tells them apart by comparing each with the start side. */
  method ExpandComplexRange(beg: string, end: string) returns (o: TokenOutcome)
    ensures o == ComplexRange(beg, end)
  {
    var begPretext, begNumbers, endPretext, endNumbers := "", "", "", "";
    var endAssigned := false;
    var sides := [beg, end];
    for i := 0 to 2
      invariant i >= 1 ==> (begPretext, begNumbers) == SplitTrailingDigits(beg)
      invariant endAssigned == (i == 2 && end != beg)
      invariant endAssigned ==> (endPretext, endNumbers) == SplitTrailingDigits(end)
    {
      var pretext, numbers := ScanTrailingDigits(sides[i]);
      if sides[i] == beg {
        begPretext, begNumbers := pretext, numbers;
      } else {
        endPretext, endNumbers := pretext, numbers;
        endAssigned := true;
      }
    }
    if !endAssigned {
      return Raised(UnboundLocalError);
    }
    if begPretext == endPretext && IsDigits(begNumbers) && IsDigits(endNumbers)
       && DigitsValue(begNumbers) < DigitsValue(endNumbers)
    {
      var width := Max(TailLength(beg), TailLength(end));
      o := Added(ComplexItems(begPretext, DigitsValue(begNumbers), DigitsValue(endNumbers), width));
    } else {
      o := Skipped;
    }
  }

  /** The branches of the loop body of shots.py:594-696 for one token. */
  method ClassifyToken(input: string, token: string) returns (o: TokenOutcome)
    ensures o == ExpandToken(input, token)
  {
    if IsDigits(input) {
      return Added([token]);
    }
    if '-' !in token {
      o := if WordCount(token) == 1 then Added([token]) else Skipped;
      return;
    }
    var sides := Split(token, '-');
    if |sides| != 2 {
      return Raised(ValueError);
    }
    var beg, end := sides[0], sides[1];
    if IsDigits(beg) && IsDigits(end) {
      return Added(NumericRange(DigitsValue(beg), DigitsValue(end)));
    }
    if beg == [] {
      return Raised(IndexError);
    }
    if IsAlpha(beg[0]) {
      if end == [] {
        return Raised(IndexError);
      }
      if IsAlpha(end[0]) && IsDigits(beg[1..]) {
        if SimpleAlphaGateOpen(beg) {
          assert false;
        }
        return Skipped;
      }
    }
    o := ExpandComplexRange(beg, end);
  }

  /** room_list_from_arbitray_str: the loop over the comma-separated tokens,
      appending to formatted_list and skipped_items. */
  method RoomListFromArbitraryStr(arg: Arg) returns (r: Result<Rooms>)
    ensures r == ExpandRooms(arg)
  {
    if arg.NotStr? {
      return Ok(Rooms([], []));
    }
    var input := arg.s;
    var tokens := Split(input, ',');
    var formatted, skipped := [], [];
    for i := 0 to |tokens|
      invariant ExpandTokens(input, tokens[..i]) == Ok(Rooms(formatted, skipped))
    {
      var token := tokens[i];
      var o := ClassifyToken(input, token);
      ExpandTokensPrefixStep(input, tokens, i, Rooms(formatted, skipped));
      match o {
        case Added(rooms) =>
          formatted := formatted + rooms;
        case Skipped =>
          skipped := skipped + [token];
        case Raised(e) =>
          ErrorEndsTheCall(input, tokens, i + 1);
          assert tokens[..|tokens|] == tokens;
          return Err(e);
      }
    }
    assert tokens[..|tokens|] == tokens;
    r := Ok(Rooms(formatted, skipped));
  }

  // ---------------------------------------------------------------------
  // Lemmas: the scan and the fold

  /** Where a run of digits reaches the end of s and is preceded by a
      non-digit (or nothing), that run is the trailing digit run. */
  lemma {:induction false} SplitAtDigitRun(s: string, j: nat)
    requires j <= |s| && AllDigits(s[j..])
    requires j == 0 || !IsDigit(s[j - 1])
    ensures SplitTrailingDigits(s) == (s[..j], s[j..])
    decreases |s|
  {
    if j < |s| {
      var prefix := s[..|s| - 1];
      assert prefix[j..] == s[j..|s| - 1];
      assert prefix[..j] == s[..j];
      assert IsDigit(s[j..][|s| - 1 - j]);
      SplitAtDigitRun(prefix, j);
      assert s[j..] == prefix[j..] + [s[|s| - 1]];
    } else {
      assert s[..j] == s && s[j..] == [];
    }
  }

  /** Once a prefix of the tokens has raised, the whole call raises the same. */
  /** One more token on a prefix that has not failed. */
  lemma ExpandTokensPrefixStep(input: string, tokens: seq<string>, i: nat, acc: Rooms)
    requires i < |tokens| && ExpandTokens(input, tokens[..i]) == Ok(acc)
    ensures ExpandTokens(input, tokens[..i + 1]) == Append(acc, tokens[i], ExpandToken(input, tokens[i]))
  {
    assert tokens[..i + 1][..i] == tokens[..i];
  }

  lemma {:induction false} ErrorEndsTheCall(input: string, tokens: seq<string>, n: nat)
    requires n <= |tokens| && ExpandTokens(input, tokens[..n]).Err?
    ensures ExpandTokens(input, tokens) == ExpandTokens(input, tokens[..n])
    decreases |tokens| - n
  {
    if n < |tokens| {
      var prefix := tokens[..|tokens| - 1];
      assert prefix[..n] == tokens[..n];
      ErrorEndsTheCall(input, prefix, n);
    } else {
      assert tokens[..n] == tokens;
    }
  }

  /** Handling a list of tokens is handling its two halves one after the other. */
  lemma {:induction false} ExpandTokensConcat(input: string, a: seq<string>, b: seq<string>)
    ensures ExpandTokens(input, a + b) == Combine(ExpandTokens(input, a), ExpandTokens(input, b))
    decreases |b|
  {
    if |b| == 0 {
      assert a + b == a;
      CombineEmpty(ExpandTokens(input, a));
    } else {
      var init, last := b[..|b| - 1], b[|b| - 1];
      InitOfAppend(a, b);
      ExpandTokensConcat(input, a, init);
      var x, y := ExpandTokens(input, a), ExpandTokens(input, init);
      if x.Ok? && y.Ok? {
        CombineAppend(x.value, y.value, last, ExpandToken(input, last));
      }
    }
  }

  /** Nothing on the right leaves a result as it is. */
  lemma CombineEmpty(x: Result<Rooms>)
    ensures Combine(x, Ok(Rooms([], []))) == x
  {
    if x.Ok? {
      assert x.value.formatted + [] == x.value.formatted;
      assert x.value.skipped + [] == x.value.skipped;
    }
  }

  /** One more token on the right of a pair of lists. */
  lemma CombineAppend(x: Rooms, y: Rooms, token: string, o: TokenOutcome)
    ensures Combine(Ok(x), Append(y, token, o))
         == Append(Rooms(x.formatted + y.formatted, x.skipped + y.skipped), token, o)
  {
    match o {
      case Added(rooms) =>
        assert x.formatted + (y.formatted + rooms) == x.formatted + y.formatted + rooms;
      case Skipped =>
        assert x.skipped + (y.skipped + [token]) == x.skipped + y.skipped + [token];
      case Raised(_) =>
    }
  }

  lemma InitOfAppend<T>(a: seq<T>, b: seq<T>)
    requires b != []
    ensures (a + b)[..|a + b| - 1] == a + b[..|b| - 1] && (a + b)[|a + b| - 1] == b[|b| - 1]
  {
  }

  /** For an input that is not all digits, the whole-input test never fires. */
  lemma {:induction false} ExpandTokensByRule(input: string, tokens: seq<string>)
    requires !IsDigits(input)
    ensures ExpandTokens(input, tokens) == ExpandTokens("", tokens)
    decreases |tokens|
  {
    if tokens != [] {
      ExpandTokensByRule(input, tokens[..|tokens| - 1]);
    }
  }

  /** A token of digits alone is kept as it is by the per-token rules too. */
  lemma DigitTokenKept(token: string)
    requires IsDigits(token)
    ensures TokenRule(token) == Added([token])
  {
    NonDigitAbsent(token, '-');
    assert token == [] + token + [];
    WordCountPadded([], token, []);
  }

  /** The test of the whole input against isdigit (shots.py:596) changes
      nothing: every input is handled token by token with the same rules. */
  lemma InputTestRedundant(s: string)
    ensures ExpandRooms(Str(s)) == ExpandTokens("", Split(s, ','))
  {
    if IsDigits(s) {
      NonDigitAbsent(s, ',');
      SplitWithoutSeparator(s, ',');
      DigitTokenKept(s);
      var one := [s];
      assert one[..|one| - 1] == [] && one[|one| - 1] == s;
      assert ExpandTokens(s, one[..|one| - 1]) == Ok(Rooms([], []));
      assert ExpandTokens(s, one) == Append(Rooms([], []), s, Added([s]));
      assert !IsDigits("");
      assert ExpandTokens("", one[..|one| - 1]) == Ok(Rooms([], []));
      assert ExpandTokens("", one) == Append(Rooms([], []), s, Added([s]));
    } else {
      ExpandTokensByRule(s, Split(s, ','));
    }
  }

  /** Tokens are handled in input order: the result for "a,b" is the result
      for a followed by the result for b. */
  lemma ExpandRoomsConcat(a: string, b: string)
    ensures ExpandRooms(Str(a + "," + b)) == Combine(ExpandRooms(Str(a)), ExpandRooms(Str(b)))
  {
    InputTestRedundant(a + "," + b);
    InputTestRedundant(a);
    InputTestRedundant(b);
    SplitAround(a, ',', b);
    ExpandTokensConcat("", Split(a, ','), Split(b, ','));
  }

  /** A comma-free input is one token. */
  lemma OneToken(s: string)
    requires ',' !in s
    ensures ExpandRooms(Str(s)) == Append(Rooms([], []), s, TokenRule(s))
  {
    InputTestRedundant(s);
    SplitWithoutSeparator(s, ',');
    assert [s][..0] == [];
  }

  // ---------------------------------------------------------------------
  // Lemmas: one token

  /** Splitting "beg-end" on '-' when neither side has a hyphen. */
  lemma SidesOf(beg: string, end: string)
    requires '-' !in beg && '-' !in end
    ensures Split(beg + "-" + end, '-') == [beg, end]
  {
    SplitAround(beg, '-', end);
    SplitWithoutSeparator(beg, '-');
    SplitWithoutSeparator(end, '-');
  }

  lemma NonDigitAbsent(s: string, c: char)
    requires AllDigits(s) && !IsDigit(c)
    ensures c !in s
  {
  }

  /** A hyphen-free token is kept verbatim, surrounding whitespace included,
      when it is one word, and skipped otherwise (empty or several words). */
  lemma HyphenFreeToken(token: string)
    requires '-' !in token
    ensures WordCount(token) == 1 ==> TokenRule(token) == Added([token])
    ensures WordCount(token) != 1 ==> TokenRule(token) == Skipped
  {
  }

  /** " 102" is one word and is kept with its space. */
  lemma PaddedWordKept()
    ensures TokenRule(" 102") == Added([" 102"])
  {
    assert " 102" == " " + "102" + "";
    WordCountPadded(" ", "102", "");
    assert '-' !in " 102";
  }

  /** A comma-free token that the rules skip is the only skipped entry. */
  lemma SkippedAlone(s: string)
    requires ',' !in s && TokenRule(s) == Skipped
    ensures ExpandRooms(Str(s)) == Ok(Rooms([], [s]))
  {
    OneToken(s);
    assert [] + [s] == [s];
  }

  /** "foo bar" is two words and is skipped. */
  lemma TwoWordsSkipped()
    ensures ExpandRooms(Str("foo bar")) == Ok(Rooms([], ["foo bar"]))
  {
    var token := "foo bar";
    assert ',' !in token && '-' !in token;
    assert token[3] == ' ';
    WordCountSeparated(token, 0, 3, 4);
    SkippedAlone(token);
  }

  /** An all-digit "N-M" token gives str(k) for k = N..M ascending, leading
      zeros dropped; when M < N it gives nothing and is not skipped. */
  lemma NumericRangeToken(beg: string, end: string)
    requires IsDigits(beg) && IsDigits(end)
    ensures var lo, hi := DigitsValue(beg), DigitsValue(end);
            && TokenRule(beg + "-" + end) == Added(NumericRange(lo, hi))
            && |NumericRange(lo, hi)| == (if lo <= hi then hi - lo + 1 else 0)
            && forall k :: 0 <= k < |NumericRange(lo, hi)| ==>
                 IsDigits(NumericRange(lo, hi)[k]) && DigitsValue(NumericRange(lo, hi)[k]) == lo + k
  {
    NonDigitAbsent(beg, '-');
    NonDigitAbsent(end, '-');
    SidesOf(beg, end);
    assert '-' in beg + "-" + end by {
      assert (beg + "-" + end)[|beg|] == '-';
    }
    var lo, hi := DigitsValue(beg), DigitsValue(end);
    forall k | 0 <= k < |NumericRange(lo, hi)|
      ensures IsDigits(NumericRange(lo, hi)[k]) && DigitsValue(NumericRange(lo, hi)[k]) == lo + k
    {
      DigitsValueOfNatToString(lo + k);
    }
  }

  /** A token with two or more hyphens raises ValueError at the unpacking. */
  lemma TwoHyphensRaise(a: string, b: string)
    requires '-' in b
    ensures TokenRule(a + "-" + b) == Raised(ValueError)
  {
    SplitAround(a, '-', b);
    SplitSingleIffNoSeparator(b, '-');
    assert '-' in a + "-" + b by {
      assert (a + "-" + b)[|a|] == '-';
    }
  }

  /** "-5", or any token whose start side is empty, raises IndexError. */
  lemma EmptyStartRaises(end: string)
    requires '-' !in end
    ensures TokenRule("-" + end) == Raised(IndexError)
  {
    SidesOf("", end);
    assert "" + "-" + end == "-" + end;
    assert ("-" + end)[0] == '-';
  }

  /** A start side that begins with a letter and an empty end side ("A-")
      raises IndexError. */
  lemma LetterThenEmptyEndRaises(beg: string)
    requires '-' !in beg && beg != [] && IsAlpha(beg[0])
    ensures TokenRule(beg + "-") == Raised(IndexError)
  {
    SidesOf(beg, "");
    assert beg + "-" + "" == beg + "-";
    assert (beg + "-")[|beg|] == '-';
  }

  /** The simple-alpha gate never opens: a letter never sorts before or equal
      to a digit. */
  lemma SimpleAlphaGateNeverOpens(beg: string)
    requires |beg| >= 1 && IsAlpha(beg[0]) && IsDigits(beg[1..])
    ensures !SimpleAlphaGateOpen(beg)
  {
    assert beg[1..][0] == beg[1];
  }

  /** Every simple alphabetic range, a letter and digits on the start side and
      a letter first on the end side, is skipped: "A01-A03", "A20-B20" and
      "B200-A34" alike. */
  lemma SimpleAlphaRangeSkipped(letter: char, digits: string, end: string)
    requires IsAlpha(letter) && IsDigits(digits)
    requires end != [] && IsAlpha(end[0]) && '-' !in end
    ensures TokenRule([letter] + digits + "-" + end) == Skipped
  {
    var beg := [letter] + digits;
    NonDigitAbsent(digits, '-');
    assert '-' !in beg;
    SidesOf(beg, end);
    assert beg[1..] == digits;
    assert (beg + "-" + end)[|beg|] == '-';
    assert ([letter] + digits + "-" + end) == beg + "-" + end;
  }

  /** What the complex branch appends: for n from the start number up to but
      not including the end number, the shared pretext followed by n padded
      with zeros to the tail length of the longer side (not the length of the
      digit run). */
  lemma ComplexRangeContents(beg: string, end: string)
    requires beg != end
    requires var (bp, bn) := SplitTrailingDigits(beg);
             var (ep, en) := SplitTrailingDigits(end);
             bp == ep && IsDigits(bn) && IsDigits(en) && DigitsValue(bn) < DigitsValue(en)
    ensures var (bp, bn) := SplitTrailingDigits(beg);
            var (_, en) := SplitTrailingDigits(end);
            var lo, hi, width := DigitsValue(bn), DigitsValue(en), Max(TailLength(beg), TailLength(end));
            ComplexRange(beg, end).Added? &&
            var rooms := ComplexRange(beg, end).rooms;
            && |rooms| == hi - lo
            && forall k :: 0 <= k < |rooms| ==>
                 && rooms[k][..|bp|] == bp
                 && |rooms[k]| == |bp| + Max(width, |NatToString(lo + k)|)
                 && AllDigits(rooms[k][|bp|..])
                 && lo <= DigitsValue(rooms[k][|bp|..]) == lo + k < hi
  {
    var (bp, bn) := SplitTrailingDigits(beg);
    var (ep, en) := SplitTrailingDigits(end);
    var lo, hi, width := DigitsValue(bn), DigitsValue(en), Max(TailLength(beg), TailLength(end));
    var rooms := ComplexRange(beg, end).rooms;
    forall k | 0 <= k < |rooms|
      ensures && rooms[k][..|bp|] == bp
              && |rooms[k]| == |bp| + Max(width, |NatToString(lo + k)|)
              && AllDigits(rooms[k][|bp|..])
              && lo <= DigitsValue(rooms[k][|bp|..]) == lo + k < hi
    {
      assert rooms[k] == bp + ZeroPad(lo + k, width);
      assert rooms[k][|bp|..] == ZeroPad(lo + k, width);
      ZeroPadCorrect(lo + k, width);
    }
  }

  /** The end value of a complex range never appears among its rooms. */
  lemma ComplexRangeExcludesEnd(beg: string, end: string)
    requires beg != end
    requires var (bp, bn) := SplitTrailingDigits(beg);
             var (ep, en) := SplitTrailingDigits(end);
             bp == ep && IsDigits(bn) && IsDigits(en) && DigitsValue(bn) < DigitsValue(en)
    ensures var (bp, _) := SplitTrailingDigits(beg);
            var (_, en) := SplitTrailingDigits(end);
            forall k :: 0 <= k < |ComplexRange(beg, end).rooms| ==>
              ComplexRange(beg, end).rooms[k] != bp + ZeroPad(DigitsValue(en), Max(TailLength(beg), TailLength(end)))
  {
    ComplexRangeContents(beg, end);
    var (bp, bn) := SplitTrailingDigits(beg);
    var (_, en) := SplitTrailingDigits(end);
    var width := Max(TailLength(beg), TailLength(end));
    var rooms := ComplexRange(beg, end).rooms;
    forall k | 0 <= k < |rooms|
      ensures rooms[k] != bp + ZeroPad(DigitsValue(en), width)
    {
      var other := bp + ZeroPad(DigitsValue(en), width);
      assert other[|bp|..] == ZeroPad(DigitsValue(en), width);
      ZeroPadCorrect(DigitsValue(en), width);
      assert rooms[k][|bp|..] != other[|bp|..];
    }
  }

  /** Both sides the same text raise: the end-side variables are never assigned. */
  lemma SameSidesRaise(side: string)
    requires side != [] && '-' !in side && !IsDigits(side)
    requires !IsAlpha(side[0]) || !IsDigits(side[1..])
    ensures TokenRule(side + "-" + side) == Raised(UnboundLocalError)
  {
    SidesOf(side, side);
    assert (side + "-" + side)[|side|] == '-';
  }

  // ---------------------------------------------------------------------
  // Lemmas: ranges with a shared pretext, such as "#5-#9"

  /** The tokens that reach the complex branch: one hyphen, not both sides
      digits, and not the simple alphabetic shape. */
  lemma ReachesComplex(beg: string, end: string)
    requires '-' !in beg && '-' !in end && beg != []
    requires !(IsDigits(beg) && IsDigits(end))
    requires !IsAlpha(beg[0]) || (end != [] && !(IsAlpha(end[0]) && IsDigits(beg[1..])))
    ensures TokenRule(beg + "-" + end) == ComplexRange(beg, end)
  {
    SidesOf(beg, end);
    assert (beg + "-" + end)[|beg|] == '-';
  }

  /** Sides written as a pretext ending in a non-digit followed by digits
      reach the complex branch. */
  lemma PrefixedReachesComplex(p: string, x: string, y: string, beg: string, end: string)
    requires p != [] && '-' !in p && !IsDigit(p[|p| - 1])
    requires !IsAlpha(p[0]) || |p| >= 2
    requires IsDigits(x) && IsDigits(y)
    requires beg == p + x && end == p + y
    ensures TokenRule(beg + "-" + end) == ComplexRange(beg, end)
  {
    NonDigitAbsent(x, '-');
    NonDigitAbsent(y, '-');
    assert !IsDigits(beg) by { assert !IsDigit(beg[|p| - 1]); }
    if IsAlpha(p[0]) {
      assert !IsDigit(beg[1..][|p| - 2]);
    }
    ReachesComplex(beg, end);
  }

  /** The scan cuts such sides at the end of the pretext. */
  lemma PrefixedSides(beg: string, end: string, p: string, x: string, y: string)
    requires p != [] && IsDigits(x) && IsDigits(y) && x != y && !IsDigit(p[|p| - 1])
    requires beg == p + x && end == p + y
    ensures SplitTrailingDigits(beg) == (p, x) && SplitTrailingDigits(end) == (p, y)
    ensures beg != end
    ensures Max(TailLength(beg), TailLength(end)) == |p| - 1 + Max(|x|, |y|)
  {
    assert beg[..|p|] == p && beg[|p|..] == x;
    SplitAtDigitRun(beg, |p|);
    assert end[..|p|] == p && end[|p|..] == y;
    SplitAtDigitRun(end, |p|);
  }

  lemma ComplexSides(beg: string, end: string, p: string, x: string, y: string, width: int)
    requires SplitTrailingDigits(beg) == (p, x) && SplitTrailingDigits(end) == (p, y)
    requires IsDigits(x) && IsDigits(y) && beg != end
    requires width == Max(TailLength(beg), TailLength(end))
    ensures DigitsValue(x) < DigitsValue(y) ==>
              ComplexRange(beg, end).Added? && ComplexRange(beg, end).rooms == ComplexItems(p, DigitsValue(x), DigitsValue(y), width)
    ensures DigitsValue(x) >= DigitsValue(y) ==> ComplexRange(beg, end) == Skipped
  {
  }

  /** The items of a complex range, one per number from lo up to hi. */
  lemma ComplexItemsFacts(pretext: string, lo: nat, hi: nat, width: int)
    requires lo < hi
    ensures |ComplexItems(pretext, lo, hi, width)| == hi - lo
    ensures forall k :: 0 <= k < hi - lo ==> ComplexItems(pretext, lo, hi, width)[k] == pretext + ZeroPad(lo + k, width)
  {
  }

  /** The padding width for sides p + x and p + y: the tail length of the
      longer side, so the pretext counts in it. */
  function PrefixedWidth(p: string, x: string, y: string): int
  {
    |p| - 1 + Max(|x|, |y|)
  }

  /** "p<x>-p<y>" with x < y gives p followed by each number from x up to but
      not including y, padded to |p| - 1 + max(|x|, |y|) digits: the pretext
      counts towards the width. */
  lemma PrefixedRangeToken(p: string, x: string, y: string)
    requires p != [] && '-' !in p && !IsDigit(p[|p| - 1])
    requires !IsAlpha(p[0]) || |p| >= 2
    requires IsDigits(x) && IsDigits(y) && DigitsValue(x) < DigitsValue(y)
    ensures TokenRule(p + x + "-" + p + y).Added?
    ensures TokenRule(p + x + "-" + p + y).rooms == ComplexItems(p, DigitsValue(x), DigitsValue(y), PrefixedWidth(p, x, y))
  {
    var beg, end := p + x, p + y;
    assert p + x + "-" + p + y == beg + "-" + end;
    PrefixedReachesComplex(p, x, y, beg, end);
    PrefixedSides(beg, end, p, x, y);
    ComplexSides(beg, end, p, x, y, PrefixedWidth(p, x, y));
  }

  /** The same shape with the numbers in descending order (or equal in value
      but written differently) is skipped. */
  lemma PrefixedDescendingSkipped(p: string, x: string, y: string)
    requires p != [] && '-' !in p && !IsDigit(p[|p| - 1])
    requires !IsAlpha(p[0]) || |p| >= 2
    requires IsDigits(x) && IsDigits(y) && x != y && DigitsValue(x) >= DigitsValue(y)
    ensures TokenRule(p + x + "-" + p + y) == Skipped
  {
    var beg, end := p + x, p + y;
    assert p + x + "-" + p + y == beg + "-" + end;
    PrefixedReachesComplex(p, x, y, beg, end);
    PrefixedSides(beg, end, p, x, y);
    ComplexSides(beg, end, p, x, y, PrefixedWidth(p, x, y));
  }

  /** "#" followed by 5 to 8, at least one digit each. */
  lemma HashItems()
    ensures ComplexItems("#", 5, 9, 1) == ["#5", "#6", "#7", "#8"]
  {
    var items := ComplexItems("#", 5, 9, 1);
    forall k | 0 <= k < 4
      ensures items[k] == ['#', DigitChar(5 + k)]
    {
      assert ZeroPad(5 + k, 1) == [DigitChar(5 + k)];
    }
  }

  /** "#5-#9" gives #5 to #8: the end number is left out. */
  lemma HashRange()
    ensures TokenRule("#5-#9") == Added(["#5", "#6", "#7", "#8"])
  {
    assert DigitsValue("5") == 5 by { assert "5"[..0] == []; }
    assert DigitsValue("9") == 9 by { assert "9"[..0] == []; }
    PrefixedRangeToken("#", "5", "9");
    assert "#" + "5" + "-" + "#" + "9" == "#5-#9";
    HashItems();
  }

  /** "HS10B" followed by 100 and 101, padded to seven digits. */
  lemma PaddedItems()
    ensures ComplexItems("HS10B", 100, 102, 7) == ["HS10B0000100", "HS10B0000101"]
  {
    var items := ComplexItems("HS10B", 100, 102, 7);
    assert NatToString(1) == "1";
    assert NatToString(10) == "10";
    assert NatToString(100) == "100" && NatToString(101) == "101";
    assert Zeros(4) == "0000";
    assert ZeroPad(100, 7) == "0000100" && ZeroPad(101, 7) == "0000101";
    assert "HS10B" + "0000100" == "HS10B0000100" && "HS10B" + "0000101" == "HS10B0000101";
    assert items[0] == "HS10B0000100" && items[1] == "HS10B0000101";
  }

  lemma HundredsValue()
    ensures DigitsValue("100") == 100 && DigitsValue("102") == 102
  {
    assert "100"[..2] == "10" && "102"[..2] == "10";
    assert DigitsValue("10") == 10 by {
      assert "10"[..1] == "1";
      assert DigitsValue("1") == 1 by { assert "1"[..0] == []; }
    }
  }

  /** "HS10B100-HS10B102" gives HS10B0000100 and HS10B0000101: the numbers
      are padded to seven digits, the tail length of the sides, and the end
      number is left out. */
  lemma PaddedToTailLength()
    ensures TokenRule("HS10B100-HS10B102") == Added(["HS10B0000100", "HS10B0000101"])
  {
    HundredsValue();
    PrefixedRangeToken("HS10B", "100", "102");
    assert "HS10B" + "100" + "-" + "HS10B" + "102" == "HS10B100-HS10B102";
    PaddedItems();
  }
}
