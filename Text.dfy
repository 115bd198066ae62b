/** The Python string and integer primitives that the room-identifier code in
    shots.py relies on, restricted to the ASCII range (plus the six Norwegian
    letters that the range parser accepts as letters). */
module Text {

  datatype Option<+T> = None | Some(value: T)

  /** The Python exceptions that the modelled code can raise. */
  datatype PyError =
    | ValueError          // unpacking a split into the wrong number of names
    | IndexError          // indexing an empty string
    | UnboundLocalError   // reading a local that was never assigned
    | KeyError            // a missing dictionary or configparser key
    | AttributeError      // calling a string method on None
    | TypeError           // int() of a list

  /** A call either returns or raises. */
  datatype Result<T> = Ok(value: T) | Err(error: PyError)

  function Max(a: int, b: int): int { if a < b then b else a }

  /** str.isdigit on one character. */
  predicate IsDigit(c: char) { '0' <= c <= '9' }

  /** str.isalpha on one character: the ASCII letters and Æ Ø Å æ ø å. */
  predicate IsAlpha(c: char)
  {
    || 'A' <= c <= 'Z' || 'a' <= c <= 'z'
    || c == '\U{C6}' || c == '\U{D8}' || c == '\U{C5}'
    || c == '\U{E6}' || c == '\U{F8}' || c == '\U{E5}'
  }

  /** str.isspace on one character, in the ASCII range: what str.split()
      without an argument splits on. */
  predicate IsSpace(c: char) { c == ' ' || '\t' <= c <= '\r' || '\U{1C}' <= c <= '\U{1F}' }

  predicate AllDigits(s: string) { forall i :: 0 <= i < |s| ==> IsDigit(s[i]) }

  /** str.isdigit: non-empty and made of digits only. */
  predicate IsDigits(s: string) { |s| > 0 && AllDigits(s) }

  predicate NoSpace(s: string) { forall i :: 0 <= i < |s| ==> !IsSpace(s[i]) }

  predicate AllSpace(s: string) { forall i :: 0 <= i < |s| ==> IsSpace(s[i]) }

  function DigitValue(c: char): (d: nat)
    requires IsDigit(c)
    ensures d < 10
  {
    c as int - '0' as int
  }

  function DigitChar(d: nat): (c: char)
    requires d < 10
    ensures IsDigit(c) && DigitValue(c) == d
  {
    ('0' as int + d) as char
  }

  /** int(s) for a string of digits; leading zeros do not count. */
  function DigitsValue(s: string): nat
    requires AllDigits(s)
  {
    if s == [] then 0 else 10 * DigitsValue(s[..|s| - 1]) + DigitValue(s[|s| - 1])
  }

  /** str(n) for a natural number. */
  function NatToString(n: nat): string
  {
    if n < 10 then [DigitChar(n)] else NatToString(n / 10) + [DigitChar(n % 10)]
  }

  /** str(i) for any integer: a minus sign in front of the digits when negative. */
  function IntToString(i: int): string
  {
    if i < 0 then "-" + NatToString(-i) else NatToString(i)
  }

  function Zeros(k: int): (r: string)
    ensures |r| == Max(k, 0)
    ensures forall i :: 0 <= i < |r| ==> r[i] == '0'
  {
    seq(Max(k, 0), _ => '0')
  }

  /** f"{n:0{width}d}": str(n) with zeros in front up to `width` characters;
      a longer str(n) is not cut. */
  function ZeroPad(n: nat, width: int): string
  {
    Zeros(width - |NatToString(n)|) + NatToString(n)
  }

  /** s.split(sep) for a one-character separator: every piece in order,
      empty pieces kept, so the result is never empty. */
  function Split(s: string, sep: char): (r: seq<string>)
    ensures |r| >= 1
    ensures forall i :: 0 <= i < |r| ==> sep !in r[i]
    decreases |s|
  {
    if s == [] then [""]
    else
      var rest := Split(s[1..], sep);
      if s[0] == sep then [""] + rest else [[s[0]] + rest[0]] + rest[1..]
  }

  /** sep.join(parts). */
  function Join(parts: seq<string>, sep: char): string
  {
    if parts == [] then ""
    else if |parts| == 1 then parts[0]
    else parts[0] + [sep] + Join(parts[1..], sep)
  }

  /** len(s.split()): the number of maximal runs of non-whitespace characters,
      counted by where they end. */
  function WordCount(s: string): nat
  {
    if s == [] then 0
    else if !IsSpace(s[0]) && (|s| == 1 || IsSpace(s[1])) then 1 + WordCount(s[1..])
    else WordCount(s[1..])
  }

  // ---------------------------------------------------------------------
  // Lemmas

  /** str(n) is a digit string that starts with 0 only for n == 0. */
  lemma {:induction false} NatToStringDigits(n: nat)
    ensures IsDigits(NatToString(n))
    ensures (NatToString(n)[0] == '0') == (n == 0)
  {
    if n >= 10 {
      NatToStringDigits(n / 10);
      var prefix := NatToString(n / 10);
      assert NatToString(n) == prefix + [DigitChar(n % 10)];
      assert NatToString(n)[0] == prefix[0];
    }
  }

  /** int(str(n)) == n. */
  lemma {:induction false} DigitsValueOfNatToString(n: nat)
    ensures IsDigits(NatToString(n)) && DigitsValue(NatToString(n)) == n
  {
    NatToStringDigits(n);
    if n >= 10 {
      var prefix := NatToString(n / 10);
      var r := prefix + [DigitChar(n % 10)];
      assert r[..|r| - 1] == prefix;
      DigitsValueOfNatToString(n / 10);
    }
  }

  /** f"{n:0{width}d}" is max(width, len(str(n))) digits whose value is n. */
  lemma ZeroPadCorrect(n: nat, width: int)
    ensures |ZeroPad(n, width)| == Max(width, |NatToString(n)|)
    ensures AllDigits(ZeroPad(n, width)) && DigitsValue(ZeroPad(n, width)) == n
  {
    var digits := NatToString(n);
    DigitsValueOfNatToString(n);
    LeadingZerosDoNotCount(Zeros(width - |digits|), digits);
  }

  /** Zeros in front of a digit string do not change its value: int("007") == 7. */
  lemma {:induction false} LeadingZerosDoNotCount(z: string, s: string)
    requires forall i :: 0 <= i < |z| ==> z[i] == '0'
    requires AllDigits(s)
    ensures AllDigits(z + s) && DigitsValue(z + s) == DigitsValue(s)
    decreases |s|
  {
    if s == [] {
      assert z + s == z;
      AllZerosValue(z);
    } else {
      var t := z + s;
      assert t[..|t| - 1] == z + s[..|s| - 1];
      LeadingZerosDoNotCount(z, s[..|s| - 1]);
    }
  }

  lemma {:induction false} AllZerosValue(z: string)
    requires forall i :: 0 <= i < |z| ==> z[i] == '0'
    ensures AllDigits(z) && DigitsValue(z) == 0
  {
    if z != [] {
      AllZerosValue(z[..|z| - 1]);
    }
  }

  /** str(int(s)) == s for a digit string without a leading zero. */
  lemma {:induction false} NatToStringOfDigitsValue(s: string)
    requires IsDigits(s) && (|s| == 1 || s[0] != '0')
    ensures NatToString(DigitsValue(s)) == s
  {
    if |s| > 1 {
      var prefix := s[..|s| - 1];
      assert prefix[0] == s[0];
      NatToStringOfDigitsValue(prefix);
      DigitsValuePositive(prefix);
      var n := DigitsValue(s);
      assert n / 10 == DigitsValue(prefix) && n % 10 == DigitValue(s[|s| - 1]);
      assert s == prefix + [s[|s| - 1]];
    }
  }

  lemma {:induction false} DigitsValuePositive(s: string)
    requires IsDigits(s) && s[0] != '0'
    ensures DigitsValue(s) > 0
  {
    if |s| > 1 {
      var prefix := s[..|s| - 1];
      assert prefix[0] == s[0];
      DigitsValuePositive(prefix);
    }
  }

  /** Joining the pieces of a split with the same separator gives the text back. */
  lemma {:induction false} JoinSplit(s: string, sep: char)
    ensures Join(Split(s, sep), sep) == s
    decreases |s|
  {
    if s != [] {
      JoinSplit(s[1..], sep);
      var rest := Split(s[1..], sep);
      if s[0] == sep {
        assert Join([""] + rest, sep) == "" + [sep] + Join(rest, sep);
      } else {
        var r := [[s[0]] + rest[0]] + rest[1..];
        assert r[1..] == rest[1..];
        if |rest| == 1 {
          assert Join(rest, sep) == rest[0];
        } else {
          assert Join(rest, sep) == rest[0] + [sep] + Join(rest[1..], sep);
        }
      }
    }
  }

  /** A text with no separator splits into itself alone. */
  lemma {:induction false} SplitWithoutSeparator(s: string, sep: char)
    requires sep !in s
    ensures Split(s, sep) == [s]
    decreases |s|
  {
    if s != [] {
      assert s == [s[0]] + s[1..];
      SplitWithoutSeparator(s[1..], sep);
    }
  }

  /** A text splits into one piece exactly when it has no separator. */
  lemma {:induction false} SplitSingleIffNoSeparator(s: string, sep: char)
    ensures (|Split(s, sep)| == 1) == (sep !in s)
    decreases |s|
  {
    if sep !in s {
      SplitWithoutSeparator(s, sep);
    } else if s[0] != sep {
      assert sep in s[1..] by {
        var i :| 0 <= i < |s| && s[i] == sep;
        assert s[1..][i - 1] == sep;
      }
      SplitSingleIffNoSeparator(s[1..], sep);
    }
  }

  /** Splitting "a<sep>b" gives the pieces of a followed by the pieces of b. */
  lemma {:induction false} SplitAround(a: string, sep: char, b: string)
    ensures Split(a + [sep] + b, sep) == Split(a, sep) + Split(b, sep)
    decreases |a|
  {
    var s := a + [sep] + b;
    if a == [] {
      assert s[1..] == b;
    } else {
      assert s[0] == a[0];
      assert s[1..] == a[1..] + [sep] + b;
      SplitAround(a[1..], sep, b);
    }
  }

  /** A token that is one word padded with whitespace counts as one word:
      len(" 102".split()) == 1. */
  lemma {:induction false} WordCountPadded(lead: string, word: string, trail: string)
    requires AllSpace(lead) && AllSpace(trail) && NoSpace(word) && word != []
    ensures WordCount(lead + word + trail) == 1
    decreases |lead|
  {
    var s := lead + word + trail;
    if lead != [] {
      assert s[1..] == lead[1..] + word + trail;
      WordCountPadded(lead[1..], word, trail);
    } else {
      WordCountWordThenSpaces(word, trail);
      assert s == word + trail;
    }
  }

  lemma {:induction false} WordCountWordThenSpaces(word: string, trail: string)
    requires AllSpace(trail) && NoSpace(word) && word != []
    ensures WordCount(word + trail) == 1
    decreases |word|
  {
    var s := word + trail;
    assert s[1..] == word[1..] + trail;
    if |word| == 1 {
      assert s[1..] == trail;
      SpacesHaveNoWords(trail);
    } else {
      WordCountWordThenSpaces(word[1..], trail);
    }
  }

  lemma {:induction false} SpacesHaveNoWords(s: string)
    requires AllSpace(s)
    ensures WordCount(s) == 0
  {
    if s != [] {
      SpacesHaveNoWords(s[1..]);
    }
  }

  /** Two non-space characters with whitespace between them make at least two
      words: "foo bar".split() has two. */
  lemma {:induction false} WordCountSeparated(s: string, i: nat, j: nat, k: nat)
    requires i < j < k < |s|
    requires !IsSpace(s[i]) && IsSpace(s[j]) && !IsSpace(s[k])
    ensures WordCount(s) >= 2
    decreases i
  {
    if i > 0 {
      WordCountSeparated(s[1..], i - 1, j - 1, k - 1);
    } else {
      var e := WordEnd(s, 0, j);
      WordCountEndsAfter(s[e + 1..], k - e - 1);
      WordCountAtLeast(s, e);
    }
  }

  /** The last index of the word that starts at i, found before the space at j. */
  function WordEnd(s: string, i: nat, j: nat): (e: nat)
    requires i < j < |s| && !IsSpace(s[i]) && IsSpace(s[j])
    ensures i <= e < j && !IsSpace(s[e]) && IsSpace(s[e + 1])
    decreases j - i
  {
    if IsSpace(s[i + 1]) then i else WordEnd(s, i + 1, j)
  }

  /** A non-space character somewhere in s makes at least one word. */
  lemma {:induction false} WordCountEndsAfter(s: string, k: int)
    requires 0 <= k < |s| && !IsSpace(s[k])
    ensures WordCount(s) >= 1
    decreases |s|
  {
    if k > 0 || (|s| > 1 && !IsSpace(s[1])) {
      WordCountEndsAfter(s[1..], if k > 0 then k - 1 else 0);
    }
  }

  /** A word ending at e adds one to the words of what follows it. */
  lemma {:induction false} WordCountAtLeast(s: string, e: nat)
    requires e + 1 < |s| && !IsSpace(s[e]) && IsSpace(s[e + 1])
    ensures WordCount(s) >= 1 + WordCount(s[e + 1..])
    decreases e
  {
    if e > 0 {
      assert s[1..][e..] == s[e + 1..];
      WordCountAtLeast(s[1..], e - 1);
    } else {
      assert s[1..] == s[e + 1..];
    }
  }
}
