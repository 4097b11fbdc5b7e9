/** The pieces of Python's string handling that the graph files pass through:
    `str.split()` with no argument, `str(n)` for an int and `int(s)` for a str. */
module Text {
  import opened Wrappers

  /** `c.isspace()`: the characters `str.split()` separates words at. */
  predicate IsSpace(c: char) {
    c == ' ' || ('\t' <= c <= '\r') || ('\U{1c}' <= c <= '\U{1f}') || c == '\U{85}' || c == '\U{a0}'
    || c == '\U{1680}' || ('\U{2000}' <= c <= '\U{200a}') || c == '\U{2028}' || c == '\U{2029}'
    || c == '\U{202f}' || c == '\U{205f}' || c == '\U{3000}'
  }

  predicate NoSpace(w: string) {
    forall i :: 0 <= i < |w| ==> !IsSpace(w[i])
  }

  /** The longest prefix of s that holds no whitespace. */
  function WordPrefix(s: string): (w: string)
    ensures w <= s && NoSpace(w)
    ensures |w| < |s| ==> IsSpace(s[|w|])
  {
    if s == [] || IsSpace(s[0]) then [] else [s[0]] + WordPrefix(s[1..])
  }

  /** `s.split()`: the maximal runs of non-whitespace characters, in order. */
  function Split(s: string): (ws: seq<string>)
    ensures forall i :: 0 <= i < |ws| ==> ws[i] != [] && NoSpace(ws[i])
    decreases |s|
  {
    if s == [] then []
    else if IsSpace(s[0]) then Split(s[1..])
    else
      var w := WordPrefix(s);
      [w] + Split(s[|w|..])
  }

  lemma {:induction false} WordPrefixOfWord(w: string, c: char, t: string)
    requires NoSpace(w) && IsSpace(c)
    ensures WordPrefix(w + [c] + t) == w
  {
    if w != [] {
      assert (w + [c] + t)[1..] == w[1..] + [c] + t;
      WordPrefixOfWord(w[1..], c, t);
    }
  }

  /** A word followed by whitespace is split off as the first word. */
  lemma SplitWord(w: string, c: char, t: string)
    requires w != [] && NoSpace(w) && IsSpace(c)
    ensures Split(w + [c] + t) == [w] + Split(t)
  {
    var s := w + [c] + t;
    WordPrefixOfWord(w, c, t);
    assert s[|w|..] == [c] + t;
    assert ([c] + t)[1..] == t;
  }

  /** `' '.join([a, b, c]) + '\n'` splits back into a, b and c. */
  lemma SplitThree(a: string, b: string, c: string)
    requires a != [] && NoSpace(a) && b != [] && NoSpace(b) && c != [] && NoSpace(c)
    ensures Split(a + " " + b + " " + c + "\n") == [a, b, c]
  {
    var t := b + " " + c + "\n";
    SplitTwo(b, c);
    SplitWord(a, ' ', t);
    Regroup(a, " ", b, " ", c, "\n");
    assert " " == [' '];
  }

  /** A proof step for SplitThree, not a behaviour of the program: regrouping a concatenation
      of six pieces after the second keeps that proof stable. */
  lemma Regroup(a: string, x: string, b: string, y: string, c: string, z: string)
    ensures a + x + b + y + c + z == a + x + (b + y + c + z)
  {
  }

  /** `' '.join([a, b]) + '\n'` splits back into a and b. */
  lemma SplitTwo(a: string, b: string)
    requires a != [] && NoSpace(a) && b != [] && NoSpace(b)
    ensures Split(a + " " + b + "\n") == [a, b]
  {
    var t := b + "\n";
    assert Split(t) == [b] by {
      SplitWord(b, '\n', []);
      assert b + ['\n'] + [] == t;
    }
    SplitWord(a, ' ', t);
    assert a + " " + b + "\n" == a + [' '] + t;
  }

  /** A whitespace character ends the word prefix of what precedes it. */
  lemma {:induction false} WordPrefixBeforeSpace(a: string, c: char, b: string)
    requires IsSpace(c)
    ensures WordPrefix(a + [c] + b) == WordPrefix(a)
  {
    if a == [] {
      assert a + [c] + b == [c] + b;
    } else if !IsSpace(a[0]) {
      assert (a + [c] + b)[1..] == a[1..] + [c] + b;
      WordPrefixBeforeSpace(a[1..], c, b);
    }
  }

  /** Splitting at a whitespace character: the words of a line are the words on either side
      of any whitespace character in it, in order. */
  lemma {:induction false} SplitAtSpace(a: string, c: char, b: string)
    requires IsSpace(c)
    ensures Split(a + [c] + b) == Split(a) + Split(b)
    decreases |a|
  {
    var s := a + [c] + b;
    if a == [] {
      assert s == [c] + b;
      assert s[1..] == b;
    } else if IsSpace(a[0]) {
      assert s[1..] == a[1..] + [c] + b;
      SplitAtSpace(a[1..], c, b);
    } else {
      var w := WordPrefix(a);
      WordPrefixBeforeSpace(a, c, b);
      assert s[|w|..] == a[|w|..] + [c] + b;
      SplitAtSpace(a[|w|..], c, b);
    }
  }

  lemma {:induction false} WordPrefixWhole(w: string)
    requires NoSpace(w)
    ensures WordPrefix(w) == w
  {
    if w != [] {
      WordPrefixWhole(w[1..]);
    }
  }

  /** A non-empty run of non-whitespace characters is a single word. */
  lemma SplitWordAlone(w: string)
    requires w != [] && NoSpace(w)
    ensures Split(w) == [w]
  {
    WordPrefixWhole(w);
    assert w[|w|..] == [];
  }

  predicate IsDigit(c: char) {
    '0' <= c <= '9'
  }

  function DigitValue(c: char): nat {
    if IsDigit(c) then c as int - '0' as int else 0
  }

  function DigitChar(d: nat): (c: char)
    requires d < 10
    ensures IsDigit(c) && DigitValue(c) == d
  {
    ('0' as int + d) as char
  }

  /** The decimal digits of `str(n)` for n >= 0: no sign, no leading zero. */
  function NatStr(n: nat): (s: string)
    decreases n
  {
    if n < 10 then [DigitChar(n)] else NatStr(n / 10) + [DigitChar(n % 10)]
  }

  /** `str(n)`. */
  function IntStr(n: int): (s: string)
  {
    if n < 0 then "-" + NatStr(-n) else NatStr(n)
  }

  /** The body of an integer literal that `int(s)` accepts: ASCII digits, where one
      underscore may stand between two digits. */
  predicate DigitBody(s: string) {
    && s != []
    && IsDigit(s[0])
    && forall i :: 0 <= i < |s| ==> IsDigit(s[i]) || (s[i] == '_' && i + 1 < |s| && IsDigit(s[i + 1]))
  }

  /** The value of a digit body, underscores skipped. */
  function BodyValue(s: string): nat
  {
    if s == [] then 0
    else if s[|s| - 1] == '_' then BodyValue(s[..|s| - 1])
    else BodyValue(s[..|s| - 1]) * 10 + DigitValue(s[|s| - 1])
  }

  /** `int(s)` for a word s: an optional sign, then a digit body; None where Python raises ValueError. */
  function ParseInt(s: string): Option<int>
  {
    if s != [] && (s[0] == '+' || s[0] == '-') then
      var v: int := BodyValue(s[1..]);
      if DigitBody(s[1..]) then Some(if s[0] == '-' then -v else v) else None
    else if DigitBody(s) then Some(BodyValue(s))
    else None
  }

  lemma {:induction false} NatStrDigits(n: nat)
    ensures DigitBody(NatStr(n)) && BodyValue(NatStr(n)) == n
    ensures forall i :: 0 <= i < |NatStr(n)| ==> IsDigit(NatStr(n)[i])
    decreases n
  {
    if n >= 10 {
      NatStrDigits(n / 10);
      var s := NatStr(n / 10);
      var t := s + [DigitChar(n % 10)];
      assert t[..|t| - 1] == s;
    }
  }

  lemma DigitsHaveNoSpace(s: string)
    requires forall i :: 0 <= i < |s| ==> IsDigit(s[i])
    ensures NoSpace(s)
  {
  }

  /** `str(n)` is a single word, starting with a sign or a digit, that `int` reads back as n. */
  lemma IntStrRoundTrip(n: int)
    ensures IntStr(n) != [] && NoSpace(IntStr(n))
    ensures IntStr(n)[0] == '-' || IsDigit(IntStr(n)[0])
    ensures ParseInt(IntStr(n)) == Some(n)
  {
    var s := IntStr(n);
    if n < 0 {
      var d := NatStr(-n);
      NatStrDigits(-n);
      DigitsHaveNoSpace(d);
      assert s == ['-'] + d;
      assert s[1..] == d;
      assert NoSpace(s) by {
        forall i | 0 <= i < |s| ensures !IsSpace(s[i]) {
          if i > 0 { assert s[i] == d[i - 1]; }
        }
      }
    } else {
      NatStrDigits(n);
      DigitsHaveNoSpace(s);
    }
  }
}
