/**
 * The Python built-ins the core relies on, on `string = seq<char>`:
 * `str.isspace`, `str.isdigit`, `str.strip()`, `str.replace(old, new)`,
 * `str.split(sep)`, `sep.join(words)`, `str(int)` and `round(x)` for a value
 * given in hundredths, and the search for the first occurrence of a pattern that
 * `prompt.split(marker)[0]` cuts at.
 */
module Builtins {
  import opened Wrappers
  import opened Seqs

  /** The characters Python's `str.isspace()` accepts; the `\s` class of `re` on `str` uses the same set. */
  const WHITESPACE: set<char> := {
    '\t', '\n', '\U{0B}', '\U{0C}', '\r', '\U{1C}', '\U{1D}', '\U{1E}', '\U{1F}', ' ',
    '\U{85}', '\U{A0}', '\U{1680}',
    '\U{2000}', '\U{2001}', '\U{2002}', '\U{2003}', '\U{2004}', '\U{2005}',
    '\U{2006}', '\U{2007}', '\U{2008}', '\U{2009}', '\U{200A}',
    '\U{2028}', '\U{2029}', '\U{202F}', '\U{205F}', '\U{3000}'
  }

  predicate IsSpace(c: char) { c in WHITESPACE }

  /** `str.isdigit` restricted to the ASCII digits. */
  predicate IsDigit(c: char) { '0' <= c <= '9' }

  // ---------------------------------------------------------------- strip

  function StripLeading(s: string): (r: string)
    ensures |r| <= |s| && r == s[|s| - |r|..]
    ensures r == [] || !IsSpace(r[0])
  {
    if s != [] && IsSpace(s[0]) then StripLeading(s[1..]) else s
  }

  /** Everything `StripLeading` removes is whitespace. */
  lemma {:induction false} StripLeadingRemovesSpaces(s: string)
    ensures forall i :: 0 <= i < |s| - |StripLeading(s)| ==> IsSpace(s[i])
  {
    if s != [] && IsSpace(s[0]) {
      StripLeadingRemovesSpaces(s[1..]);
      assert forall i :: 1 <= i < |s| ==> s[i] == s[1..][i - 1];
    }
  }

  function StripTrailing(s: string): (r: string)
    ensures |r| <= |s| && r == s[..|r|]
    ensures r == [] || !IsSpace(r[|r| - 1])
  {
    if s != [] && IsSpace(s[|s| - 1]) then StripTrailing(s[..|s| - 1]) else s
  }

  /** Everything `StripTrailing` removes is whitespace. */
  lemma {:induction false} StripTrailingRemovesSpaces(s: string)
    ensures forall i :: |StripTrailing(s)| <= i < |s| ==> IsSpace(s[i])
  {
    if s != [] && IsSpace(s[|s| - 1]) {
      StripTrailingRemovesSpaces(s[..|s| - 1]);
    }
  }

  /** `s.strip()`: the slice of `s` left after removing whitespace at both ends. */
  function Strip(s: string): (r: string)
    ensures r == [] || (!IsSpace(r[0]) && !IsSpace(r[|r| - 1]))
  {
    StripTrailing(StripLeading(s))
  }

  lemma StripLeadingPad(front: string, t: string)
    requires front == [] || front == " "
    requires t != [] && !IsSpace(t[0])
    ensures StripLeading(front + t) == t
  {
    if front == " " {
      assert IsSpace(' ');
      assert (front + t)[1..] == t;
    } else {
      assert front + t == t;
    }
  }

  lemma StripTrailingPad(t: string, back: string)
    requires back == [] || back == " "
    requires t != [] && !IsSpace(t[|t| - 1])
    ensures StripTrailing(t + back) == t
  {
    if back == " " {
      var s := t + back;
      assert IsSpace(' ');
      assert s[|s| - 1] == ' ' && s[..|s| - 1] == t;
    } else {
      assert t + back == t;
    }
  }

  /** Stripping a text padded by at most one space on each side gives the text back. */
  lemma StripPadded(front: string, j: string, back: string)
    requires front == [] || front == " "
    requires back == [] || back == " "
    requires j != [] && !IsSpace(j[0]) && !IsSpace(j[|j| - 1])
    ensures Strip(front + j + back) == j
  {
    AppendAssoc(front, j, back);
    assert (j + back)[0] == j[0];
    StripLeadingPad(front, j + back);
    StripTrailingPad(j, back);
  }

  // ---------------------------------------------------------------- slicing

  /** `s[:n]`: the first `n` elements, or all of `s` when it is shorter. */
  function Take<T>(s: seq<T>, n: nat): (r: seq<T>)
    ensures |r| <= n && |r| <= |s| && r == s[..|r|]
    ensures |s| <= n ==> r == s
    ensures |s| >= n ==> |r| == n
  {
    if |s| <= n then s else s[..n]
  }

  // ---------------------------------------------------------------- occurrences and replace

  predicate OccursAt(s: string, pat: string, i: nat)
  {
    i + |pat| <= |s| && s[i..i + |pat|] == pat
  }

  /** A pattern does not occur where one of its characters is missing. */
  lemma MismatchNoOccurrence(s: string, pat: string, j: nat, i: nat)
    requires i < |pat| && j + i < |s| && s[j + i] != pat[i]
    ensures !OccursAt(s, pat, j)
  {
    assert j + |pat| <= |s| ==> s[j..j + |pat|][i] == s[j + i];
  }

  /** `s.replace(pat, rep)`: every non-overlapping occurrence of `pat`, scanning left to right, becomes `rep`. */
  function Replace(s: string, pat: string, rep: string): string
    requires pat != []
    decreases |s|
  {
    if |s| < |pat| then s
    else if s[..|pat|] == pat then rep + Replace(s[|pat|..], pat, rep)
    else [s[0]] + Replace(s[1..], pat, rep)
  }

  /** The first character of a replacement result comes from the start of `s`, or from `rep` when `s` starts with `pat`. */
  lemma ReplaceHead(s: string, pat: string, rep: string)
    requires pat != [] && rep != [] && s != []
    ensures Replace(s, pat, rep) != []
    ensures Replace(s, pat, rep)[0] == if OccursAt(s, pat, 0) then rep[0] else s[0]
  {
  }

  /** A text that lacks one of the characters of `pat` is left unchanged. */
  lemma {:induction false} ReplaceAbsent(s: string, pat: string, rep: string, c: char)
    requires pat != [] && c in pat && c !in s
    ensures Replace(s, pat, rep) == s
    decreases |s|
  {
    if |s| >= |pat| {
      assert s[..|pat|] != pat by {
        assert forall d | d in s[..|pat|] :: d in s;
      }
      assert forall d | d in s[1..] :: d in s;
      ReplaceAbsent(s[1..], pat, rep, c);
      assert [s[0]] + s[1..] == s;
    }
  }

  /** Replacing introduces no character other than those of `s` and `rep`. */
  lemma {:induction false} ReplaceChars(s: string, pat: string, rep: string)
    requires pat != []
    ensures forall c | c in Replace(s, pat, rep) :: c in s || c in rep
    decreases |s|
  {
    if |s| < |pat| {
    } else if s[..|pat|] == pat {
      ReplaceChars(s[|pat|..], pat, rep);
    } else {
      ReplaceChars(s[1..], pat, rep);
    }
  }

  function NotIn(x: set<char>): char -> bool
  {
    c => c !in x
  }

  /** `s` with every character of `x` deleted, order kept. */
  function Without(s: string, x: set<char>): string
  {
    Filter(NotIn(x), s)
  }

  lemma WithoutAppend(a: string, b: string, x: set<char>)
    ensures Without(a + b, x) == Without(a, x) + Without(b, x)
  {
    FilterAppend(NotIn(x), a, b);
  }

  lemma {:induction false} WithoutAll(s: string, x: set<char>)
    requires forall i :: 0 <= i < |s| ==> s[i] in x
    ensures Without(s, x) == []
  {
    if s != [] {
      WithoutAll(s[1..], x);
    }
  }

  /**
   * When `pat` and `rep` are both made of characters of `x`, replacing leaves the
   * characters outside `x` exactly as they were, in the same order.
   */
  lemma {:induction false} ReplaceWithout(s: string, pat: string, rep: string, x: set<char>)
    requires pat != []
    requires forall i :: 0 <= i < |pat| ==> pat[i] in x
    requires forall i :: 0 <= i < |rep| ==> rep[i] in x
    ensures Without(Replace(s, pat, rep), x) == Without(s, x)
    decreases |s|
  {
    if |s| < |pat| {
    } else if s[..|pat|] == pat {
      var rest := s[|pat|..];
      ReplaceWithout(rest, pat, rep, x);
      WithoutAppend(rep, Replace(rest, pat, rep), x);
      WithoutAll(rep, x);
      assert s == pat + rest;
      WithoutAppend(pat, rest, x);
      WithoutAll(pat, x);
    } else {
      ReplaceWithout(s[1..], pat, rep, x);
      WithoutAppend([s[0]], Replace(s[1..], pat, rep), x);
      assert s == [s[0]] + s[1..];
      WithoutAppend([s[0]], s[1..], x);
    }
  }

  // ---------------------------------------------------------------- split and join

  /** `s.split(sep)` for a one-character separator: `""` splits into `[""]`, and adjacent separators give empty words. */
  function Split(s: string, sep: char): (r: seq<string>)
    ensures |r| >= 1
    ensures forall i :: 0 <= i < |r| ==> sep !in r[i]
    ensures forall i, c :: 0 <= i < |r| && c in r[i] ==> c in s
  {
    if s == [] then [[]]
    else
      var rest := Split(s[1..], sep);
      assert forall c | c in s[1..] :: c in s;
      if s[0] == sep then [[]] + rest
      else [[s[0]] + rest[0]] + rest[1..]
  }

  /** `sep.join(ws)`. */
  function Join(ws: seq<string>, sep: string): string
  {
    if ws == [] then []
    else if |ws| == 1 then ws[0]
    else ws[0] + sep + Join(ws[1..], sep)
  }

  /** A join starts with the first character of its first word, when that word is not empty. */
  lemma JoinFirst(ws: seq<string>, sep: string)
    requires ws != [] && ws[0] != []
    ensures Join(ws, sep) != [] && Join(ws, sep)[0] == ws[0][0]
  {
  }

  /** A join ends with the last character of its last word, when that word is not empty. */
  lemma {:induction false} JoinLast(ws: seq<string>, sep: string)
    requires ws != [] && ws[|ws| - 1] != []
    ensures var j := Join(ws, sep);
      j != [] && j[|j| - 1] == ws[|ws| - 1][|ws[|ws| - 1]| - 1]
  {
    if |ws| > 1 {
      JoinLast(ws[1..], sep);
    }
  }

  /** Joining the pieces of a split with the separator gives back the original string. */
  lemma {:induction false} JoinSplit(s: string, sep: char)
    ensures Join(Split(s, sep), [sep]) == s
  {
    if s != [] {
      var rest := Split(s[1..], sep);
      JoinSplit(s[1..], sep);
      if s[0] == sep {
        assert Split(s, sep) == [[]] + rest;
        assert ([[]] + rest)[1..] == rest;
      } else {
        var ws := Split(s, sep);
        assert ws == [[s[0]] + rest[0]] + rest[1..];
        if |rest| == 1 {
          assert rest == [rest[0]];
        } else {
          assert ws[1..] == rest[1..];
        }
      }
    }
  }

  lemma {:induction false} SplitNoSeparator(w: string, sep: char)
    requires sep !in w
    ensures Split(w, sep) == [w]
  {
    if w != [] {
      SplitNoSeparator(w[1..], sep);
      assert [w[0]] + w[1..] == w;
    }
  }

  lemma {:induction false} SplitAtSeparator(a: string, b: string, sep: char)
    requires sep !in a
    ensures Split(a + [sep] + b, sep) == [a] + Split(b, sep)
  {
    if a == [] {
      assert a + [sep] + b == [sep] + b;
      assert ([sep] + b)[1..] == b;
    } else {
      var s := a + [sep] + b;
      assert s[1..] == a[1..] + [sep] + b;
      SplitAtSeparator(a[1..], b, sep);
      assert [a[0]] + a[1..] == a;
    }
  }

  /** Splitting a join of separator-free words gives back the words. */
  lemma {:induction false} SplitJoin(ws: seq<string>, sep: char)
    requires |ws| >= 1
    requires forall i :: 0 <= i < |ws| ==> sep !in ws[i]
    ensures Split(Join(ws, [sep]), sep) == ws
  {
    if |ws| == 1 {
      SplitNoSeparator(ws[0], sep);
    } else {
      SplitJoin(ws[1..], sep);
      SplitAtSeparator(ws[0], Join(ws[1..], [sep]), sep);
      assert [ws[0]] + ws[1..] == ws;
    }
  }

  // ---------------------------------------------------------------- find

  /** The first index at or after `i` where `pat` occurs in `s`. */
  function FindFrom(s: string, pat: string, i: nat): (r: Option<nat>)
    ensures r.Some? ==> i <= r.value && OccursAt(s, pat, r.value)
    ensures r.Some? ==> forall j :: i <= j < r.value ==> !OccursAt(s, pat, j)
    ensures r.None? ==> forall j :: i <= j ==> !OccursAt(s, pat, j)
    decreases |s| - i
  {
    if i + |pat| > |s| then None
    else if s[i..i + |pat|] == pat then Some(i)
    else FindFrom(s, pat, i + 1)
  }

  /** The first occurrence of `pat` in `s`: where `s.split(pat)[0]` ends; `None` when there is none. */
  function Find(s: string, pat: string): Option<nat>
  {
    FindFrom(s, pat, 0)
  }

  /** An occurrence with none before it is the one `find` reports. */
  lemma FindFirst(s: string, pat: string, k: nat)
    requires OccursAt(s, pat, k)
    requires forall j :: 0 <= j < k ==> !OccursAt(s, pat, j)
    ensures Find(s, pat) == Some(k)
  {
  }

  // ---------------------------------------------------------------- str(int)

  function DigitChar(d: nat): (c: char)
    requires d < 10
    ensures IsDigit(c)
  {
    (d + '0' as int) as char
  }

  function DigitValue(c: char): nat
    requires IsDigit(c)
  {
    c as int - '0' as int
  }

  predicate AllDigits(s: string)
  {
    forall i :: 0 <= i < |s| ==> IsDigit(s[i])
  }

  /** The value of a string of decimal digits (most significant first). */
  function DigitsValue(s: string): nat
    requires AllDigits(s)
  {
    if s == [] then 0 else 10 * DigitsValue(s[..|s| - 1]) + DigitValue(s[|s| - 1])
  }

  /** The decimal representation of `n`, without leading zeros. */
  function NatToString(n: nat): (r: string)
    ensures r != [] && AllDigits(r)
    ensures r[0] == '0' ==> n == 0 && |r| == 1
  {
    if n < 10 then [DigitChar(n)] else NatToString(n / 10) + [DigitChar(n % 10)]
  }

  /** Reading back the decimal representation gives the number. */
  lemma {:induction false} NatToStringValue(n: nat)
    ensures DigitsValue(NatToString(n)) == n
  {
    var r := NatToString(n);
    if n >= 10 {
      NatToStringValue(n / 10);
      assert r[..|r| - 1] == NatToString(n / 10);
    }
  }

  /** `str(i)` for an `int`: a minus sign before the digits of `|i|` when `i` is negative. */
  function IntToString(i: int): string
  {
    if i >= 0 then NatToString(i) else ['-'] + NatToString(-i)
  }

  /** Reading back `str(i)` gives `i`: the digits of `i`, or a minus sign and the digits of `-i`. */
  lemma IntToStringValue(i: int)
    ensures var r := IntToString(i);
      (i >= 0 ==> AllDigits(r) && r != [] && DigitsValue(r) == i) &&
      (i < 0 ==> |r| >= 2 && r[0] == '-' && AllDigits(r[1..]) && DigitsValue(r[1..]) == -i)
  {
    if i >= 0 {
      NatToStringValue(i);
    } else {
      NatToStringValue(-i);
      var digits := NatToString(-i);
      assert (['-'] + digits)[1..] == digits;
    }
  }

  // ---------------------------------------------------------------- round

  /**
   * Python's `round(x)` for `x = cents / 100`: the nearest integer, ties going to the
   * even neighbour.
   */
  function RoundHalfEven(cents: int): int
  {
    var q, rest := cents / 100, cents % 100;
    if rest < 50 then q
    else if rest > 50 then q + 1
    else if q % 2 == 0 then q
    else q + 1
  }

  /** The rounded value is within half a dollar, and a tie goes to the even neighbour. */
  lemma RoundHalfEvenNearest(cents: int)
    ensures var d := RoundHalfEven(cents);
      -50 <= cents - 100 * d <= 50 &&
      ((cents - 100 * d == 50 || cents - 100 * d == -50) ==> d % 2 == 0)
  {
  }

  /** The two properties above single out one integer: they specify `round` completely. */
  lemma RoundHalfEvenUnique(cents: int, d: int)
    requires -50 <= cents - 100 * d <= 50
    requires (cents - 100 * d == 50 || cents - 100 * d == -50) ==> d % 2 == 0
    ensures d == RoundHalfEven(cents)
  {
  }
}
