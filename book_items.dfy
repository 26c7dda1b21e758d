/**
 * One catalog record turned into (possibly) one training example: the text
 * cleaner, the assembly of the record's sections, the two eligibility gates,
 * the token budget and the rendered prompt with its price answer.
 */
module BookItems {
  import opened Wrappers
  import opened Seqs
  import opened Builtins

  const MIN_TOKENS := 150
  const MAX_TOKENS := 160
  const MIN_CHARS := 300
  /** A cheap character bound applied before the exact token count. */
  const CEILING_CHARS := MAX_TOKENS * 7
  const PREFIX := "Price is $"
  /** The question of every prompt. */
  const QUESTION := "How much does this book cost to the nearest dollar?"

  // ================================================================ clean_text

  /** The punctuation of the first cleaning step's character class: `: [ ] " { } 【 】`. */
  const MARKS: set<char> := {':', '[', ']', '"', '{', '}', '\U{3010}', '\U{3011}'}
  /** The characters of the first cleaning step: the punctuation above and every whitespace character. */
  const NOISE: set<char> := MARKS + WHITESPACE

  /** Membership in `NOISE`, written as membership in either of its two parts. */
  predicate IsNoise(c: char) { c in MARKS || IsSpace(c) }

  /** A text with no noise character at all. */
  predicate Quiet(s: string)
  {
    forall i :: 0 <= i < |s| ==> !IsNoise(s[i])
  }

  /** No `a` is immediately followed by `b`. */
  predicate NoPair(s: string, a: char, b: char)
  {
    forall i, j :: 0 <= i < |s| && 0 <= j < |s| && j == i + 1 ==> !(s[i] == a && s[j] == b)
  }

  /** The only noise character left is the plain space: no `: [ ] " { } 【 】`, tab, newline, … */
  predicate OnlyPlainSpaces(s: string)
  {
    forall c | c in s :: IsNoise(c) ==> c == ' '
  }

  /** Spaces are single and never at either end. */
  predicate WellSpaced(s: string)
  {
    NoPair(s, ' ', ' ') && (s != [] ==> s[0] != ' ' && s[|s| - 1] != ' ')
  }

  lemma NoPairSlice(s: string, i: nat, j: nat, a: char, b: char)
    requires i <= j <= |s| && NoPair(s, a, b)
    ensures NoPair(s[i..j], a, b)
  {
    forall k, l | 0 <= k && l == k + 1 && l < j - i
      ensures !(s[i..j][k] == a && s[i..j][l] == b)
    {
      assert s[i..j][k] == s[i + k] && s[i..j][l] == s[i + l];
    }
  }

  lemma NoPairConcat(x: string, y: string, a: char, b: char)
    requires NoPair(x, a, b) && NoPair(y, a, b)
    requires x == [] || y == [] || !(x[|x| - 1] == a && y[0] == b)
    ensures NoPair(x + y, a, b)
  {
    var s := x + y;
    forall k, l | 0 <= k && l == k + 1 && l < |s|
      ensures !(s[k] == a && s[l] == b)
    {
      if l < |x| {
        assert s[k] == x[k] && s[l] == x[l];
      } else if l == |x| {
        assert s[k] == x[|x| - 1] && s[l] == y[0];
      } else {
        assert s[k] == y[k - |x|] && s[l] == y[l - |x|];
      }
    }
  }

  lemma SliceChars(s: string, i: nat, j: nat)
    requires i <= j <= |s|
    ensures forall c | c in s[i..j] :: c in s
  {
    forall c | c in s[i..j] ensures c in s {
      var k :| 0 <= k < j - i && s[i..j][k] == c;
      assert s[i + k] == c;
    }
  }

  // ---------------------------------------------------------------- step 1: collapse noise runs, strip

  /** Drops the run of noise characters at the start of `s`. */
  function DropNoise(s: string): (r: string)
    ensures |r| <= |s| && r == s[|s| - |r|..]
    ensures r == [] || !IsNoise(r[0])
  {
    if s != [] && IsNoise(s[0]) then
      var r := DropNoise(s[1..]);
      assert s[1..][|s| - 1 - |r|..] == s[|s| - |r|..];
      r
    else s
  }

  /** Everything `DropNoise` skips is noise. */
  lemma {:induction false} DropNoiseSkipsNoise(s: string)
    ensures forall i :: 0 <= i < |s| - |DropNoise(s)| ==> IsNoise(s[i])
  {
    if s != [] && IsNoise(s[0]) {
      DropNoiseSkipsNoise(s[1..]);
      assert forall i :: 1 <= i < |s| ==> s[i] == s[1..][i - 1];
    }
  }

  /** Every maximal run of noise characters becomes one space (the regular-expression substitution). */
  function Collapse(s: string): string
    decreases |s|
  {
    if s == [] then []
    else if IsNoise(s[0]) then [' '] + Collapse(DropNoise(s[1..]))
    else [s[0]] + Collapse(s[1..])
  }

  /**
   * The collapsed text has no whitespace but single spaces, is empty exactly when
   * its input is, and starts with a space exactly when its input starts with noise.
   */
  lemma {:induction false} CollapseTidy(s: string)
    ensures var r := Collapse(s);
      OnlyPlainSpaces(r) && NoPair(r, ' ', ' ') && ((s == []) == (r == [])) &&
      (s != [] ==> r[0] == if IsNoise(s[0]) then ' ' else s[0])
    decreases |s|
  {
    if s != [] {
      var t := if IsNoise(s[0]) then DropNoise(s[1..]) else s[1..];
      var c := if IsNoise(s[0]) then ' ' else s[0];
      CollapseTidy(t);
      assert Collapse(s) == [c] + Collapse(t);
      NoPairConcat([c], Collapse(t), ' ', ' ');
    }
  }

  /** A leading run of noise, the part `Collapse` turns into one space, holds nothing but noise. */
  lemma NoiseRunVanishes(s: string)
    requires s != [] && IsNoise(s[0])
    ensures var k := |s| - |DropNoise(s[1..])|;
      Without(s[..k], NOISE) == []
  {
    var k := |s| - |DropNoise(s[1..])|;
    DropNoiseSkipsNoise(s[1..]);
    forall i | 0 <= i < k
      ensures s[..k][i] in NOISE
    {
      if i > 0 {
        assert s[i] == s[1..][i - 1];
      }
    }
    WithoutAll(s[..k], NOISE);
  }

  /** Collapsing leaves the text between the noise runs exactly as it was. */
  lemma {:induction false} CollapseKeepsText(s: string)
    ensures Without(Collapse(s), NOISE) == Without(s, NOISE)
    decreases |s|
  {
    if s != [] {
      if IsNoise(s[0]) {
        var t := DropNoise(s[1..]);
        CollapseKeepsText(t);
        KeepTextAfterNoise(s, t);
      } else {
        CollapseKeepsText(s[1..]);
        KeepTextAfterChar(s);
      }
    }
  }

  /** The inductive step of `CollapseKeepsText` for a text that starts with noise. */
  lemma KeepTextAfterNoise(s: string, t: string)
    requires s != [] && IsNoise(s[0]) && t == DropNoise(s[1..])
    requires Without(Collapse(t), NOISE) == Without(t, NOISE)
    ensures Without(Collapse(s), NOISE) == Without(s, NOISE)
  {
    assert Collapse(s) == [' '] + Collapse(t);
    WithoutMark(Collapse(t));
    WithoutNoiseRun(s, t);
  }

  /** The space a noise run collapses to is itself noise. */
  lemma WithoutMark(x: string)
    ensures Without([' '] + x, NOISE) == Without(x, NOISE)
  {
    WithoutAppend([' '], x, NOISE);
    assert IsNoise(' ');
    WithoutAll([' '], NOISE);
  }

  /** A leading noise run leaves nothing once the noise is taken out. */
  lemma WithoutNoiseRun(s: string, t: string)
    requires s != [] && IsNoise(s[0]) && t == DropNoise(s[1..])
    ensures Without(s, NOISE) == Without(t, NOISE)
  {
    var k := |s| - |t|;
    assert t == s[1..][|s| - 1 - |t|..];
    assert t == s[k..];
    assert s == s[..k] + t;
    WithoutAppend(s[..k], t, NOISE);
    NoiseRunVanishes(s);
    assert Without(s, NOISE) == [] + Without(t, NOISE);
  }

  /** The inductive step of `CollapseKeepsText` for a text that starts with any other character. */
  lemma KeepTextAfterChar(s: string)
    requires s != [] && !IsNoise(s[0])
    requires Without(Collapse(s[1..]), NOISE) == Without(s[1..], NOISE)
    ensures Without(Collapse(s), NOISE) == Without(s, NOISE)
  {
    assert Collapse(s) == [s[0]] + Collapse(s[1..]);
    WithoutAppend([s[0]], Collapse(s[1..]), NOISE);
    assert s == [s[0]] + s[1..];
    WithoutAppend([s[0]], s[1..], NOISE);
  }

  /** Step 1 of `clean_text`: collapse the noise runs, then strip both ends. */
  function CollapseNoise(s: string): string
  {
    Strip(Collapse(s))
  }

  lemma SpacesAreNoise(s: string)
    requires forall i :: 0 <= i < |s| ==> IsSpace(s[i])
    ensures Without(s, NOISE) == []
  {
    assert forall i :: 0 <= i < |s| ==> s[i] in NOISE;
    WithoutAll(s, NOISE);
  }

  /** Removing whitespace from the front of a text keeps it tidy and loses only noise. */
  lemma StripLeadingTidy(c: string)
    requires OnlyPlainSpaces(c) && NoPair(c, ' ', ' ')
    ensures var l := StripLeading(c);
      OnlyPlainSpaces(l) && NoPair(l, ' ', ' ') && Without(l, NOISE) == Without(c, NOISE)
  {
    var l := StripLeading(c);
    var k := |c| - |l|;
    assert l == c[k..|c|];
    NoPairSlice(c, k, |c|, ' ', ' ');
    SliceChars(c, k, |c|);
    StripLeadingLosesNoise(c);
  }

  lemma StripLeadingLosesNoise(c: string)
    ensures Without(StripLeading(c), NOISE) == Without(c, NOISE)
  {
    var l := StripLeading(c);
    StripLeadingRemovesSpaces(c);
    var k := |c| - |l|;
    assert c == c[..k] + l;
    WithoutAppend(c[..k], l, NOISE);
    assert forall i :: 0 <= i < k ==> c[..k][i] == c[i];
    SpacesAreNoise(c[..k]);
  }

  /** Removing whitespace from the back of a text keeps it tidy and loses only noise. */
  lemma StripTrailingTidy(l: string)
    requires OnlyPlainSpaces(l) && NoPair(l, ' ', ' ')
    ensures var r := StripTrailing(l);
      OnlyPlainSpaces(r) && NoPair(r, ' ', ' ') && Without(r, NOISE) == Without(l, NOISE)
  {
    var r := StripTrailing(l);
    StripTrailingRemovesSpaces(l);
    NoPairSlice(l, 0, |r|, ' ', ' ');
    SliceChars(l, 0, |r|);
    assert l == r + l[|r|..];
    WithoutAppend(r, l[|r|..], NOISE);
    SpacesAreNoise(l[|r|..]);
  }

  /** Stripping a collapsed text removes at most spaces, so only noise leaves. */
  lemma StripTidy(c: string)
    requires OnlyPlainSpaces(c) && NoPair(c, ' ', ' ')
    ensures var r := Strip(c);
      OnlyPlainSpaces(r) && WellSpaced(r) && Without(r, NOISE) == Without(c, NOISE)
  {
    StripLeadingTidy(c);
    StripTrailingTidy(StripLeading(c));
    assert IsSpace(' ');
  }

  /**
   * Step 1 leaves no noise character but single spaces, none at either end, and
   * keeps every other character in its order.
   */
  lemma CollapseNoiseTidy(s: string)
    ensures var r := CollapseNoise(s);
      OnlyPlainSpaces(r) && WellSpaced(r) && Without(r, NOISE) == Without(s, NOISE)
  {
    CollapseTidy(s);
    StripTidy(Collapse(s));
    CollapseKeepsText(s);
  }

  /** A text made of noise characters only. */
  predicate AllNoise(g: string)
  {
    forall i :: 0 <= i < |g| ==> IsNoise(g[i])
  }

  /** `gaps[0] + ws[0] + gaps[1] + ... + ws[n - 1] + gaps[n]`: words with noise between and around them. */
  function Spread(gaps: seq<string>, ws: seq<string>): string
    requires |gaps| == |ws| + 1
  {
    if ws == [] then gaps[0] else gaps[0] + ws[0] + Spread(gaps[1..], ws[1..])
  }

  /** What collapsing leaves of a gap: one space, or nothing for an empty gap. */
  function Mark(g: string): string
  {
    if g == [] then [] else " "
  }

  /** A noise-free word passes through `Collapse` unchanged. */
  lemma {:induction false} CollapseWord(w: string, t: string)
    requires Quiet(w)
    ensures Collapse(w + t) == w + Collapse(t)
  {
    if w != [] {
      var u := w[1..];
      assert (w + t)[0] == w[0];
      assert (w + t)[1..] == u + t;
      assert Quiet(u) by {
        assert forall i :: 0 <= i < |u| ==> u[i] == w[i + 1];
      }
      var c := Collapse(t);
      assert !IsNoise(w[0]);
      CollapseWord(u, t);
      AppendAssoc([w[0]], u, c);
      calc {
        Collapse(w + t);
        [w[0]] + Collapse(u + t);
        [w[0]] + (u + c);
        { assert [w[0]] + u == w; }
        w + c;
      }
    } else {
      assert w + t == t;
    }
  }

  /** `DropNoise` consumes a whole gap and stops where the next word begins. */
  lemma {:induction false} DropNoiseRun(g: string, t: string)
    requires AllNoise(g) && (t == [] || !IsNoise(t[0]))
    ensures DropNoise(g + t) == t
  {
    if g == [] {
      assert g + t == t;
      assert DropNoise(t) == t;
    } else {
      var h := g[1..];
      assert (g + t)[1..] == h + t;
      assert (g + t)[0] == g[0] && IsNoise(g[0]);
      assert DropNoise(g + t) == DropNoise(h + t);
      assert AllNoise(h) by {
        assert forall i :: 0 <= i < |h| ==> h[i] == g[i + 1];
      }
      DropNoiseRun(h, t);
    }
  }

  /** A gap before a word, or at the end, collapses to its mark. */
  lemma CollapseGap(g: string, t: string)
    requires AllNoise(g) && (t == [] || !IsNoise(t[0]))
    ensures Collapse(g + t) == Mark(g) + Collapse(t)
  {
    if g == [] {
      assert g + t == t;
    } else {
      var h := g[1..];
      assert (g + t)[1..] == h + t;
      assert (g + t)[0] == g[0] && IsNoise(g[0]);
      assert Collapse(g + t) == [' '] + Collapse(DropNoise(h + t));
      assert AllNoise(h) by {
        assert forall i :: 0 <= i < |h| ==> h[i] == g[i + 1];
      }
      DropNoiseRun(h, t);
    }
  }

  /** A gap followed by a word collapses to the gap's mark and the word. */
  lemma CollapseCell(g: string, w: string, rest: string)
    requires AllNoise(g) && w != [] && Quiet(w)
    ensures Collapse(g + w + rest) == Mark(g) + w + Collapse(rest)
  {
    AppendAssoc(g, w, rest);
    assert (w + rest)[0] == w[0];
    CollapseGap(g, w + rest);
    CollapseWord(w, rest);
    AppendAssoc(Mark(g), w, Collapse(rest));
  }

  /** Joining a word in front of a non-empty join puts one separator between them. */
  lemma JoinCons(ws: seq<string>, sep: string)
    requires |ws| >= 2
    ensures Join(ws, sep) == ws[0] + (sep + Join(ws[1..], sep))
  {
    AppendAssoc(ws[0], sep, Join(ws[1..], sep));
  }

  /**
   * Every gap is noise, every word is non-empty and noise-free, and the gaps between
   * two words are not empty.
   */
  predicate Gapped(gaps: seq<string>, ws: seq<string>)
    requires |gaps| == |ws| + 1
  {
    AllNoise(gaps[0]) &&
    (ws != [] ==> ws[0] != [] && Quiet(ws[0]) && (|ws| > 1 ==> gaps[1] != []) && Gapped(gaps[1..], ws[1..]))
  }

  /** The pointwise conditions give `Gapped`. */
  lemma {:induction false} GappedOf(gaps: seq<string>, ws: seq<string>)
    requires |gaps| == |ws| + 1
    requires forall i :: 0 <= i < |gaps| ==> AllNoise(gaps[i])
    requires forall i :: 0 <= i < |ws| ==> ws[i] != [] && Quiet(ws[i])
    requires forall i :: 0 < i < |ws| ==> gaps[i] != []
    ensures Gapped(gaps, ws)
    decreases |ws|
  {
    if ws != [] {
      var gs, vs := gaps[1..], ws[1..];
      assert forall i :: 0 <= i < |gs| ==> gs[i] == gaps[i + 1];
      assert forall i :: 0 <= i < |vs| ==> vs[i] == ws[i + 1];
      GappedOf(gs, vs);
    }
  }

  /** Collapsing marks every gap between words with exactly one space and leaves the words as they are. */
  lemma {:induction false} CollapseSpread(gaps: seq<string>, ws: seq<string>)
    requires |gaps| == |ws| + 1 && Gapped(gaps, ws)
    ensures ws == [] ==> Collapse(Spread(gaps, ws)) == Mark(gaps[0])
    ensures ws != [] ==> Collapse(Spread(gaps, ws)) == Mark(gaps[0]) + Join(ws, " ") + Mark(gaps[|ws|])
    decreases |ws|
  {
    if ws == [] {
      CollapseGap(gaps[0], []);
      assert gaps[0] + [] == gaps[0];
    } else {
      var rest := Spread(gaps[1..], ws[1..]);
      CollapseSpread(gaps[1..], ws[1..]);
      assert gaps[1..][|ws| - 1] == gaps[|ws|];
      assert [ws[0]] + ws[1..] == ws;
      ConsJoined(gaps[0], ws[0], rest, ws[1..], Mark(gaps[|ws|]));
    }
  }

  /** The inductive step of `CollapseSpread`: a gap and a word in front of a collapsed rest. */
  lemma ConsJoined(g: string, w: string, rest: string, tail: seq<string>, m: string)
    requires AllNoise(g) && w != [] && Quiet(w)
    requires tail == [] ==> Collapse(rest) == m
    requires tail != [] ==> Collapse(rest) == " " + Join(tail, " ") + m
    ensures Collapse(g + w + rest) == Mark(g) + Join([w] + tail, " ") + m
  {
    CollapseCell(g, w, rest);
    if tail == [] {
      assert [w] + tail == [w];
    } else {
      var j := Join(tail, " ");
      JoinCons([w] + tail, " ");
      assert ([w] + tail)[1..] == tail;
      AppendAssoc(w, " " + j, m);
      AppendAssoc(" ", j, m);
    }
    AppendAssoc(Mark(g), w, Collapse(rest));
  }

  /**
   * Step 1 pinned down: writing any text as noise gaps around noise-free words, the
   * result is the words joined by single spaces.
   */
  lemma CollapseNoiseSpread(gaps: seq<string>, ws: seq<string>)
    requires |gaps| == |ws| + 1
    requires forall i :: 0 <= i < |gaps| ==> AllNoise(gaps[i])
    requires forall i :: 0 <= i < |ws| ==> ws[i] != [] && Quiet(ws[i])
    requires forall i :: 0 < i < |ws| ==> gaps[i] != []
    ensures CollapseNoise(Spread(gaps, ws)) == Join(ws, " ")
  {
    GappedOf(gaps, ws);
    CollapseSpread(gaps, ws);
    if ws == [] {
      assert StripLeading(" ") == [];
    } else {
      StripMarks(gaps[0], ws, gaps[|ws|]);
    }
  }

  /** Stripping the marks of the two outer gaps leaves the joined words. */
  lemma StripMarks(g: string, ws: seq<string>, h: string)
    requires ws != [] && ws[0] != [] && Quiet(ws[0])
    requires ws[|ws| - 1] != [] && Quiet(ws[|ws| - 1])
    ensures Strip(Mark(g) + Join(ws, " ") + Mark(h)) == Join(ws, " ")
  {
    var j, w := Join(ws, " "), ws[|ws| - 1];
    JoinFirst(ws, " ");
    JoinLast(ws, " ");
    assert !IsNoise(ws[0][0]) && !IsNoise(w[|w| - 1]);
    assert !IsSpace(j[0]) && !IsSpace(j[|j| - 1]);
    StripPadded(Mark(g), j, Mark(h));
  }

  // ---------------------------------------------------------------- step 2: repair comma spacing

  /** Step 2 of `clean_text`: `" ,"` becomes `","`, then `",,,"` and `",,"` become `","`, in that order. */
  function RepairCommas(s: string): string
  {
    Replace(Replace(Replace(s, " ,", ","), ",,,", ","), ",,", ",")
  }

  predicate IsCommaPattern(pat: string)
  {
    pat == " ," || pat == ",,," || pat == ",,"
  }

  /** Spaces are single and never last, and no space comes right before a comma. */
  predicate CommaSpaced(r: string)
  {
    NoPair(r, ' ', ' ') && NoPair(r, ' ', ',') && (r == [] || r[|r| - 1] != ' ')
  }

  /** One replacement of step 2 keeps spaces single and non-trailing, and leaves no space before a comma. */
  lemma {:induction false} CommaStepSpacing(s: string, pat: string)
    requires IsCommaPattern(pat)
    requires NoPair(s, ' ', ' ') && (s == [] || s[|s| - 1] != ' ')
    requires pat != " ," ==> NoPair(s, ' ', ',')
    ensures CommaSpaced(Replace(s, pat, ","))
    decreases |s|
  {
    if |s| < |pat| {
      assert Replace(s, pat, ",") == s;
    } else if s[..|pat|] == pat {
      var rest := s[|pat|..];
      NoPairSlice(s, |pat|, |s|, ' ', ' ');
      if pat != " ," {
        NoPairSlice(s, |pat|, |s|, ' ', ',');
      }
      CommaStepSpacing(rest, pat);
      CommaMatchSpacing(s, pat);
    } else {
      var t := s[1..];
      NoPairSlice(s, 1, |s|, ' ', ' ');
      if pat != " ," {
        NoPairSlice(s, 1, |s|, ' ', ',');
      }
      CommaStepSpacing(t, pat);
      CommaSkipSpacing(s, pat);
    }
  }

  /** Where the pattern matches, a comma takes its place in front of the rest. */
  lemma CommaMatchSpacing(s: string, pat: string)
    requires IsCommaPattern(pat) && |s| >= |pat| && s[..|pat|] == pat
    requires CommaSpaced(Replace(s[|pat|..], pat, ","))
    ensures CommaSpaced(Replace(s, pat, ","))
  {
    var tail := Replace(s[|pat|..], pat, ",");
    assert Replace(s, pat, ",") == [','] + tail;
    NoPairConcat([','], tail, ' ', ' ');
    NoPairConcat([','], tail, ' ', ',');
  }

  /** Where the pattern does not match, the first character stays in front of the rest. */
  lemma CommaSkipSpacing(s: string, pat: string)
    requires IsCommaPattern(pat) && |s| >= |pat| && s[..|pat|] != pat
    requires NoPair(s, ' ', ' ') && s[|s| - 1] != ' '
    requires pat != " ," ==> NoPair(s, ' ', ',')
    requires CommaSpaced(Replace(s[1..], pat, ","))
    ensures CommaSpaced(Replace(s, pat, ","))
  {
    var tail := Replace(s[1..], pat, ",");
    assert Replace(s, pat, ",") == [s[0]] + tail;
    ReplaceHead(s[1..], pat, ",");
    if s[0] == ' ' {
      SpaceThenNoMatch(s, pat);
    }
    ConsSpaced(s[0], tail);
  }

  /** A character in front of a comma-spaced text keeps it so unless it is a space before a space or a comma. */
  lemma ConsSpaced(c: char, tail: string)
    requires CommaSpaced(tail) && tail != []
    requires c == ' ' ==> tail[0] != ' ' && tail[0] != ','
    ensures CommaSpaced([c] + tail)
  {
    NoPairConcat([c], tail, ' ', ' ');
    NoPairConcat([c], tail, ' ', ',');
    LastOfCons(c, tail);
  }

  /** After a space that starts no match, the rest begins with its own first character, neither space nor comma. */
  lemma SpaceThenNoMatch(s: string, pat: string)
    requires IsCommaPattern(pat) && |s| >= |pat| && s[..|pat|] != pat
    requires NoPair(s, ' ', ' ') && s[|s| - 1] != ' '
    requires pat != " ," ==> NoPair(s, ' ', ',')
    requires s[0] == ' '
    ensures |s| > 1 && s[1] != ' ' && s[1] != ','
    ensures Replace(s[1..], pat, ",")[0] == s[1]
  {
    assert s[1] != ' ';
    if pat == " ," {
      assert s[..2] == [s[0], s[1]];
    }
    var t := s[1..];
    ReplaceHead(t, pat, ",");
    assert !OccursAt(t, pat, 0) by {
      assert pat[0] == ' ' || pat[0] == ',';
    }
  }

  lemma CommaPatternChars(pat: string)
    requires IsCommaPattern(pat)
    ensures pat != [] && forall i :: 0 <= i < |pat| ==> pat[i] in {' ', ','}
  {
  }

  /** A replacement of step 2 brings in only commas, which are not noise. */
  lemma CommaStepPlain(s: string, pat: string)
    requires pat != [] && OnlyPlainSpaces(s)
    ensures OnlyPlainSpaces(Replace(s, pat, ","))
  {
    ReplaceChars(s, pat, ",");
    assert !IsNoise(',');
  }

  /** One replacement of step 2 on a well-spaced noise-free text. */
  lemma CommaStep(s: string, pat: string)
    requires IsCommaPattern(pat)
    requires OnlyPlainSpaces(s) && WellSpaced(s)
    requires pat != " ," ==> NoPair(s, ' ', ',')
    ensures var r := Replace(s, pat, ",");
      OnlyPlainSpaces(r) && WellSpaced(r) && NoPair(r, ' ', ',') &&
      Without(r, {' ', ','}) == Without(s, {' ', ','})
  {
    CommaStepSpacing(s, pat);
    CommaStepPlain(s, pat);
    if s != [] {
      ReplaceHead(s, pat, ",");
    }
    CommaPatternChars(pat);
    ReplaceWithout(s, pat, ",", {' ', ','});
  }

  /**
   * Step 2 keeps the text well spaced and noise free, leaves no space before a
   * comma, and changes nothing but spaces and commas.
   */
  lemma RepairCommasTidy(s: string)
    requires OnlyPlainSpaces(s) && WellSpaced(s)
    ensures var r := RepairCommas(s);
      OnlyPlainSpaces(r) && WellSpaced(r) && NoPair(r, ' ', ',') &&
      Without(r, {' ', ','}) == Without(s, {' ', ','})
  {
    var s1 := Replace(s, " ,", ",");
    CommaStep(s, " ,");
    var s2 := Replace(s1, ",,,", ",");
    CommaStep(s1, ",,,");
    CommaStep(s2, ",,");
  }

  /** `s` with every space that stands right before a comma deleted. */
  function DropSpacesBeforeCommas(s: string): string
  {
    if s == [] then []
    else (if |s| >= 2 && s[0] == ' ' && s[1] == ',' then [] else [s[0]]) + DropSpacesBeforeCommas(s[1..])
  }

  /** The first replacement of step 2 deletes exactly the spaces that stand right before a comma. */
  lemma {:induction false} SpaceCommaReplace(s: string)
    ensures Replace(s, " ,", ",") == DropSpacesBeforeCommas(s)
    decreases |s|
  {
    if |s| < 2 {
      if s != [] {
        assert DropSpacesBeforeCommas(s) == [s[0]] + DropSpacesBeforeCommas([]);
        assert [s[0]] == s;
      }
    } else if s[..2] == " ," {
      var t := s[1..];
      SpaceCommaReplace(s[2..]);
      assert t[0] == ',' && t[1..] == s[2..];
      assert DropSpacesBeforeCommas(t) == [','] + DropSpacesBeforeCommas(s[2..]);
    } else {
      assert s[..2] == [s[0], s[1]];
      SpaceCommaReplace(s[1..]);
    }
  }

  /** `s` with every run of commas shortened to a single comma. */
  function SqueezeCommas(s: string): string
  {
    if s == [] then []
    else if |s| >= 2 && s[0] == ',' && s[1] == ',' then SqueezeCommas(s[1..])
    else [s[0]] + SqueezeCommas(s[1..])
  }

  predicate StartsWithComma(s: string)
  {
    s != [] && s[0] == ','
  }

  /** The same character in front of two texts that squeeze alike, and agree on starting with a comma, keeps them alike. */
  lemma SqueezeCons(c: char, y: string, z: string)
    requires SqueezeCommas(y) == SqueezeCommas(z)
    requires c == ',' ==> (StartsWithComma(y) <==> StartsWithComma(z))
    ensures SqueezeCommas([c] + y) == SqueezeCommas([c] + z)
  {
    assert ([c] + y)[1..] == y;
    assert ([c] + z)[1..] == z;
  }

  /** A run of commas of any length squeezes like a single comma. */
  lemma {:induction false} SqueezeRun(pat: string, t: string)
    requires pat != [] && forall i :: 0 <= i < |pat| ==> pat[i] == ','
    ensures SqueezeCommas(pat + t) == SqueezeCommas([','] + t)
    decreases |pat|
  {
    if |pat| > 1 {
      var rest := pat[1..];
      assert (pat + t)[1..] == rest + t;
      assert (pat + t)[0] == ',' && (pat + t)[1] == ',';
      assert forall i :: 0 <= i < |rest| ==> rest[i] == pat[i + 1];
      SqueezeRun(rest, t);
    } else {
      assert pat == [','];
    }
  }

  /**
   * Replacing `",,,"` or `",,"` by one comma only shortens comma runs: no run
   * disappears, none appears, and nothing between them changes.
   */
  lemma {:induction false} MergeCommas(s: string, pat: string)
    requires pat == ",,," || pat == ",,"
    ensures SqueezeCommas(Replace(s, pat, ",")) == SqueezeCommas(s)
    ensures StartsWithComma(Replace(s, pat, ",")) <==> StartsWithComma(s)
    decreases |s|
  {
    if |s| < |pat| {
    } else if s[..|pat|] == pat {
      var rest := s[|pat|..];
      MergeCommas(rest, pat);
      assert s == pat + rest;
      SqueezeRun(pat, rest);
      SqueezeCons(',', Replace(rest, pat, ","), rest);
    } else {
      MergeCommas(s[1..], pat);
      assert s == [s[0]] + s[1..];
      SqueezeCons(s[0], Replace(s[1..], pat, ","), s[1..]);
    }
  }

  /** `n` commas. */
  function Commas(n: nat): (r: string)
    ensures |r| == n && forall i :: 0 <= i < n ==> r[i] == ','
  {
    seq(n, _ => ',')
  }

  /** The length of the run of commas that `s` starts with. */
  function LeadingCommas(s: string): (n: nat)
    ensures n <= |s| && (forall i :: 0 <= i < n ==> s[i] == ',') && (n < |s| ==> s[n] != ',')
    decreases |s|
  {
    if s != [] && s[0] == ',' then 1 + LeadingCommas(s[1..]) else 0
  }

  /** A text that starts with a comma is its leading run followed by a text that does not. */
  lemma LeadingRun(s: string)
    requires StartsWithComma(s)
    ensures var n := LeadingCommas(s);
      n >= 1 && s == Commas(n) + s[n..] && !StartsWithComma(s[n..])
  {
    var n := LeadingCommas(s);
    assert s[..n] == Commas(n);
    assert s == s[..n] + s[n..];
  }

  /** A run of `m` commas in front of a text that does not start with a comma is a leading run of length `m`. */
  lemma {:induction false} LeadingCommasOf(m: nat, u: string)
    requires !StartsWithComma(u)
    ensures LeadingCommas(Commas(m) + u) == m
    decreases m
  {
    if m > 0 {
      assert (Commas(m) + u)[1..] == Commas(m - 1) + u;
      LeadingCommasOf(m - 1, u);
    } else {
      assert Commas(m) + u == u;
    }
  }

  /** What one pass of replacing `k` commas by one comma leaves of a run of `n` commas. */
  function PassRun(n: nat, k: nat): nat
    requires k >= 2
    decreases n
  {
    if n >= k then 1 + PassRun(n - k, k) else n
  }

  /** A pass over `",,,"` turns a run of `n` commas into `n / 3 + n % 3`. */
  lemma {:induction false} PassRunThree(n: nat)
    ensures PassRun(n, 3) == n / 3 + n % 3
    decreases n
  {
    if n >= 3 {
      PassRunThree(n - 3);
    }
  }

  /** A pass over `",,"` turns a run of `m` commas into `(m + 1) / 2`. */
  lemma {:induction false} PassRunTwo(m: nat)
    ensures PassRun(m, 2) == (m + 1) / 2
    decreases m
  {
    if m >= 2 {
      PassRunTwo(m - 2);
    }
  }

  /** `s` with each maximal run of `n` commas replaced by `PassRun(n, k)` commas. */
  function PassRuns(s: string, k: nat): string
    requires k >= 2
    decreases |s|
  {
    if s == [] then []
    else if s[0] != ',' then [s[0]] + PassRuns(s[1..], k)
    else var n := LeadingCommas(s); Commas(PassRun(n, k)) + PassRuns(s[n..], k)
  }

  /** A run shorter than the pattern passes a comma replacement unchanged. */
  lemma {:induction false} ReplaceShortRun(n: nat, k: nat, t: string)
    requires 2 <= k && n < k && !StartsWithComma(t)
    ensures Replace(Commas(n) + t, Commas(k), ",") == Commas(n) + Replace(t, Commas(k), ",")
    decreases n
  {
    var s, pat := Commas(n) + t, Commas(k);
    if n == 0 {
      assert s == t;
    } else if |s| < k {
      assert Replace(s, pat, ",") == s;
      assert Replace(t, pat, ",") == t;
    } else {
      ReplaceMiss(n, k, t);
      ReplaceShortRun(n - 1, k, t);
      var rest := Replace(t, pat, ",");
      assert Commas(n) == [','] + Commas(n - 1);
      AppendAssoc([','], Commas(n - 1), rest);
    }
  }

  /** A run shorter than the pattern, before a text without a leading comma, gives up its first comma unchanged. */
  lemma ReplaceMiss(n: nat, k: nat, t: string)
    requires 1 <= n < k && !StartsWithComma(t) && n + |t| >= k
    ensures Replace(Commas(n) + t, Commas(k), ",") == [','] + Replace(Commas(n - 1) + t, Commas(k), ",")
  {
    var s, pat := Commas(n) + t, Commas(k);
    assert s[..k][n] == t[0] != pat[n];
    assert s[..k] != pat;
    assert s[1..] == Commas(n - 1) + t;
  }

  /** Replacing `k` commas by one inside a run of `n` commas leaves `PassRun(n, k)` of them. */
  lemma {:induction false} ReplaceRun(n: nat, k: nat, t: string)
    requires k >= 2 && !StartsWithComma(t)
    ensures Replace(Commas(n) + t, Commas(k), ",") == Commas(PassRun(n, k)) + Replace(t, Commas(k), ",")
    decreases n
  {
    var s, pat := Commas(n) + t, Commas(k);
    if n >= k {
      assert s[..k] == pat;
      assert s[k..] == Commas(n - k) + t;
      ReplaceRun(n - k, k, t);
      assert Commas(PassRun(n, k)) == "," + Commas(PassRun(n - k, k));
    } else {
      ReplaceShortRun(n, k, t);
    }
  }

  /** A character other than a comma passes a comma replacement unchanged. */
  lemma ReplaceText(c: char, t: string, k: nat)
    requires k >= 2 && c != ','
    ensures Replace([c] + t, Commas(k), ",") == [c] + Replace(t, Commas(k), ",")
  {
    var s, pat := [c] + t, Commas(k);
    if |s| < k {
      assert Replace(t, pat, ",") == t;
    } else {
      assert s[..k][0] != pat[0];
      assert s[1..] == t;
    }
  }

  /** Replacing `k` commas by one turns each maximal run of `n` commas into `PassRun(n, k)` commas. */
  lemma {:induction false} ReplacePasses(s: string, k: nat)
    requires k >= 2
    ensures Replace(s, Commas(k), ",") == PassRuns(s, k)
    decreases |s|
  {
    if s == [] {
    } else if s[0] != ',' {
      ReplaceText(s[0], s[1..], k);
      ReplacePasses(s[1..], k);
      assert s == [s[0]] + s[1..];
    } else {
      var n := LeadingCommas(s);
      LeadingRun(s);
      ReplaceRun(n, k, s[n..]);
      ReplacePasses(s[n..], k);
    }
  }

  /** What step 2 leaves of a maximal run of `n` commas: 1 to 4 commas give one, 5 give two and 6 give one again. */
  function MergedRun(n: nat): (m: nat)
    ensures n >= 1 ==> 1 <= m <= n
    ensures 1 <= n <= 4 ==> m == 1
  {
    (n / 3 + n % 3 + 1) / 2
  }

  /** `s` with each maximal run of `n` commas replaced by `MergedRun(n)` commas. */
  function MergeRuns(s: string): string
    decreases |s|
  {
    if s == [] then []
    else if s[0] != ',' then [s[0]] + MergeRuns(s[1..])
    else var n := LeadingCommas(s); Commas(MergedRun(n)) + MergeRuns(s[n..])
  }

  /** The result of a pass does not start with a comma when its input does not. */
  lemma PassRunsHead(t: string, k: nat)
    requires k >= 2 && !StartsWithComma(t)
    ensures !StartsWithComma(PassRuns(t, k))
  {
  }

  /** The pass over `",,,"` followed by the pass over `",,"` is `MergeRuns`. */
  lemma {:induction false} PassesMerge(s: string)
    ensures PassRuns(PassRuns(s, 3), 2) == MergeRuns(s)
    decreases |s|
  {
    if s == [] {
    } else if s[0] != ',' {
      var u := PassRuns(s[1..], 3);
      assert ([s[0]] + u)[0] == s[0] && ([s[0]] + u)[1..] == u;
      PassesMerge(s[1..]);
    } else {
      var n := LeadingCommas(s);
      LeadingRun(s);
      var m := PassRun(n, 3);
      var u := PassRuns(s[n..], 3);
      PassRunThree(n);
      PassRunTwo(m);
      PassRunsHead(s[n..], 3);
      LeadingCommasOf(m, u);
      var v := Commas(m) + u;
      assert v[0] == ',' && v[m..] == u;
      PassesMerge(s[n..]);
    }
  }

  /**
   * Step 2 pinned down: a text without commas passes unchanged; otherwise the first
   * replacement deletes exactly the spaces right before commas, and the other two
   * only shorten comma runs, so apart from the length of those runs the result is
   * the text with those spaces deleted.
   */
  lemma RepairCommasExactly(s: string)
    ensures ',' !in s ==> RepairCommas(s) == s
    ensures RepairCommas(s) == MergeRuns(DropSpacesBeforeCommas(s))
    ensures Replace(s, " ,", ",") == DropSpacesBeforeCommas(s)
    ensures SqueezeCommas(RepairCommas(s)) == SqueezeCommas(DropSpacesBeforeCommas(s))
    ensures Without(RepairCommas(s), {','}) == Without(DropSpacesBeforeCommas(s), {','})
  {
    var s1 := Replace(s, " ,", ",");
    var s2 := Replace(s1, ",,,", ",");
    SpaceCommaReplace(s);
    MergeCommas(s1, ",,,");
    MergeCommas(s2, ",,");
    ReplaceWithout(s1, ",,,", ",", {','});
    ReplaceWithout(s2, ",,", ",", {','});
    assert Commas(3) == ",,," && Commas(2) == ",,";
    ReplacePasses(s1, 3);
    ReplacePasses(s2, 2);
    PassesMerge(s1);
    if ',' !in s {
      ReplaceAbsent(s, " ,", ",", ',');
      ReplaceAbsent(s, ",,,", ",", ',');
      ReplaceAbsent(s, ",,", ",", ',');
    }
  }

  // ---------------------------------------------------------------- step 3: drop code-like words

  predicate HasDigit(w: string)
  {
    exists i :: 0 <= i < |w| && IsDigit(w[i])
  }

  /** A word survives when it is shorter than 7 characters or has no digit. */
  predicate KeepWord(w: string)
  {
    |w| < 7 || !HasDigit(w)
  }

  /** The space-separated words of `s` that survive, in order. */
  function KeptWords(s: string): seq<string>
  {
    Filter(KeepWord, Split(s, ' '))
  }

  /** Step 3 of `clean_text`: rejoin the surviving words with single spaces. */
  function DropCodeWords(s: string): string
  {
    Join(KeptWords(s), " ")
  }

  /** In a string with single, non-trailing spaces every word after the first is non-empty. */
  lemma {:induction false} SplitWordsNonEmpty(s: string)
    requires NoPair(s, ' ', ' ') && (s == [] || s[|s| - 1] != ' ')
    ensures var ws := Split(s, ' ');
      (forall i :: 1 <= i < |ws| ==> ws[i] != []) && (s != [] && s[0] != ' ' ==> ws[0] != [])
  {
    if s != [] {
      var t := s[1..];
      NoPairSlice(s, 1, |s|, ' ', ' ');
      SplitWordsNonEmpty(t);
      var rest := Split(t, ' ');
      if s[0] == ' ' {
        assert t != [] && t[0] != ' ';
        assert Split(s, ' ') == [[]] + rest;
      } else {
        assert Split(s, ' ') == [[s[0]] + rest[0]] + rest[1..];
      }
    }
  }

  lemma {:induction false} JoinTidy(ws: seq<string>)
    requires forall i :: 0 <= i < |ws| ==> ws[i] != [] && ' ' !in ws[i] && OnlyPlainSpaces(ws[i])
    ensures var j := Join(ws, " ");
      OnlyPlainSpaces(j) && WellSpaced(j) && (ws != [] ==> j != [])
  {
    if |ws| == 1 {
      assert NoPair(ws[0], ' ', ' ');
    } else if |ws| > 1 {
      var w := ws[0];
      var rest := Join(ws[1..], " ");
      JoinTidy(ws[1..]);
      assert NoPair(w, ' ', ' ');
      NoPairConcat(w, " ", ' ', ' ');
      NoPairConcat(w + " ", rest, ' ', ' ');
      assert Join(ws, " ") == (w + " ") + rest;
      assert forall c | c in (w + " ") + rest :: c in w || c == ' ' || c in rest;
    }
  }

  /**
   * On a well-spaced noise-free text, step 3 gives a well-spaced noise-free text
   * whose words are exactly the surviving words.
   */
  lemma DropCodeWordsTidy(s: string)
    requires OnlyPlainSpaces(s) && WellSpaced(s)
    ensures var r := DropCodeWords(s);
      OnlyPlainSpaces(r) && WellSpaced(r) &&
      (KeptWords(s) == [] ==> r == []) &&
      (KeptWords(s) != [] ==> Split(r, ' ') == KeptWords(s))
  {
    var ws := Split(s, ' ');
    var kept := KeptWords(s);
    if s == [] {
      assert ws == [[]];
      assert KeepWord([]);
      assert kept == [[]];
      assert DropCodeWords(s) == [];
    } else {
      SplitWordsNonEmpty(s);
      assert forall i :: 0 <= i < |ws| ==> ws[i] != [];
      assert forall w | w in kept :: w in ws;
      forall w | w in kept
        ensures w != [] && ' ' !in w && OnlyPlainSpaces(w)
      {
        var i :| 0 <= i < |ws| && ws[i] == w;
      }
      JoinTidy(kept);
      if kept != [] {
        SplitJoin(kept, ' ');
      }
    }
  }

  /** `clean_text`: an empty input gives `""`; otherwise the three steps above. */
  function CleanText(stuff: string): string
  {
    if stuff == [] then [] else DropCodeWords(RepairCommas(CollapseNoise(stuff)))
  }

  /**
   * The result of `clean_text` carries none of `: [ ] " { } 【 】`, its only
   * whitespace is single spaces never at an end, and none of its words is a
   * code-like word (7 or more characters with a digit).
   */
  lemma CleanTextTidy(stuff: string)
    ensures stuff == [] ==> CleanText(stuff) == []
    ensures var r := CleanText(stuff);
      OnlyPlainSpaces(r) && WellSpaced(r) && forall w | w in Split(r, ' ') :: KeepWord(w)
  {
    if stuff != [] {
      var collapsed := CollapseNoise(stuff);
      var repaired := RepairCommas(collapsed);
      CollapseNoiseTidy(stuff);
      RepairCommasTidy(collapsed);
      DropCodeWordsTidy(repaired);
    } else {
      assert KeepWord([]);
    }
  }

  /**
   * The words of `clean_text`'s result are exactly the words of the normalised
   * text that are shorter than 7 characters or have no digit, in their original
   * order; none of those words is lost.
   */
  lemma CleanTextWords(stuff: string)
    ensures var words := Split(RepairCommas(CollapseNoise(stuff)), ' ');
      var kept := Filter(KeepWord, words);
      var r := CleanText(stuff);
      (kept == [] ==> r == []) &&
      (kept != [] ==> Split(r, ' ') == kept) &&
      IsSubsequence(kept, words) &&
      (forall w | w in words && KeepWord(w) :: w in kept)
  {
    var collapsed := CollapseNoise(stuff);
    var repaired := RepairCommas(collapsed);
    CollapseNoiseTidy(stuff);
    RepairCommasTidy(collapsed);
    DropCodeWordsTidy(repaired);
    var words := Split(repaired, ' ');
    FilterIsSubsequence(KeepWord, words);
    forall w | w in words && KeepWord(w)
      ensures w in Filter(KeepWord, words)
    {
      FilterKeeps(KeepWord, words, w);
    }
  }

  /** A 9-character product code with digits never reaches the output. */
  lemma CodeWordDropped(stuff: string)
    ensures "ABC123456" !in Split(CleanText(stuff), ' ')
  {
    CleanTextTidy(stuff);
    CodeWordNotKept(Split(CleanText(stuff), ' '));
  }

  lemma CodeWordNotKept(ws: seq<string>)
    requires forall w | w in ws :: KeepWord(w)
    ensures "ABC123456" !in ws
  {
    assert IsDigit("ABC123456"[3]);
    assert !KeepWord("ABC123456");
  }

  lemma {:induction false} CollapseQuiet(s: string)
    requires Quiet(s)
    ensures Collapse(s) == s
  {
    if s != [] {
      CollapseQuiet(s[1..]);
      assert [s[0]] + s[1..] == s;
    }
  }

  /** A character that is not noise is no whitespace at all. */
  lemma QuietIsNotSpace(c: char)
    requires !IsNoise(c)
    ensures !IsSpace(c) && c != ' '
  {
  }

  /** On a text without noise characters, steps 1 and 2 leave nothing but the comma replacements. */
  lemma QuietNormalisation(s: string)
    requires s != [] && Quiet(s)
    ensures RepairCommas(CollapseNoise(s)) == Replace(Replace(s, ",,,", ","), ",,", ",")
  {
    CollapseQuiet(s);
    QuietIsNotSpace(s[0]);
    QuietIsNotSpace(s[|s| - 1]);
    assert StripLeading(s) == s;
    assert StripTrailing(s) == s;
    forall i | 0 <= i < |s|
      ensures s[i] != ' '
    {
      QuietIsNotSpace(s[i]);
    }
    ReplaceAbsent(s, " ,", ",", ' ');
  }

  lemma SingleWordKept(w: string)
    requires ' ' !in w && KeepWord(w)
    ensures DropCodeWords(w) == w
  {
    SplitNoSeparator(w, ' ');
    assert Filter(KeepWord, [w]) == [w] by {
      assert [w][1..] == [];
    }
  }

  lemma FiveCommasFirstPass()
    ensures Replace(",,,,,", ",,,", ",") == ",,,"
  {
    var five := ",,,,,";
    assert five[..3] == ",,,";
    assert five[3..] == ",,";
    assert Replace(",,", ",,,", ",") == ",,";
  }

  lemma ThreeCommasSecondPass()
    ensures Replace(",,,", ",,", ",") == ",,"
  {
    assert ",,,"[..2] == ",,";
    assert ",,,"[2..] == ",";
    assert Replace(",", ",,", ",") == ",";
  }

  lemma FiveCommas()
    ensures CleanText(",,,,,") == ",,"
  {
    var five := ",,,,,";
    assert Quiet(five);
    QuietNormalisation(five);
    FiveCommasFirstPass();
    ThreeCommasSecondPass();
    SingleWordKept(",,");
  }

  lemma TwoCommas()
    ensures CleanText(",,") == ","
  {
    var two := ",,";
    assert Quiet(two);
    QuietNormalisation(two);
    TwoCommasPass();
    SingleWordKept(",");
  }

  lemma TwoCommasPass()
    ensures Replace(Replace(",,", ",,,", ","), ",,", ",") == ","
  {
    var two := ",,";
    assert Replace(two, ",,,", ",") == two;
    assert two[..2] == ",," && two[2..] == [];
    assert Replace([], ",,", ",") == [];
  }

  /**
   * `clean_text` is not idempotent: five commas come out as two, and a second
   * pass turns those into one.
   */
  lemma CleanTextNotIdempotent()
    ensures CleanText(",,,,,") == ",,"
    ensures CleanText(CleanText(",,,,,")) != CleanText(",,,,,")
  {
    FiveCommas();
    TwoCommas();
  }

  // ================================================================ records and the tokenizer

  /**
   * The tokenizer as the two capabilities the core uses: `encode(text,
   * add_special_tokens=False)` and `decode(tokens)`. Nothing is assumed about how
   * they relate.
   */
  datatype Tokenizer = Tokenizer(encode: string -> seq<int>, decode: seq<int> -> string)

  /** A free-text field: a single string or a list of strings. */
  datatype Value = Text(text: string) | Lines(lines: seq<string>)

  /** The raw price field: either it converts to a number (held in cents) or the conversion fails. */
  datatype PriceField = Numeric(cents: int) | Unconvertible

  /** A raw catalog record; `None` stands for an absent key. */
  datatype Record = Record(
    title: string,
    price: PriceField,
    mainCategory: Option<string>,
    description: Option<Value>,
    features: Option<Value>,
    details: Option<string>,
    categories: Option<seq<string>>,
    author: Option<string>)

  /** `key in data and data[key]`: the field is there and is not empty. */
  predicate Present(field: Option<Value>)
  {
    match field
    case None => false
    case Some(Text(t)) => t != []
    case Some(Lines(ls)) => ls != []
  }

  /** A list is joined with newlines; a string is taken as it is. */
  function Rendered(v: Value): string
  {
    match v
    case Text(t) => t
    case Lines(ls) => Join(ls, "\n")
  }

  function FieldSection(field: Option<Value>): string
  {
    if Present(field) then Rendered(field.value) + "\n" else ""
  }

  /** `data.get('details', '')`: the raw details value, kept as it is. */
  function RawDetails(data: Record): string
  {
    data.details.GetOr("")
  }

  function DetailsSection(details: string): string
  {
    if details != [] then CleanText(details) + "\n" else ""
  }

  function CategoriesSection(categories: Option<seq<string>>): string
  {
    if categories.Some? && categories.value != [] then "Categories: " + Join(categories.value, ", ") + "\n" else ""
  }

  function AuthorSection(author: Option<string>): string
  {
    if author.Some? && author.value != [] then "Author: " + author.value + "\n" else ""
  }

  /** The assembled content block: description, features, cleaned details, categories, author. */
  function Contents(data: Record): string
  {
    FieldSection(data.description) + FieldSection(data.features) + DetailsSection(RawDetails(data))
      + CategoriesSection(data.categories) + AuthorSection(data.author)
  }

  /** The text that is tokenized: the cleaned title, a newline, the cleaned content cut at the character ceiling. */
  function TokenText(title: string, contents: string): string
  {
    CleanText(title) + "\n" + CleanText(Take(contents, CEILING_CHARS))
  }

  /** Both gates: more than `MIN_CHARS` characters of content and more than `MIN_TOKENS` tokens of text. */
  predicate Eligible(tok: Tokenizer, title: string, data: Record)
  {
    var contents := Contents(data);
    |contents| > MIN_CHARS && |tok.encode(TokenText(title, contents))| > MIN_TOKENS
  }

  /** The first `MAX_TOKENS` tokens of the text, decoded back. */
  function Body(tok: Tokenizer, title: string, data: Record): string
  {
    tok.decode(Take(tok.encode(TokenText(title, Contents(data))), MAX_TOKENS))
  }

  /** The training prompt: the question, the body and the rounded price answer. */
  function RenderPrompt(body: string, price: int): string
  {
    QUESTION + "\n\n" + body + "\n\n" + PREFIX + IntToString(RoundHalfEven(price)) + ".00"
  }

  /**
   * `prompt.split(PREFIX)[0] + PREFIX`: the prompt up to and including the first
   * price marker; a prompt without the marker gets it appended.
   */
  function TestPromptOf(prompt: string): (r: string)
    ensures |r| >= |PREFIX| && r[|r| - |PREFIX|..] == PREFIX
    ensures Find(prompt, PREFIX).Some? ==>
      |r| <= |prompt| && r == prompt[..|r|] && forall j :: 0 <= j < |r| - |PREFIX| ==> !OccursAt(r, PREFIX, j)
    ensures Find(prompt, PREFIX).None? ==> r == prompt + PREFIX
  {
    match Find(prompt, PREFIX)
    case None => prompt + PREFIX
    case Some(k) =>
      var r := prompt[..k] + PREFIX;
      assert r == prompt[..k + |PREFIX|];
      forall j | 0 <= j < k
        ensures !OccursAt(r, PREFIX, j)
      {
        assert !OccursAt(prompt, PREFIX, j);
        assert r[j..j + |PREFIX|] == prompt[j..j + |PREFIX|];
      }
      r
  }

  /** The state of a `BookItem` as a value. */
  datatype Item = Item(
    title: string,
    price: int,
    category: string,
    details: string,
    prompt: Option<string>,
    tokenCount: int,
    included: bool)

  /** What constructing a `BookItem` from `data` and `price` produces. */
  function Build(tok: Tokenizer, data: Record, price: int): Item
  {
    var title := data.title;
    var category := data.mainCategory.GetOr("");
    if Eligible(tok, title, data) then
      var prompt := RenderPrompt(Body(tok, title, data), price);
      Item(title, price, category, RawDetails(data), Some(prompt), |tok.encode(prompt)|, true)
    else
      Item(title, price, category, RawDetails(data), None, 0, false)
  }

  // ================================================================ the BookItem class

  class BookItem {
    const tok: Tokenizer
    var title: string
    var price: int
    var category: string
    var tokenCount: int
    var details: string
    var prompt: Option<string>
    var included: bool

    function State(): Item
      reads this
    {
      Item(title, price, category, details, prompt, tokenCount, included)
    }

    constructor (tok: Tokenizer, data: Record, price: int)
      ensures this.tok == tok
      ensures State() == Build(tok, data, price)
    {
      this.tok := tok;
      title := data.title;
      this.price := price;
      category := data.mainCategory.GetOr("");
      tokenCount := 0;
      details := "";
      prompt := None;
      included := false;
      new;
      Parse(data);
    }

    /** Assembles the content, applies both gates and, when they pass, renders the prompt. */
    method Parse(data: Record)
      modifies this
      ensures title == old(title) && price == old(price) && category == old(category)
      ensures details == RawDetails(data)
      ensures Eligible(tok, title, data) ==>
        included && prompt == Some(RenderPrompt(Body(tok, title, data), price)) &&
        tokenCount == |tok.encode(prompt.value)|
      ensures !Eligible(tok, title, data) ==>
        included == old(included) && prompt == old(prompt) && tokenCount == old(tokenCount)
    {
      details := data.details.GetOr("");
      var contents := Contents(data);
      if |contents| > MIN_CHARS {
        contents := Take(contents, CEILING_CHARS);
        var text := CleanText(title) + "\n" + CleanText(contents);
        var tokens := tok.encode(text);
        if |tokens| > MIN_TOKENS {
          tokens := Take(tokens, MAX_TOKENS);
          text := tok.decode(tokens);
          MakePrompt(text);
          included := true;
        }
      }
    }

    /** Renders the prompt around `text` and records its token count. */
    method MakePrompt(text: string)
      modifies this
      ensures prompt == Some(RenderPrompt(text, price))
      ensures tokenCount == |tok.encode(prompt.value)|
      ensures title == old(title) && price == old(price) && category == old(category)
      ensures details == old(details) && included == old(included)
    {
      prompt := Some(QUESTION + "\n\n" + text + "\n\n");
      prompt := Some(prompt.value + PREFIX + IntToString(RoundHalfEven(price)) + ".00");
      tokenCount := |tok.encode(prompt.value)|;
    }

    /**
     * The prompt with the answer withheld: it ends with the price marker and, when
     * the prompt holds one, it is the prompt up to and including the first marker.
     */
    function TestPrompt(): (r: string)
      reads this
      requires prompt.Some?
      ensures |r| >= |PREFIX| && r[|r| - |PREFIX|..] == PREFIX
      ensures Find(prompt.value, PREFIX).Some? ==> |r| <= |prompt.value| && r == prompt.value[..|r|]
    {
      TestPromptOf(prompt.value)
    }
  }

  // ================================================================ properties of parse, make_prompt and test_prompt

  /** An item is included exactly when both gates pass; an excluded item has no prompt and no tokens counted. */
  lemma GatesDecideInclusion(tok: Tokenizer, data: Record, price: int)
    ensures var it := Build(tok, data, price);
      var contents := Contents(data);
      (it.included <==> |contents| > MIN_CHARS && |tok.encode(TokenText(data.title, contents))| > MIN_TOKENS) &&
      (it.included <==> it.prompt.Some?) &&
      (!it.included ==> it.tokenCount == 0) &&
      it.details == RawDetails(data)
  {
  }

  /** A record whose content is at most `MIN_CHARS` characters long is never included, whatever the tokenizer. */
  lemma ShortRecordExcluded(tok: Tokenizer, data: Record, price: int)
    requires |Contents(data)| <= MIN_CHARS
    ensures !Build(tok, data, price).included && Build(tok, data, price).prompt == None
  {
  }

  /** A record with no description, features, details, categories or author has no content and is excluded. */
  lemma EmptyRecordExcluded(tok: Tokenizer, title: string, price: int)
    ensures var data := Record(title, Numeric(price), None, None, None, None, None, None);
      Contents(data) == [] && !Build(tok, data, price).included
  {
  }

  /** Every section of the content block that is there ends in a newline. */
  lemma ContentsEndsWithNewline(data: Record)
    ensures Contents(data) != [] ==> Contents(data)[|Contents(data)| - 1] == '\n'
  {
    var a := FieldSection(data.description) + FieldSection(data.features) + DetailsSection(RawDetails(data));
    var b := CategoriesSection(data.categories);
    var c := AuthorSection(data.author);
    assert Contents(data) == a + b + c;
    assert a == [] || a[|a| - 1] == '\n' by {
      var x := FieldSection(data.description) + FieldSection(data.features);
      assert a == x + DetailsSection(RawDetails(data));
      assert x == [] || x[|x| - 1] == '\n';
    }
  }

  /** Details come first when there is no description and no features, and they are cleaned. */
  lemma DetailsLead(data: Record)
    requires data.description.None? && data.features.None? && RawDetails(data) != []
    ensures Contents(data)[..|CleanText(RawDetails(data))| + 1] == CleanText(RawDetails(data)) + "\n"
  {
    var d := CleanText(RawDetails(data)) + "\n";
    var c, a := CategoriesSection(data.categories), AuthorSection(data.author);
    assert FieldSection(data.description) + FieldSection(data.features) + DetailsSection(RawDetails(data)) == d;
    AppendAssoc(d, c, a);
    assert Contents(data) == d + (c + a);
  }

  /**
   * At most `CEILING_CHARS` characters of content reach the cleaning step, and the
   * body is decoded from at most `MAX_TOKENS` leading tokens of the encoded text.
   */
  lemma TokenizedTextBounded(tok: Tokenizer, title: string, data: Record)
    ensures var t := Take(Contents(data), CEILING_CHARS);
      |t| <= CEILING_CHARS && t == Contents(data)[..|t|] &&
      TokenText(title, Contents(data)) == CleanText(title) + "\n" + CleanText(t)
    ensures var tokens := tok.encode(TokenText(title, Contents(data)));
      var kept := Take(tokens, MAX_TOKENS);
      |kept| <= MAX_TOKENS && kept == tokens[..|kept|] && Body(tok, title, data) == tok.decode(kept)
  {
  }

  /** The part of the prompt before the price marker: the question, then the body. */
  function PromptHead(body: string): string
  {
    QUESTION + "\n\n" + body + "\n\n"
  }

  /** The question has no dollar sign, so no price marker can start inside it. */
  lemma QuestionHasNoDollar()
    ensures '$' !in QUESTION
  {
    QuestionHalves();
    assert '$' !in "How much does this book ";
    assert '$' !in "cost to the nearest dollar?";
  }

  /** The question as two halves, to look at their characters separately. */
  lemma QuestionHalves()
    ensures QUESTION == "How much does this book " + "cost to the nearest dollar?"
  {
  }

  /** Whatever follows the question and body, no price marker starts inside them when the body holds none. */
  lemma NoMarkerInHead(body: string, t: string, j: nat)
    requires Find(body, PREFIX).None?
    requires j < |PromptHead(body)|
    ensures !OccursAt(PromptHead(body) + t, PREFIX, j)
  {
    var s := PromptHead(body) + t;
    var n, h := |QUESTION|, |PromptHead(body)|;
    assert |PREFIX| == 10 && PREFIX[9] == '$' && '\n' !in PREFIX;
    if j + 9 < n {
      QuestionHasNoDollar();
      assert s[j + 9] == QUESTION[j + 9];
      MismatchNoOccurrence(s, PREFIX, j, 9);
    } else if j <= n + 1 {
      var i := if j <= n then n - j else 0;
      assert s[j + i] == '\n';
      MismatchNoOccurrence(s, PREFIX, j, i);
    } else if j + 9 < h - 2 {
      var q := QUESTION + "\n\n";
      WindowInFront(PromptHead(body), t, j, 10);
      WindowInFront(q + body, "\n\n", j, 10);
      WindowInBack(q, body, j - n - 2, 10);
      assert !OccursAt(body, PREFIX, j - n - 2);
    } else {
      var i := if j <= h - 2 then h - 2 - j else 0;
      assert s[j + i] == '\n';
      MismatchNoOccurrence(s, PREFIX, j, i);
    }
  }

  /** No price marker starts at position `j` of the question and body, when the body holds none. */
  lemma NoMarkerAt(body: string, price: int, j: nat)
    requires Find(body, PREFIX).None?
    requires j < |PromptHead(body)|
    ensures !OccursAt(RenderPrompt(body, price), PREFIX, j)
  {
    var d := IntToString(RoundHalfEven(price));
    AppendAssoc(PromptHead(body), PREFIX, d);
    AppendAssoc(PromptHead(body), PREFIX + d, ".00");
    NoMarkerInHead(body, PREFIX + d + ".00", j);
  }

  /** When the body holds no price marker, the first marker in the prompt is the one `make_prompt` appends. */
  lemma MarkerOnlyAfterBody(body: string, price: int)
    requires Find(body, PREFIX).None?
    ensures var p := RenderPrompt(body, price);
      OccursAt(p, PREFIX, |PromptHead(body)|) &&
      forall j :: 0 <= j < |PromptHead(body)| ==> !OccursAt(p, PREFIX, j)
  {
    var head := PromptHead(body);
    var p := RenderPrompt(body, price);
    assert p == head + PREFIX + (IntToString(RoundHalfEven(price)) + ".00");
    assert p[|head|..|head| + |PREFIX|] == PREFIX;
    forall j | 0 <= j < |head|
      ensures !OccursAt(p, PREFIX, j)
    {
      NoMarkerAt(body, price, j);
    }
  }

  /** Every rendered prompt holds the price marker, whatever the body: the one `make_prompt` appends. */
  lemma RenderedPromptHasMarker(body: string, price: int)
    ensures Find(RenderPrompt(body, price), PREFIX).Some?
  {
    var head := PromptHead(body);
    var p := RenderPrompt(body, price);
    assert p == head + PREFIX + (IntToString(RoundHalfEven(price)) + ".00");
    assert p[|head|..|head| + |PREFIX|] == PREFIX;
    assert OccursAt(p, PREFIX, |head|);
  }

  /**
   * For any body, even one that holds the marker itself, the test prompt is a prefix
   * of the prompt that ends with the marker and holds no earlier marker.
   */
  lemma TestPromptIsPrefix(body: string, price: int)
    ensures var p := RenderPrompt(body, price);
      var t := TestPromptOf(p);
      |PREFIX| <= |t| <= |p| && t == p[..|t|] && t[|t| - |PREFIX|..] == PREFIX &&
      forall j :: 0 <= j < |t| - |PREFIX| ==> !OccursAt(t, PREFIX, j)
  {
    RenderedPromptHasMarker(body, price);
  }

  /**
   * With a body free of price markers, the test prompt is the question and the body
   * up to and including the marker, and the full prompt is the test prompt followed by
   * the rounded price and `.00`: the answer is withheld and nothing else is.
   */
  lemma TestPromptWithholdsPrice(body: string, price: int)
    requires Find(body, PREFIX).None?
    ensures var p := RenderPrompt(body, price);
      TestPromptOf(p) == PromptHead(body) + PREFIX &&
      p == TestPromptOf(p) + IntToString(RoundHalfEven(price)) + ".00"
  {
    var p := RenderPrompt(body, price);
    MarkerOnlyAfterBody(body, price);
    FindFirst(p, PREFIX, |PromptHead(body)|);
    assert p == PromptHead(body) + PREFIX + (IntToString(RoundHalfEven(price)) + ".00");
    assert p[..|PromptHead(body)|] == PromptHead(body);
  }

  /** An included item carries the rendered prompt and the token count of exactly that prompt. */
  lemma IncludedPrompt(tok: Tokenizer, data: Record, price: int)
    requires Build(tok, data, price).included
    ensures var prompt := RenderPrompt(Body(tok, data.title, data), price);
      Build(tok, data, price).prompt == Some(prompt) &&
      Build(tok, data, price).tokenCount == |tok.encode(prompt)|
  {
  }

  /**
   * The answer a prompt ends with is the price rounded to whole dollars, ties to
   * even: after the test prompt come digits that read back as a number within 50
   * cents of the price, then `.00`.
   */
  lemma PromptAnswer(body: string, price: int)
    requires price >= 0
    requires Find(body, PREFIX).None?
    ensures var p := RenderPrompt(body, price);
      var test := TestPromptOf(p);
      |test| + 4 <= |p| && p[..|test|] == test &&
      var answer := p[|test|..];
      answer[|answer| - 3..] == ".00" &&
      AllDigits(answer[..|answer| - 3]) &&
      -50 <= price - 100 * DigitsValue(answer[..|answer| - 3]) <= 50
  {
    var p := RenderPrompt(body, price);
    TestPromptWithholdsPrice(body, price);
    var test := TestPromptOf(p);
    var d := RoundHalfEven(price);
    var digits := IntToString(d);
    RoundHalfEvenNearest(price);
    IntToStringValue(d);
    assert p == test + (digits + ".00");
    var answer := p[|test|..];
    assert answer == digits + ".00";
    assert answer[..|answer| - 3] == digits;
  }

  /** `$19.99` is asked as "Price is $" and answered "20.00". */
  lemma NineteenNinetyNine(body: string)
    requires Find(body, PREFIX).None?
    ensures RenderPrompt(body, 1999) == TestPromptOf(RenderPrompt(body, 1999)) + "20.00"
  {
    TestPromptWithholdsPrice(body, 1999);
    TwentyDollars();
    AppendAssoc(TestPromptOf(RenderPrompt(body, 1999)), IntToString(RoundHalfEven(1999)), ".00");
  }

  lemma TwentyDollars()
    ensures IntToString(RoundHalfEven(1999)) + ".00" == "20.00"
  {
    assert RoundHalfEven(1999) == 20;
    assert IntToString(20) == NatToString(20) == "20";
  }

  /** Ties go to the even dollar: `$0.50` becomes "0.00" and `$2.50` becomes "2.00". */
  lemma HalfDollarsToEven()
    ensures RoundHalfEven(50) == 0 && RoundHalfEven(250) == 2 && RoundHalfEven(350) == 4
  {
  }
}
