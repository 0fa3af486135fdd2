/** The pieces of Python's `str` behaviour that the utilities rely on:
    repetition, joining, splitting on a separator, on whitespace and into
    lines, substring tests, decimal conversion both ways and code-point
    ordering. A string is a sequence of Unicode scalar values: Python's
    strings also admit lone surrogates, which these cannot hold. */
module Text {
  import opened Wrappers

  // ---------------------------------------------------------------------
  // Repetition and joining
  // ---------------------------------------------------------------------

  /** `s * n`: n copies of s, and the empty string when n is not positive. */
  function Repeat(s: string, n: int): (r: string)
    ensures |r| == if n <= 0 then 0 else |s| * n
    ensures n > 0 ==> s <= r
    ensures |s| > 0 ==> forall i | 0 <= i < |r| :: r[i] == s[i % |s|]
    decreases if n <= 0 then 0 else n
  {
    if n <= 0 then ""
    else
      var rest := Repeat(s, n - 1);
      PeriodicPrepend(s, rest);
      s + rest
  }

  /** Putting one more copy of s in front keeps the text periodic in s. */
  lemma PeriodicPrepend(s: string, rest: string)
    requires |s| > 0 ==> forall i | 0 <= i < |rest| :: rest[i] == s[i % |s|]
    ensures |s| > 0 ==> forall i | 0 <= i < |s + rest| :: (s + rest)[i] == s[i % |s|]
  {
    if |s| > 0 {
      var m := |s|;
      forall i | 0 <= i < |s + rest|
        ensures (s + rest)[i] == s[i % m]
      {
        if i < m {
          ModUnique(i, m, 0, i);
        } else {
          var j := i - m;
          assert (s + rest)[i] == rest[j];
          assert rest[j] == s[j % m];
          ModShift(j, m);
          assert j + m == i;
        }
      }
    }
  }

  lemma ModShift(i: nat, m: nat)
    requires m > 0
    ensures (i + m) % m == i % m
  {
    var q, r := i / m, i % m;
    assert i == q * m + r;
    assert i + m == (q + 1) * m + r;
    ModUnique(i + m, m, q + 1, r);
  }

  /** The remainder is the one r with x == q * m + r and 0 <= r < m. */
  lemma ModUnique(x: int, m: int, q: int, r: int)
    requires m > 0 && 0 <= r < m && x == q * m + r
    ensures x % m == r
  {
    var d := q - x / m;
    assert d * m == x % m - r;
  }

  /** `sep.join(xs)`. */
  function Join(xs: seq<string>, sep: string): string
  {
    if |xs| == 0 then ""
    else if |xs| == 1 then xs[0]
    else xs[0] + sep + Join(xs[1..], sep)
  }

  /** `s.count(c)` for a single character. */
  function Count(s: string, c: char): nat
  {
    if |s| == 0 then 0 else (if s[0] == c then 1 else 0) + Count(s[1..], c)
  }

  lemma {:induction false} CountAppend(a: string, b: string, c: char)
    ensures Count(a + b, c) == Count(a, c) + Count(b, c)
    decreases |a|
  {
    if |a| > 0 {
      assert (a + b)[1..] == a[1..] + b;
      CountAppend(a[1..], b, c);
    } else {
      assert a + b == b;
    }
  }

  lemma {:induction false} CountAbsent(s: string, c: char)
    requires c !in s
    ensures Count(s, c) == 0
    decreases |s|
  {
    if |s| > 0 {
      CountAbsent(s[1..], c);
    }
  }

  lemma {:induction false} CountPresent(s: string, c: char)
    requires c in s
    ensures Count(s, c) > 0
    decreases |s|
  {
    if s[0] != c {
      CountPresent(s[1..], c);
    }
  }

  /** Joining pieces with a one-character separator that none of them holds
      gives a text with exactly one separator between neighbouring pieces. */
  lemma {:induction false} JoinCount(xs: seq<string>, c: char)
    requires |xs| > 0
    requires forall i | 0 <= i < |xs| :: c !in xs[i]
    ensures Count(Join(xs, [c]), c) == |xs| - 1
    decreases |xs|
  {
    CountAbsent(xs[0], c);
    if |xs| > 1 {
      JoinCount(xs[1..], c);
      CountAppend(xs[0], [c], c);
      CountAppend(xs[0] + [c], Join(xs[1..], [c]), c);
    }
  }

  // ---------------------------------------------------------------------
  // str.split(sep) for a one-character separator
  // ---------------------------------------------------------------------

  /** `s.split(c)`: the pieces between occurrences of c, always at least one,
      empty pieces kept. */
  function SplitOn(s: string, c: char): (r: seq<string>)
    ensures |r| == Count(s, c) + 1
    ensures forall i | 0 <= i < |r| :: c !in r[i]
    ensures Join(r, [c]) == s
    decreases |s|
  {
    if |s| == 0 then [""]
    else
      var rest := SplitOn(s[1..], c);
      if s[0] == c then
        assert [c] + Join(rest, [c]) == s;
        [""] + rest
      else
        var r := [[s[0]] + rest[0]] + rest[1..];
        assert r[1..] == rest[1..];
        r
  }

  lemma {:induction false} SplitOnAbsent(s: string, c: char)
    requires c !in s
    ensures SplitOn(s, c) == [s]
  {
    CountAbsent(s, c);
  }

  lemma {:induction false} SplitOnFirst(a: string, b: string, c: char)
    requires c !in a
    ensures SplitOn(a + [c] + b, c) == [a] + SplitOn(b, c)
    decreases |a|
  {
    if |a| > 0 {
      assert (a + [c] + b)[1..] == a[1..] + [c] + b;
      SplitOnFirst(a[1..], b, c);
      assert [a[0]] + a[1..] == a;
    } else {
      assert (a + [c] + b)[1..] == b;
    }
  }

  /** Splitting undoes joining when no piece holds the separator. */
  lemma {:induction false} SplitOnJoin(xs: seq<string>, c: char)
    requires |xs| > 0
    requires forall i | 0 <= i < |xs| :: c !in xs[i]
    ensures SplitOn(Join(xs, [c]), c) == xs
    decreases |xs|
  {
    if |xs| == 1 {
      SplitOnAbsent(xs[0], c);
    } else {
      SplitOnJoin(xs[1..], c);
      SplitOnFirst(xs[0], Join(xs[1..], [c]), c);
      assert [xs[0]] + xs[1..] == xs;
    }
  }

  // ---------------------------------------------------------------------
  // str.split() with no argument
  // ---------------------------------------------------------------------

  /** The characters Python's `str.isspace()` accepts, which are the ones
      `str.split()` breaks on. */
  predicate IsSpace(c: char)
  {
    || c == ' ' || c == '\t' || c == '\n' || c == '\r'
    || c == '\U{B}' || c == '\U{C}'
    || ('\U{1C}' <= c <= '\U{1F}')
    || c == '\U{85}' || c == '\U{A0}' || c == '\U{1680}'
    || ('\U{2000}' <= c <= '\U{200A}')
    || c == '\U{2028}' || c == '\U{2029}' || c == '\U{202F}'
    || c == '\U{205F}' || c == '\U{3000}'
  }

  predicate NoSpace(s: string)
  {
    forall i | 0 <= i < |s| :: !IsSpace(s[i])
  }

  /** Length of the leading run of non-space characters. */
  function WordLength(s: string): (k: nat)
    ensures k <= |s|
    ensures NoSpace(s[..k])
    ensures k == |s| || IsSpace(s[k])
    decreases |s|
  {
    if |s| == 0 || IsSpace(s[0]) then 0
    else
      var k := 1 + WordLength(s[1..]);
      assert s[..k] == [s[0]] + s[1..][..k - 1];
      k
  }

  /** The non-space characters of s, in order. */
  function Squeeze(s: string): string
  {
    if |s| == 0 then "" else (if IsSpace(s[0]) then "" else [s[0]]) + Squeeze(s[1..])
  }

  function Concat(xs: seq<string>): string
  {
    if |xs| == 0 then "" else xs[0] + Concat(xs[1..])
  }

  lemma {:induction false} SqueezeAppend(a: string, b: string)
    ensures Squeeze(a + b) == Squeeze(a) + Squeeze(b)
    decreases |a|
  {
    if |a| > 0 {
      assert (a + b)[1..] == a[1..] + b;
      SqueezeAppend(a[1..], b);
    } else {
      assert a + b == b;
    }
  }

  lemma {:induction false} SqueezeWord(a: string)
    requires NoSpace(a)
    ensures Squeeze(a) == a
    decreases |a|
  {
    if |a| > 0 {
      SqueezeWord(a[1..]);
    }
  }

  /** `s.split()`: the maximal runs of non-space characters. Every token is
      non-empty and space-free, and together they hold exactly the non-space
      characters of s. */
  function Tokens(s: string): (r: seq<string>)
    ensures forall i | 0 <= i < |r| :: |r[i]| > 0 && NoSpace(r[i])
    ensures Concat(r) == Squeeze(s)
    decreases |s|
  {
    if |s| == 0 then []
    else if IsSpace(s[0]) then Tokens(s[1..])
    else
      var k := WordLength(s);
      var rest := Tokens(s[k..]);
      assert s == s[..k] + s[k..];
      SqueezeAppend(s[..k], s[k..]);
      SqueezeWord(s[..k]);
      [s[..k]] + rest
  }

  /** Tokenising undoes joining with single spaces. */
  lemma {:induction false} TokensOfJoin(ts: seq<string>)
    requires forall i | 0 <= i < |ts| :: |ts[i]| > 0 && NoSpace(ts[i])
    ensures Tokens(Join(ts, " ")) == ts
    decreases |ts|
  {
    if |ts| == 0 {
    } else if |ts| == 1 {
      TokensOfWord(ts[0], "");
      assert ts[0] + "" == ts[0];
    } else {
      var rest := Join(ts[1..], " ");
      TokensOfJoin(ts[1..]);
      assert Join(ts, " ") == ts[0] + (" " + rest);
      TokensOfWord(ts[0], " " + rest);
      assert (" " + rest)[1..] == rest;
      assert [ts[0]] + ts[1..] == ts;
    }
  }

  predicate AllSpace(s: string)
  {
    forall i | 0 <= i < |s| :: IsSpace(s[i])
  }

  /** Tokens laid out with whitespace runs: gaps[0] + ts[0] + gaps[1] + ... +
      ts[n-1] + gaps[n]. */
  function Spaced(gaps: seq<string>, ts: seq<string>): string
    requires |gaps| == |ts| + 1
    decreases |ts|
  {
    if |ts| == 0 then gaps[0] else gaps[0] + ts[0] + Spaced(gaps[1..], ts[1..])
  }

  /** `split()` recovers the tokens from any layout whose gaps are runs of
      whitespace, non-empty between two tokens and possibly empty at either
      end: several spaces between columns count as one separator. */
  lemma {:induction false} TokensOfSpaced(gaps: seq<string>, ts: seq<string>)
    requires |gaps| == |ts| + 1
    requires forall i | 0 <= i < |gaps| :: AllSpace(gaps[i])
    requires forall i | 0 < i < |ts| :: |gaps[i]| > 0
    requires forall i | 0 <= i < |ts| :: |ts[i]| > 0 && NoSpace(ts[i])
    ensures Tokens(Spaced(gaps, ts)) == ts
    decreases |ts|
  {
    if |ts| == 0 {
      TokensSkipSpace(gaps[0], "");
      assert gaps[0] + "" == gaps[0];
    } else {
      var rest := Spaced(gaps[1..], ts[1..]);
      assert Spaced(gaps, ts) == gaps[0] + (ts[0] + rest);
      TokensSkipSpace(gaps[0], ts[0] + rest);
      SpacedStart(gaps[1..], ts[1..]);
      if |ts| > 1 {
        assert gaps[1..][0] == gaps[1];
      }
      TokensOfWord(ts[0], rest);
      TokensOfSpaced(gaps[1..], ts[1..]);
      assert [ts[0]] + ts[1..] == ts;
    }
  }

  /** A layout starts with its first gap, so with whitespace if it is not
      empty. */
  lemma SpacedStart(gaps: seq<string>, ts: seq<string>)
    requires |gaps| == |ts| + 1
    requires AllSpace(gaps[0])
    requires |ts| > 0 ==> |gaps[0]| > 0
    ensures |Spaced(gaps, ts)| == 0 || IsSpace(Spaced(gaps, ts)[0])
  {
    if |gaps[0]| > 0 {
      assert Spaced(gaps, ts)[0] == gaps[0][0];
    }
  }

  /** Leading whitespace produces no token. */
  lemma {:induction false} TokensSkipSpace(g: string, rest: string)
    requires AllSpace(g)
    ensures Tokens(g + rest) == Tokens(rest)
    decreases |g|
  {
    if |g| > 0 {
      assert (g + rest)[1..] == g[1..] + rest;
      TokensSkipSpace(g[1..], rest);
    } else {
      assert g + rest == rest;
    }
  }

  lemma TokensOfWord(w: string, rest: string)
    requires |w| > 0 && NoSpace(w)
    requires |rest| == 0 || IsSpace(rest[0])
    ensures Tokens(w + rest) == [w] + Tokens(rest)
  {
    var s := w + rest;
    WordLengthOf(w, rest);
    assert s[..|w|] == w;
    assert s[|w|..] == rest;
  }

  lemma {:induction false} WordLengthOf(w: string, rest: string)
    requires NoSpace(w)
    requires |rest| == 0 || IsSpace(rest[0])
    ensures WordLength(w + rest) == |w|
    decreases |w|
  {
    if |w| > 0 {
      assert (w + rest)[1..] == w[1..] + rest;
      WordLengthOf(w[1..], rest);
    } else {
      assert w + rest == rest;
    }
  }

  // ---------------------------------------------------------------------
  // str.splitlines()
  // ---------------------------------------------------------------------

  /** The line boundaries `str.splitlines()` recognises ("\r\n" counts as one). */
  predicate IsLineBreak(c: char)
  {
    || c == '\n' || c == '\r' || c == '\U{B}' || c == '\U{C}'
    || c == '\U{1C}' || c == '\U{1D}' || c == '\U{1E}'
    || c == '\U{85}' || c == '\U{2028}' || c == '\U{2029}'
  }

  predicate NoLineBreak(s: string)
  {
    forall i | 0 <= i < |s| :: !IsLineBreak(s[i])
  }

  function LineLength(s: string): (k: nat)
    ensures k <= |s|
    ensures NoLineBreak(s[..k])
    ensures k == |s| || IsLineBreak(s[k])
    decreases |s|
  {
    if |s| == 0 || IsLineBreak(s[0]) then 0
    else
      var k := 1 + LineLength(s[1..]);
      assert s[..k] == [s[0]] + s[1..][..k - 1];
      k
  }

  /** Where the line break at LineLength(s) ends: "\r\n" is one break. */
  function BreakEnd(s: string): (next: nat)
    requires LineLength(s) < |s|
    ensures LineLength(s) < next <= |s|
    ensures next == LineLength(s) + 2 <==> s[LineLength(s)] == '\r' && next <= |s| && s[next - 1] == '\n'
  {
    var k := LineLength(s);
    if s[k] == '\r' && k + 1 < |s| && s[k + 1] == '\n' then k + 2 else k + 1
  }

  /** `s.splitlines()`: the lines of s without their terminators; a final
      terminator does not start a further empty line. */
  function Lines(s: string): (r: seq<string>)
    ensures forall i | 0 <= i < |r| :: NoLineBreak(r[i])
    ensures |r| <= |s|
    decreases |s|
  {
    if |s| == 0 then []
    else
      var k := LineLength(s);
      if k == |s| then [s]
      else
        var next := BreakEnd(s);
        [s[..k]] + Lines(s[next..])
  }

  /** A line terminator `splitlines()` removes: "\r\n" or one line-break
      character. */
  predicate IsTerminator(t: string)
  {
    t == "\r\n" || (|t| == 1 && IsLineBreak(t[0]))
  }

  /** The terminators `splitlines()` drops, in order: one after each line
      except a last line that runs to the end of the text. */
  function LineBreaks(s: string): (r: seq<string>)
    ensures forall i | 0 <= i < |r| :: IsTerminator(r[i])
    decreases |s|
  {
    if |s| == 0 then []
    else
      var k := LineLength(s);
      if k == |s| then []
      else
        var next := BreakEnd(s);
        [s[k..next]] + LineBreaks(s[next..])
  }

  /** The lines with their terminators put back; the last line may lack one. */
  function Unlines(ls: seq<string>, ts: seq<string>): string
    requires |ts| == |ls| || |ts| + 1 == |ls|
    decreases |ls|
  {
    if |ls| == 0 then ""
    else if |ts| == 0 then ls[0]
    else ls[0] + ts[0] + Unlines(ls[1..], ts[1..])
  }

  /** Every text is its lines with the dropped terminators put back; only a
      last line without a terminator is unterminated, and it is not empty. */
  lemma {:induction false} LinesReconstruct(s: string)
    ensures |LineBreaks(s)| == |Lines(s)| || |LineBreaks(s)| + 1 == |Lines(s)|
    ensures |LineBreaks(s)| + 1 == |Lines(s)| ==> |Lines(s)[|Lines(s)| - 1]| > 0
    ensures Unlines(Lines(s), LineBreaks(s)) == s
    decreases |s|
  {
    if |s| > 0 && LineLength(s) < |s| {
      var k, next := LineLength(s), BreakEnd(s);
      LinesReconstruct(s[next..]);
      LinesStep(s);
      UnlinesCons(s[..k], s[k..next], Lines(s[next..]), LineBreaks(s[next..]));
      SliceThree(s, k, next);
    }
  }

  lemma SliceThree(s: string, i: nat, j: nat)
    requires i <= j <= |s|
    ensures s == s[..i] + s[i..j] + s[j..]
  {
  }

  /** Lines and LineBreaks peel off the first line and its terminator. */
  lemma LinesStep(s: string)
    requires LineLength(s) < |s|
    ensures Lines(s) == [s[..LineLength(s)]] + Lines(s[BreakEnd(s)..])
    ensures LineBreaks(s) == [s[LineLength(s)..BreakEnd(s)]] + LineBreaks(s[BreakEnd(s)..])
  {
  }

  lemma UnlinesCons(l: string, t: string, ls: seq<string>, ts: seq<string>)
    requires |ts| == |ls| || |ts| + 1 == |ls|
    ensures Unlines([l] + ls, [t] + ts) == l + t + Unlines(ls, ts)
  {
    assert ([l] + ls)[1..] == ls && ([t] + ts)[1..] == ts;
  }

  /** Lines without breaks, each followed by a terminator except perhaps a
      non-empty last one, where no lone "\r" is followed by an empty line
      ended by "\n" (the two would read as one "\r\n"). */
  predicate Splittable(ls: seq<string>, ts: seq<string>)
  {
    && (|ts| == |ls| || (|ts| + 1 == |ls| && |ls[|ls| - 1]| > 0))
    && (forall i | 0 <= i < |ls| :: NoLineBreak(ls[i]))
    && (forall i | 0 <= i < |ts| :: IsTerminator(ts[i]))
    && (forall i | 0 <= i < |ts| - 1 :: ts[i] == "\r" && ls[i + 1] == "" ==> ts[i + 1] != "\n")
  }

  lemma SplittableTail(ls: seq<string>, ts: seq<string>)
    requires Splittable(ls, ts) && |ts| > 0
    ensures Splittable(ls[1..], ts[1..])
    ensures NoLineBreak(ls[0]) && IsTerminator(ts[0])
    ensures ts[0] == "\r" && |ls| > 1 && ls[1] == "" && |ts| > 1 ==> ts[1] != "\n"
  {
    assert forall i | 0 <= i < |ls| - 1 :: ls[1..][i] == ls[i + 1];
    assert forall i | 0 <= i < |ts| - 1 :: ts[1..][i] == ts[i + 1];
  }

  /** Lines and terminators in that shape split back into exactly those
      lines and terminators. */
  lemma {:induction false} LinesOfUnlines(ls: seq<string>, ts: seq<string>)
    requires Splittable(ls, ts)
    ensures Lines(Unlines(ls, ts)) == ls
    ensures LineBreaks(Unlines(ls, ts)) == ts
    decreases |ls|
  {
    if |ls| > 0 {
      if |ts| == 0 {
        LineLengthAll(ls[0]);
      } else {
        var rest := Unlines(ls[1..], ts[1..]);
        SplittableTail(ls, ts);
        NoPairAcrossLines(ls, ts);
        LinesCons(ls[0], ts[0], rest);
        LinesOfUnlines(ls[1..], ts[1..]);
        assert [ls[0]] + ls[1..] == ls;
        assert [ts[0]] + ts[1..] == ts;
      }
    }
  }

  /** After a lone "\r" the rest of the text does not start with "\n". */
  lemma NoPairAcrossLines(ls: seq<string>, ts: seq<string>)
    requires Splittable(ls, ts) && |ts| > 0
    ensures var rest := Unlines(ls[1..], ts[1..]);
            ts[0] == "\r" ==> |rest| == 0 || rest[0] != '\n'
  {
    var rest := Unlines(ls[1..], ts[1..]);
    SplittableTail(ls, ts);
    UnlinesStart(ls[1..], ts[1..]);
    if ts[0] == "\r" && |rest| > 0 && |ls[1]| == 0 {
      assert ls[1..][0] == ls[1];
      assert ts[1..][0] == ts[1] && ts[1] != "\n";
      assert IsTerminator(ts[1]);
      if |ts[1]| == 1 {
        assert ts[1] == [ts[1][0]];
      }
    }
  }

  /** One line and its terminator in front of a text add exactly that line
      and terminator, unless a lone "\r" would pair with a "\n" after it. */
  lemma LinesCons(l: string, t: string, rest: string)
    requires NoLineBreak(l) && IsTerminator(t)
    requires t == "\r" ==> |rest| == 0 || rest[0] != '\n'
    ensures Lines(l + t + rest) == [l] + Lines(rest)
    ensures LineBreaks(l + t + rest) == [t] + LineBreaks(rest)
  {
    var s := l + t + rest;
    assert s == l + (t + rest);
    LineLengthOf(l, t + rest);
    var k := |l|;
    var next := BreakEnd(s);
    if t == "\r\n" {
      assert s[k] == '\r' && s[k + 1] == '\n';
      assert next == k + 2;
    } else {
      assert s[k] == t[0];
      if |rest| > 0 {
        assert s[k + 1] == rest[0];
      }
      assert next == k + 1;
    }
    assert s[..k] == l;
    assert s[k..next] == t;
    assert s[next..] == rest;
  }

  /** What the rebuilt text starts with: the first line's first character,
      or, after an empty first line, its terminator's. */
  lemma UnlinesStart(ls: seq<string>, ts: seq<string>)
    requires Splittable(ls, ts)
    ensures |Unlines(ls, ts)| > 0 ==> |ls| > 0
    ensures |ls| > 0 && |ls[0]| > 0 ==> |Unlines(ls, ts)| > 0 && !IsLineBreak(Unlines(ls, ts)[0])
    ensures |ls| > 0 && |ls[0]| == 0 && |ts| > 0 ==>
      |ts[0]| > 0 && |Unlines(ls, ts)| > 0 && Unlines(ls, ts)[0] == ts[0][0]
  {
    if |ls| > 0 && |ts| > 0 {
      assert IsTerminator(ts[0]);
      assert Unlines(ls, ts) == ls[0] + (ts[0] + Unlines(ls[1..], ts[1..]));
    }
  }

  lemma {:induction false} LineLengthAll(l: string)
    requires NoLineBreak(l)
    ensures LineLength(l) == |l|
    decreases |l|
  {
    if |l| > 0 {
      LineLengthAll(l[1..]);
    }
  }

  /** Each line followed by "\n". */
  function Terminated(ls: seq<string>): string
  {
    if |ls| == 0 then "" else ls[0] + "\n" + Terminated(ls[1..])
  }

  /** Splitting newline-terminated lines gives the lines back. */
  lemma {:induction false} LinesOfTerminated(ls: seq<string>)
    requires forall i | 0 <= i < |ls| :: NoLineBreak(ls[i])
    ensures Lines(Terminated(ls)) == ls
    decreases |ls|
  {
    if |ls| > 0 {
      var l := ls[0];
      var rest := Terminated(ls[1..]);
      var s := l + "\n" + rest;
      LineLengthOf(l, "\n" + rest);
      assert s == l + ("\n" + rest);
      assert s[..|l|] == l;
      assert s[|l| + 1..] == rest;
      LinesOfTerminated(ls[1..]);
      assert [ls[0]] + ls[1..] == ls;
    }
  }

  lemma {:induction false} LineLengthOf(l: string, rest: string)
    requires NoLineBreak(l)
    requires |rest| > 0 && IsLineBreak(rest[0])
    ensures LineLength(l + rest) == |l|
    decreases |l|
  {
    if |l| > 0 {
      assert (l + rest)[1..] == l[1..] + rest;
      LineLengthOf(l[1..], rest);
    } else {
      assert l + rest == rest;
    }
  }

  // ---------------------------------------------------------------------
  // Substring test
  // ---------------------------------------------------------------------

  /** sub occurs in s starting at position i. */
  predicate OccursAt(s: string, sub: string, i: int)
  {
    0 <= i <= |s| - |sub| && s[i..i + |sub|] == sub
  }

  /** `sub in s`. */
  predicate Contains(s: string, sub: string)
    decreases |s|
  {
    sub <= s || (|s| > 0 && Contains(s[1..], sub))
  }

  /** `s.endswith(suffix)`. */
  predicate EndsWith(s: string, suffix: string)
  {
    |suffix| <= |s| && s[|s| - |suffix|..] == suffix
  }

  /** Three pieces put together start with the first and end with the last;
      they equal the first alone exactly when the other two are empty. */
  lemma ConcatEnds(a: string, b: string, c: string)
    ensures a <= a + b + c
    ensures EndsWith(a + b + c, c)
    ensures a + b + c == a <==> b == "" && c == ""
    ensures c == "" ==> a + b + c == a + b
  {
    var s := a + b + c;
    assert s[..|a|] == a;
    assert s[|s| - |c|..] == c;
    if c == "" {
      assert s == a + b;
    }
    if b == "" && c == "" {
      assert s == a;
    }
  }

  /** `sub in s` holds exactly when sub occurs at some position of s. */
  lemma {:induction false} ContainsAt(s: string, sub: string)
    ensures Contains(s, sub) <==> exists i :: OccursAt(s, sub, i)
    decreases |s|
  {
    if sub <= s {
      assert OccursAt(s, sub, 0);
    } else if |s| > 0 {
      ContainsAt(s[1..], sub);
      if Contains(s[1..], sub) {
        var i :| OccursAt(s[1..], sub, i);
        assert s[1..][i..i + |sub|] == s[i + 1..i + 1 + |sub|];
        assert OccursAt(s, sub, i + 1);
      }
      if exists i :: OccursAt(s, sub, i) {
        var i :| OccursAt(s, sub, i);
        if i > 0 {
          assert s[1..][i - 1..i - 1 + |sub|] == s[i..i + |sub|];
          assert OccursAt(s[1..], sub, i - 1);
        }
      }
    }
  }

  /** Every character of an occurring substring is a character of s. */
  lemma ContainsChar(s: string, sub: string, j: nat)
    requires Contains(s, sub) && j < |sub|
    ensures sub[j] in s
  {
    ContainsAt(s, sub);
    var i :| OccursAt(s, sub, i);
    assert s[i..i + |sub|][j] == s[i + j];
  }

  // ---------------------------------------------------------------------
  // Decimal text: str(n) and int(token)
  // ---------------------------------------------------------------------

  predicate IsDigit(c: char)
  {
    '0' <= c <= '9'
  }

  predicate AllDigits(s: string)
  {
    forall i | 0 <= i < |s| :: IsDigit(s[i])
  }

  function DigitChar(d: nat): (c: char)
    requires d < 10
    ensures IsDigit(c)
  {
    ('0' as int + d) as char
  }

  function DigitValue(c: char): nat
    requires IsDigit(c)
  {
    c as int - '0' as int
  }

  /** Decimal digits of n, without leading zeros. */
  function NatToString(n: nat): (r: string)
    ensures |r| > 0 && AllDigits(r)
    decreases n
  {
    if n < 10 then [DigitChar(n)] else NatToString(n / 10) + [DigitChar(n % 10)]
  }

  /** `str(n)` for a Python int. */
  function IntToString(n: int): string
  {
    if n < 0 then "-" + NatToString(-n) else NatToString(n)
  }

  /** Value of a digit string read most significant digit first. */
  function DigitsValue(s: string): nat
    requires AllDigits(s)
    decreases |s|
  {
    if |s| == 0 then 0 else DigitsValue(s[..|s| - 1]) * 10 + DigitValue(s[|s| - 1])
  }

  /** `int(token)` for a token without whitespace: an optional sign followed by
      one or more ASCII digits; anything else is a ValueError (None). */
  function ParseInt(tok: string): Option<int>
  {
    if |tok| > 0 && (tok[0] == '+' || tok[0] == '-') then
      var ds := tok[1..];
      if |ds| > 0 && AllDigits(ds) then
        var v: int := DigitsValue(ds);
        Some(if tok[0] == '-' then -v else v)
      else None
    else if |tok| > 0 && AllDigits(tok) then Some(DigitsValue(tok))
    else None
  }

  /** A character that is neither a digit nor a sign makes `int()` fail. */
  lemma ParseIntRejects(tok: string, i: nat)
    requires i < |tok| && !IsDigit(tok[i]) && tok[i] != '+' && tok[i] != '-'
    ensures ParseInt(tok).None?
  {
    if i > 0 {
      assert tok[1..][i - 1] == tok[i];
    }
  }

  lemma {:induction false} DigitsOfNat(n: nat)
    ensures DigitsValue(NatToString(n)) == n
    decreases n
  {
    var s := NatToString(n);
    if n >= 10 {
      DigitsOfNat(n / 10);
      assert s[..|s| - 1] == NatToString(n / 10);
    }
  }

  /** `int(str(n)) == n`: reading back the decimal text of an int gives it. */
  lemma ParseIntOfIntToString(n: int)
    ensures ParseInt(IntToString(n)) == Some(n)
  {
    if n < 0 {
      DigitsOfNat(-n);
      assert IntToString(n)[1..] == NatToString(-n);
    } else {
      DigitsOfNat(n);
    }
  }

  // ---------------------------------------------------------------------
  // Code-point order (Python's `<=` on str)
  // ---------------------------------------------------------------------

  /** a <= b in Python: compare code points left to right; a proper prefix
      comes first. */
  predicate Below(a: string, b: string)
    decreases |a|
  {
    |a| == 0 || (|b| > 0 && (a[0] < b[0] || (a[0] == b[0] && Below(a[1..], b[1..]))))
  }

  /** The textbook definition of the order: a is a prefix of b, or the first
      position where they differ holds a smaller code point in a. */
  lemma {:induction false} BelowIff(a: string, b: string)
    ensures Below(a, b) <==>
            (a <= b || exists k | 0 <= k < |a| && k < |b| :: a[..k] == b[..k] && a[k] < b[k])
    decreases |a|
  {
    if |a| > 0 && |b| > 0 {
      BelowIff(a[1..], b[1..]);
      if a[0] == b[0] {
        if exists k | 0 <= k < |a| - 1 && k < |b| - 1 :: a[1..][..k] == b[1..][..k] && a[1..][k] < b[1..][k] {
          var k :| 0 <= k < |a| - 1 && k < |b| - 1 && a[1..][..k] == b[1..][..k] && a[1..][k] < b[1..][k];
          assert a[..k + 1] == [a[0]] + a[1..][..k];
          assert b[..k + 1] == [b[0]] + b[1..][..k];
        }
        if exists k | 0 <= k < |a| && k < |b| :: a[..k] == b[..k] && a[k] < b[k] {
          var k :| 0 <= k < |a| && k < |b| && a[..k] == b[..k] && a[k] < b[k];
          assert k > 0;
          assert a[1..][..k - 1] == a[..k][1..];
          assert b[1..][..k - 1] == b[..k][1..];
        }
        if a[1..] <= b[1..] {
          assert a == [a[0]] + a[1..];
        }
        if a <= b {
          assert a[1..] <= b[1..];
        }
      } else {
        if a[0] < b[0] {
          assert a[..0] == b[..0];
        }
      }
    }
  }

  lemma {:induction false} BelowTotal(a: string, b: string)
    ensures Below(a, b) || Below(b, a)
    decreases |a|
  {
    if |a| > 0 && |b| > 0 && a[0] == b[0] {
      BelowTotal(a[1..], b[1..]);
    }
  }

  lemma {:induction false} BelowTransitive(a: string, b: string, c: string)
    requires Below(a, b) && Below(b, c)
    ensures Below(a, c)
    decreases |a|
  {
    if |a| > 0 && a[0] == b[0] && b[0] == c[0] {
      BelowTransitive(a[1..], b[1..], c[1..]);
    }
  }

  lemma {:induction false} BelowAntisymmetric(a: string, b: string)
    requires Below(a, b) && Below(b, a)
    ensures a == b
    decreases |a|
  {
    if |a| > 0 {
      BelowAntisymmetric(a[1..], b[1..]);
      assert a == [a[0]] + a[1..];
      assert b == [b[0]] + b[1..];
    }
  }
}
