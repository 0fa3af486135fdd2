/** Case-sensitive shell-style name matching, as `fnmatch.fnmatch` does it on a
    POSIX host: `*` matches any run of characters, `?` any one character,
    `[seq]` one character of the set and `[!seq]` one character outside it.
    Every other character, and a `[` with no closing `]`, stands for itself. */
module Glob {

  /** One member of a bracket set: a character or an inclusive range. A range
      whose ends are out of order holds nothing. */
  datatype ClassItem = Single(c: char) | Range(lo: char, hi: char)

  datatype Token =
    | Star
    | AnyChar
    | Lit(c: char)
    | Class(negated: bool, items: seq<ClassItem>)

  /** The first `]` at or after position j, or |p| when there is none. */
  function NextClose(p: string, j: nat): (k: nat)
    requires j <= |p|
    ensures j <= k <= |p|
    ensures k < |p| ==> p[k] == ']'
    ensures forall m | j <= m < k :: p[m] != ']'
    decreases |p| - j
  {
    if j == |p| || p[j] == ']' then j else NextClose(p, j + 1)
  }

  /** Where the set opened by a `[` just before position i ends: a leading `!`
      and then a leading `]` belong to the set itself. */
  function ClassClose(p: string, i: nat): (k: nat)
    requires i <= |p|
    ensures i <= k <= |p|
  {
    var j := if i < |p| && p[i] == '!' then i + 1 else i;
    var j' := if j < |p| && p[j] == ']' then j + 1 else j;
    NextClose(p, j')
  }

  /** The members of a bracket set's body: `a-b` is a range; a `-` that cannot
      join two characters is itself a member. */
  function ParseItems(body: string): seq<ClassItem>
    decreases |body|
  {
    if |body| == 0 then []
    else if |body| >= 3 && body[1] == '-' then [Range(body[0], body[2])] + ParseItems(body[3..])
    else [Single(body[0])] + ParseItems(body[1..])
  }

  function Parse(p: string): seq<Token>
    decreases |p|
  {
    if |p| == 0 then []
    else if p[0] == '*' then [Star] + Parse(p[1..])
    else if p[0] == '?' then [AnyChar] + Parse(p[1..])
    else if p[0] == '[' then
      var k := ClassClose(p, 1);
      if k == |p| then [Lit('[')] + Parse(p[1..])
      else
        var body := p[1..k];
        var negated := |body| > 0 && body[0] == '!';
        [Class(negated, ParseItems(if negated then body[1..] else body))] + Parse(p[k + 1..])
    else [Lit(p[0])] + Parse(p[1..])
  }

  predicate Holds(item: ClassItem, c: char)
  {
    match item
    case Single(d) => c == d
    case Range(lo, hi) => lo <= c <= hi
  }

  predicate InItems(items: seq<ClassItem>, c: char)
  {
    exists i | 0 <= i < |items| :: Holds(items[i], c)
  }

  predicate MatchTokens(ts: seq<Token>, s: string)
    decreases |ts| + |s|
  {
    if |ts| == 0 then |s| == 0
    else match ts[0]
      case Star => MatchTokens(ts[1..], s) || (|s| > 0 && MatchTokens(ts, s[1..]))
      case AnyChar => |s| > 0 && MatchTokens(ts[1..], s[1..])
      case Lit(c) => |s| > 0 && s[0] == c && MatchTokens(ts[1..], s[1..])
      case Class(negated, items) =>
        |s| > 0 && InItems(items, s[0]) != negated && MatchTokens(ts[1..], s[1..])
  }

  /** `fnmatch.fnmatch(name, pattern)` without case folding. */
  predicate Match(pattern: string, name: string)
  {
    MatchTokens(Parse(pattern), name)
  }

  /** The pattern holds none of the characters fnmatch treats specially. */
  predicate Plain(p: string)
  {
    forall i | 0 <= i < |p| :: p[i] != '*' && p[i] != '?' && p[i] != '['
  }

  function Lits(p: string): seq<Token>
  {
    if |p| == 0 then [] else [Lit(p[0])] + Lits(p[1..])
  }

  lemma {:induction false} ParsePlain(p: string)
    requires Plain(p)
    ensures Parse(p) == Lits(p)
    decreases |p|
  {
    if |p| > 0 {
      ParsePlain(p[1..]);
    }
  }

  lemma {:induction false} MatchLits(p: string, s: string)
    ensures MatchTokens(Lits(p), s) <==> s == p
    decreases |p|
  {
    if |p| > 0 {
      if |s| > 0 {
        MatchLits(p[1..], s[1..]);
        assert Lits(p)[1..] == Lits(p[1..]);
        if s[0] == p[0] && s[1..] == p[1..] {
          assert s == [s[0]] + s[1..];
          assert p == [p[0]] + p[1..];
        }
      }
    }
  }

  /** A pattern without metacharacters matches exactly the name it spells. */
  lemma PlainMatchesItself(p: string, s: string)
    requires Plain(p)
    ensures Match(p, s) <==> s == p
  {
    ParsePlain(p);
    MatchLits(p, s);
  }

  /** A leading `*` matches the rest of the pattern against any suffix. */
  lemma {:induction false} StarSkips(ts: seq<Token>, s: string)
    ensures MatchTokens([Star] + ts, s) <==> exists k | 0 <= k <= |s| :: MatchTokens(ts, s[k..])
    decreases |s|
  {
    var st := [Star] + ts;
    assert st[1..] == ts;
    assert s[0..] == s;
    if |s| > 0 {
      StarSkips(ts, s[1..]);
      if exists k | 0 <= k <= |s| - 1 :: MatchTokens(ts, s[1..][k..]) {
        var k :| 0 <= k <= |s| - 1 && MatchTokens(ts, s[1..][k..]);
        assert s[1..][k..] == s[k + 1..];
      }
      if exists k | 0 <= k <= |s| :: MatchTokens(ts, s[k..]) {
        var k :| 0 <= k <= |s| && MatchTokens(ts, s[k..]);
        if k > 0 {
          assert s[1..][k - 1..] == s[k..];
        }
      }
    } else {
      if exists k | 0 <= k <= |s| :: MatchTokens(ts, s[k..]) {
        var k :| 0 <= k <= |s| && MatchTokens(ts, s[k..]);
        assert s[k..] == s;
      }
    }
  }

  /** `*` alone matches every name, the empty one included. */
  lemma StarMatchesAll(s: string)
    ensures Match("*", s)
  {
    assert Parse("*") == [Star] + [];
    StarSkips([], s);
    assert MatchTokens([], s[|s|..]);
  }

  /** `*` followed by plain text (the `*.txt` shape) matches exactly the
      names that end with that text. */
  lemma StarSuffix(lit: string, s: string)
    requires Plain(lit)
    ensures Match("*" + lit, s) <==> (|lit| <= |s| && s[|s| - |lit|..] == lit)
  {
    var p := "*" + lit;
    assert p[1..] == lit;
    ParsePlain(lit);
    assert Parse(p) == [Star] + Lits(lit);
    StarSkips(Lits(lit), s);
    forall k | 0 <= k <= |s|
      ensures MatchTokens(Lits(lit), s[k..]) <==> s[k..] == lit
    {
      MatchLits(lit, s[k..]);
    }
    if |lit| <= |s| && s[|s| - |lit|..] == lit {
      assert MatchTokens(Lits(lit), s[|s| - |lit|..]);
    }
  }

  /** A bracket pattern does not match its own spelling: `[ab]` matches the
      one-character names `a` and `b` and not the name `[ab]`. */
  lemma BracketIsNotLiteral()
    ensures !Match("[ab]", "[ab]")
    ensures Match("[ab]", "a") && Match("[ab]", "b")
  {
    var items := [Single('a'), Single('b')];
    assert Parse("[ab]") == [Class(false, items)] by {
      assert ClassClose("[ab]", 1) == 3;
      assert "[ab]"[1..3] == "ab";
      assert ParseItems("ab") == items by {
        assert ParseItems("b") == [Single('b')];
      }
      assert "[ab]"[4..] == "";
    }
    assert !InItems(items, '[');
    assert InItems(items, 'a') by { assert items[0] == Single('a'); }
    assert InItems(items, 'b') by { assert items[1] == Single('b'); }
  }

  /** `?` matches exactly the one-character names. */
  lemma QuestionMatchesOne(s: string)
    ensures Match("?", s) <==> |s| == 1
  {
    assert Parse("?") == [AnyChar];
    assert [AnyChar][1..] == [];
    if |s| > 0 {
      assert MatchTokens([AnyChar], s) == MatchTokens([], s[1..]);
    }
  }

  /** A set body without `]` closes at the `]` that follows it. */
  lemma CloseAfter(p: string, j: nat, n: nat)
    requires j + n < |p| && p[j + n] == ']'
    requires forall m | j <= m < j + n :: p[m] != ']'
    ensures NextClose(p, j) == j + n
  {
  }

  /** A `[` whose set closes at k parses to one set token. */
  lemma ParseSet(p: string, k: nat, body: string)
    requires |p| > 0 && p[0] == '['
    requires ClassClose(p, 1) == k < |p| && body == p[1..k]
    ensures Parse(p) ==
      [Class(|body| > 0 && body[0] == '!',
             ParseItems(if |body| > 0 && body[0] == '!' then body[1..] else body))] + Parse(p[k + 1..])
  {
  }

  /** `[seq]` matches a one-character name exactly when the character is one
      of the set's members or lies in one of its ranges. */
  lemma ClassMatch(body: string, c: char)
    requires |body| > 0 && body[0] != '!' && body[0] != ']'
    requires forall i | 0 <= i < |body| :: body[i] != ']'
    ensures Match("[" + body + "]", [c]) <==> InItems(ParseItems(body), c)
  {
    var p := "[" + body + "]";
    var n := |body|;
    assert p[1] == body[0];
    CloseAfter(p, 1, n);
    assert ClassClose(p, 1) == n + 1;
    ParseSet(p, n + 1, body);
    assert p[n + 2..] == "";
    ClassOnOneChar(false, ParseItems(body), c);
  }

  /** `[!seq]` matches a one-character name exactly when the character is
      neither a member of the set nor in one of its ranges. */
  lemma NegatedClassMatch(body: string, c: char)
    requires |body| > 0 && body[0] != ']'
    requires forall i | 0 <= i < |body| :: body[i] != ']'
    ensures Match("[!" + body + "]", [c]) <==> !InItems(ParseItems(body), c)
  {
    var p := "[!" + body + "]";
    NegatedSetParse(body);
    assert Parse(p) == [Class(true, ParseItems(body))];
    ClassOnOneChar(true, ParseItems(body), c);
  }

  lemma NegatedSetParse(body: string)
    requires |body| > 0 && body[0] != ']'
    requires forall i | 0 <= i < |body| :: body[i] != ']'
    ensures Parse("[!" + body + "]") == [Class(true, ParseItems(body))] + Parse("")
  {
    NegatedSetCloses(body);
    ParseNegatedSet("[!" + body + "]", |body| + 2, body);
  }

  lemma ParseNegatedSet(p: string, k: nat, body: string)
    requires |p| > 0 && p[0] == '['
    requires ClassClose(p, 1) == k < |p| && p[1..k] == "!" + body
    ensures Parse(p) == [Class(true, ParseItems(body))] + Parse(p[k + 1..])
  {
    var b := "!" + body;
    assert b[0] == '!' && b[1..] == body;
    ParseSet(p, k, b);
  }

  lemma NegatedSetCloses(body: string)
    requires |body| > 0 && body[0] != ']'
    requires forall i | 0 <= i < |body| :: body[i] != ']'
    ensures var p := "[!" + body + "]";
            && ClassClose(p, 1) == |body| + 2
            && p[1..|body| + 2] == "!" + body
            && p[|body| + 3..] == ""
  {
    var p := "[!" + body + "]";
    assert p[1] == '!' && p[2] == body[0];
    CloseAfter(p, 2, |body|);
    assert p[1..|body| + 2] == "!" + body;
  }

  /** `[!seq]` is the complement of `[seq]` on one-character names. */
  lemma NegatedClass(body: string, c: char)
    requires |body| > 0 && body[0] != '!' && body[0] != ']'
    requires forall i | 0 <= i < |body| :: body[i] != ']'
    ensures Match("[!" + body + "]", [c]) <==> !Match("[" + body + "]", [c])
  {
    ClassMatch(body, c);
    NegatedClassMatch(body, c);
  }

  /** A set without `-` holds exactly its own characters. */
  lemma {:induction false} ItemsWithoutRanges(body: string, c: char)
    requires forall i | 0 <= i < |body| :: body[i] != '-'
    ensures InItems(ParseItems(body), c) <==> c in body
    decreases |body|
  {
    if |body| > 0 {
      if |body| >= 3 {
        assert body[1] != '-';
      }
      var rest := ParseItems(body[1..]);
      assert ParseItems(body) == [Single(body[0])] + rest;
      ItemsWithoutRanges(body[1..], c);
      InItemsCons(Single(body[0]), rest, c);
      assert body == [body[0]] + body[1..];
    }
  }

  /** `[lo-hi]` matches a one-character name exactly when it lies between the
      two ends, both included. */
  lemma RangeMatch(lo: char, hi: char, c: char)
    requires lo != '!' && lo != ']' && hi != ']'
    ensures Match(['[', lo, '-', hi, ']'], [c]) <==> lo <= c <= hi
  {
    var body := [lo, '-', hi];
    assert ['[', lo, '-', hi, ']'] == "[" + body + "]";
    ClassMatch(body, c);
    assert body[3..] == [];
    assert ParseItems(body) == [Range(lo, hi)] + [];
    InItemsCons(Range(lo, hi), [], c);
  }

  lemma InItemsCons(item: ClassItem, rest: seq<ClassItem>, c: char)
    ensures InItems([item] + rest, c) <==> Holds(item, c) || InItems(rest, c)
  {
    var items := [item] + rest;
    if InItems(rest, c) {
      var i :| 0 <= i < |rest| && Holds(rest[i], c);
      assert items[i + 1] == rest[i];
    }
    if InItems(items, c) {
      var i :| 0 <= i < |items| && Holds(items[i], c);
      if i > 0 {
        assert rest[i - 1] == items[i];
      }
    }
    assert items[0] == item;
  }

  lemma ClassOnOneChar(negated: bool, items: seq<ClassItem>, c: char)
    ensures MatchTokens([Class(negated, items)], [c]) <==> InItems(items, c) != negated
  {
    var ts := [Class(negated, items)];
    assert ts[1..] == [] && [c][1..] == [];
    assert MatchTokens(ts, [c]) == (InItems(items, c) != negated && MatchTokens([], []));
  }

  /** An unclosed `[` is an ordinary character. */
  lemma UnclosedBracket()
    ensures Match("[a", "[a")
  {
    assert Plain("a");
    assert ClassClose("[a", 1) == 2;
    assert Parse("[a") == [Lit('[')] + Parse("a");
    assert "[a"[1..] == "a";
    ParsePlain("a");
    MatchLits("a", "a");
  }
}
