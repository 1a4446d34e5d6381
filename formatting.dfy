/**
 * The punctuation fixer for downloaded translation texts.
 *
 * Six two-character patterns are searched for, each in turn, in a fixed
 * order: a colon directly followed by an em dash, and each of `. , ; ? !`
 * directly followed by a Cyrillic letter. Every occurrence gets one space
 * inserted between its two characters, and the number of occurrences of
 * each pattern is recorded under the pattern's name.
 *
 * A regular-expression search is modelled as the left-to-right,
 * non-overlapping scan it performs: at a match the scan resumes after the
 * two matched characters, otherwise after one.
 */
module Formatting {

  /** The character class `[А-Яа-яЁё]`: the ranges U+0410..U+042F and
      U+0430..U+044F, plus Ё (U+0401) and ё (U+0451). */
  function IsCyrillic(c: char): (b: bool)
    ensures b ==> '\U{0401}' <= c <= '\U{0451}'
  {
    || ('\U{0410}' <= c && c <= '\U{042F}')
    || ('\U{0430}' <= c && c <= '\U{044F}')
    || c == '\U{0401}'
    || c == '\U{0451}'
  }

  const EM_DASH: char := '\U{2014}'

  /** What the second character of a pattern must be. */
  datatype Follower = EmDash | CyrillicLetter

  predicate Accepts(f: Follower, c: char) {
    match f
    case EmDash => c == EM_DASH
    case CyrillicLetter => IsCyrillic(c)
  }

  /** A pattern: `lead` immediately followed by a character that `follower`
      accepts. Its replacement keeps both characters and puts one space
      between them (for colon-dash this is the literal ": —"). */
  datatype Pattern = Pattern(lead: char, follower: Follower, name: string)

  predicate Hit(p: Pattern, a: char, b: char) {
    a == p.lead && Accepts(p.follower, b)
  }

  /** The pattern table, in the order in which the patterns are applied. */
  const PATTERNS: seq<Pattern> := [
    Pattern(':', EmDash, "colon-dash"),
    Pattern('.', CyrillicLetter, "period"),
    Pattern(',', CyrillicLetter, "comma"),
    Pattern(';', CyrillicLetter, "semicolon"),
    Pattern('?', CyrillicLetter, "question"),
    Pattern('!', CyrillicLetter, "exclamation")
  ]

  /** The pattern names, in table order: the keys `fix_text` may record. */
  const NAMES: seq<string> := [
    PATTERNS[0].name, PATTERNS[1].name, PATTERNS[2].name,
    PATTERNS[3].name, PATTERNS[4].name, PATTERNS[5].name
  ]

  /** A pattern whose replacement can never create a new occurrence of any
      pattern of this kind: the inserted space is neither a lead nor a
      follower, and a follower is never the lead again. */
  predicate WellFormed(p: Pattern) {
    p.lead != ' ' && !Accepts(p.follower, ' ') && !Accepts(p.follower, p.lead)
  }

  lemma PatternTable()
    ensures |PATTERNS| == |NAMES| == 6
    ensures forall j :: 0 <= j < |PATTERNS| ==> WellFormed(PATTERNS[j]) && NAMES[j] == PATTERNS[j].name
    ensures forall i, j :: 0 <= i < j < |NAMES| ==> NAMES[i] != NAMES[j]
  {
  }

  /** `p` occurs nowhere in `s`. */
  predicate NoMatch(p: Pattern, s: string) {
    forall i :: 0 <= i < |s| - 1 ==> !Hit(p, s[i], s[i + 1])
  }

  /** None of the listed formatting issues occurs in `s`. */
  predicate NoIssue(s: string) {
    forall j :: 0 <= j < |PATTERNS| ==> NoMatch(PATTERNS[j], s)
  }

  /** The number of matches `re.findall` reports: a non-overlapping scan. */
  function CountMatches(p: Pattern, s: string): (n: nat)
    ensures n <= |s| / 2
  {
    if |s| < 2 then 0
    else if Hit(p, s[0], s[1]) then 1 + CountMatches(p, s[2..])
    else CountMatches(p, s[1..])
  }

  /** The text `re.sub` produces: every match found by the same scan gets a
      space between its two characters. */
  function Substitute(p: Pattern, s: string): (r: string)
    ensures |r| == |s| + CountMatches(p, s)
    ensures |s| > 0 ==> r[0] == s[0]
  {
    if |s| < 2 then s
    else if Hit(p, s[0], s[1]) then [s[0], ' ', s[1]] + Substitute(p, s[2..])
    else [s[0]] + Substitute(p, s[1..])
  }

  lemma NoMatchCons(p: Pattern, a: char, t: string)
    ensures NoMatch(p, [a] + t) <==> (t == [] || !Hit(p, a, t[0])) && NoMatch(p, t)
  {
    var s := [a] + t;
    assert forall i :: 0 <= i < |t| ==> s[i + 1] == t[i];
    if NoMatch(p, s) {
      if t != [] {
        assert !Hit(p, s[0], s[1]);
      }
      forall i | 0 <= i < |t| - 1
        ensures !Hit(p, t[i], t[i + 1])
      {
        assert s[i + 1] == t[i] && s[i + 2] == t[i + 1];
      }
    }
  }

  /** The scan finds no match exactly when the pattern occurs nowhere. */
  lemma {:induction false} CountZeroIffNoMatch(p: Pattern, s: string)
    ensures CountMatches(p, s) == 0 <==> NoMatch(p, s)
  {
    if |s| >= 2 {
      if !Hit(p, s[0], s[1]) {
        CountZeroIffNoMatch(p, s[1..]);
        NoMatchCons(p, s[0], s[1..]);
        assert [s[0]] + s[1..] == s;
      }
    }
  }

  /** After substituting a well-formed pattern, it occurs nowhere. */
  lemma {:induction false} SubstituteClears(p: Pattern, s: string)
    requires WellFormed(p)
    ensures NoMatch(p, Substitute(p, s))
  {
    if |s| >= 2 {
      if Hit(p, s[0], s[1]) {
        var t := Substitute(p, s[2..]);
        SubstituteClears(p, s[2..]);
        NoMatchCons(p, s[1], t);
        NoMatchCons(p, ' ', [s[1]] + t);
        NoMatchCons(p, s[0], [' '] + ([s[1]] + t));
        assert [s[0], ' ', s[1]] + t == [s[0]] + ([' '] + ([s[1]] + t));
      } else {
        SubstituteClears(p, s[1..]);
        NoMatchCons(p, s[0], Substitute(p, s[1..]));
      }
    }
  }

  /** Substituting any pattern never creates an occurrence of a well-formed
      pattern that was absent. */
  lemma {:induction false} SubstituteKeepsNoMatch(p: Pattern, q: Pattern, s: string)
    requires WellFormed(q) && NoMatch(q, s)
    ensures NoMatch(q, Substitute(p, s))
  {
    if |s| >= 2 {
      NoMatchCons(q, s[0], s[1..]);
      assert [s[0]] + s[1..] == s;
      if Hit(p, s[0], s[1]) {
        NoMatchCons(q, s[1], s[2..]);
        assert [s[1]] + s[2..] == s[1..];
        var t := Substitute(p, s[2..]);
        SubstituteKeepsNoMatch(p, q, s[2..]);
        NoMatchCons(q, s[1], t);
        NoMatchCons(q, ' ', [s[1]] + t);
        NoMatchCons(q, s[0], [' '] + ([s[1]] + t));
        assert [s[0], ' ', s[1]] + t == [s[0]] + ([' '] + ([s[1]] + t));
      } else {
        SubstituteKeepsNoMatch(p, q, s[1..]);
        NoMatchCons(q, s[0], Substitute(p, s[1..]));
      }
    }
  }

  /** `a` can be obtained from `b` by deleting characters. */
  predicate IsSubsequence(a: string, b: string)
    decreases |b|
  {
    || a == []
    || (b != [] && ((a[0] == b[0] && IsSubsequence(a[1..], b[1..])) || IsSubsequence(a, b[1..])))
  }

  lemma {:induction false} SubsequenceReflexive(s: string)
    ensures IsSubsequence(s, s)
  {
    if s != [] {
      SubsequenceReflexive(s[1..]);
    }
  }

  lemma {:induction false} SubsequenceTransitive(a: string, b: string, c: string)
    requires IsSubsequence(a, b) && IsSubsequence(b, c)
    ensures IsSubsequence(a, c)
    decreases |c|
  {
    if a != [] {
      if IsSubsequence(b, c[1..]) {
        SubsequenceTransitive(a, b, c[1..]);
      } else if a[0] == b[0] && IsSubsequence(a[1..], b[1..]) {
        SubsequenceTransitive(a[1..], b[1..], c[1..]);
      } else {
        SubsequenceTransitive(a, b[1..], c[1..]);
      }
    }
  }

  /** A substitution only inserts characters: the input survives, in order. */
  lemma {:induction false} SubstituteKeepsOriginal(p: Pattern, s: string)
    ensures IsSubsequence(s, Substitute(p, s))
  {
    if |s| < 2 {
      SubsequenceReflexive(s);
    } else if Hit(p, s[0], s[1]) {
      var t := Substitute(p, s[2..]);
      var r := [s[0], ' ', s[1]] + t;
      SubstituteKeepsOriginal(p, s[2..]);
      assert s[1..][1..] == s[2..];
      assert ([s[1]] + t)[1..] == t;
      assert IsSubsequence(s[1..], [s[1]] + t);
      assert r[1..][1..] == [s[1]] + t;
      assert IsSubsequence(s[1..], r[1..]);
    } else {
      var t := Substitute(p, s[1..]);
      SubstituteKeepsOriginal(p, s[1..]);
      assert ([s[0]] + t)[1..] == t;
    }
  }

  /** The last character of a text is never moved away from the end. */
  lemma {:induction false} SubstituteLast(p: Pattern, s: string)
    requires s != []
    ensures Substitute(p, s)[|Substitute(p, s)| - 1] == s[|s| - 1]
  {
    if |s| >= 2 {
      if Hit(p, s[0], s[1]) {
        if |s| > 2 {
          SubstituteLast(p, s[2..]);
        }
      } else {
        SubstituteLast(p, s[1..]);
      }
    }
  }

  /** Across an adjacent pair that is not a match, the scan works on both
      sides independently. */
  lemma {:induction false} SubstituteSplit(p: Pattern, u: string, v: string)
    requires u != [] && v != [] && !Hit(p, u[|u| - 1], v[0])
    ensures Substitute(p, u + v) == Substitute(p, u) + Substitute(p, v)
  {
    var s := u + v;
    if |u| == 1 {
      assert s[1..] == v;
    } else if Hit(p, u[0], u[1]) {
      assert s[2..] == u[2..] + v;
      if |u| > 2 {
        SubstituteSplit(p, u[2..], v);
      }
    } else {
      assert s[1..] == u[1..] + v;
      SubstituteSplit(p, u[1..], v);
    }
  }

  /** A text in which the scan finds nothing is left as it is. */
  lemma {:induction false} SubstituteNoCount(p: Pattern, s: string)
    requires CountMatches(p, s) == 0
    ensures Substitute(p, s) == s
  {
    if |s| >= 2 {
      SubstituteNoCount(p, s[1..]);
      assert [s[0]] + s[1..] == s;
    }
  }

  /** An adjacent pair `a`, `b` that is not a match stays in place: the
      output is the substituted text up to `a`, which still ends with `a`,
      directly followed by the substituted text from `b`, which still
      starts with `b`. */
  lemma SubstituteKeepsPair(p: Pattern, u: string, a: char, b: char, v: string)
    requires !Hit(p, a, b)
    ensures Substitute(p, u + [a, b] + v) == Substitute(p, u + [a]) + Substitute(p, [b] + v)
    ensures Substitute(p, u + [a])[|Substitute(p, u + [a])| - 1] == a
    ensures Substitute(p, [b] + v)[0] == b
  {
    assert u + [a, b] + v == (u + [a]) + ([b] + v);
    SubstituteSplit(p, u + [a], [b] + v);
    SubstituteLast(p, u + [a]);
  }

  /** `t` is `s` with `n` spaces added. */
  predicate SpacesAdded(s: string, t: string, n: nat) {
    multiset(t) == multiset(s)[' ' := multiset(s)[' '] + n]
  }

  /** Putting the same character in front of both texts keeps the added
      spaces. */
  lemma SpacesAddedPrepend(a: char, s: string, t: string, n: nat)
    requires SpacesAdded(s, t, n)
    ensures SpacesAdded([a] + s, [a] + t, n)
  {
    var ms, mt := multiset(s), multiset(t);
    assert multiset([a] + s) == multiset{a} + ms;
    assert multiset([a] + t) == multiset{a} + mt;
    forall c | c in multiset{a} + mt || c in (multiset{a} + ms)[' ' := ms[' '] + n]
      ensures (multiset{a} + mt)[c] == (multiset{a} + ms)[' ' := (multiset{a} + ms)[' '] + n][c]
    {
    }
  }

  /** Putting a space in front of the longer text adds one more space. */
  lemma SpacesAddedSpace(s: string, t: string, n: nat)
    requires SpacesAdded(s, t, n)
    ensures SpacesAdded(s, [' '] + t, n + 1)
  {
    var ms, mt := multiset(s), multiset(t);
    assert multiset([' '] + t) == multiset{' '} + mt;
    forall c | c in multiset{' '} + mt || c in ms
      ensures (multiset{' '} + mt)[c] == ms[' ' := ms[' '] + n + 1][c]
    {
    }
  }

  /** Spaces added in two steps add up. */
  lemma SpacesAddedTrans(s: string, t: string, u: string, m: nat, n: nat)
    requires SpacesAdded(s, t, m) && SpacesAdded(t, u, n)
    ensures SpacesAdded(s, u, m + n)
  {
  }

  /** A text starting with a match `a`, `b` becomes `a`, space, `b`
      followed by the rest with its spaces added. */
  lemma SpacesAddedHit(s: string, t: string, n: nat)
    requires |s| >= 2 && SpacesAdded(s[2..], t, n)
    ensures SpacesAdded(s, [s[0], ' ', s[1]] + t, n + 1)
  {
    var a, b := s[0], s[1];
    SpacesAddedPrepend(b, s[2..], t, n);
    SpacesAddedSpace([b] + s[2..], [b] + t, n);
    SpacesAddedPrepend(a, [b] + s[2..], [' '] + ([b] + t), n + 1);
    assert s == [a] + ([b] + s[2..]);
    assert [a, ' ', b] + t == [a] + ([' '] + ([b] + t));
  }

  /** A text whose first character is not a match start keeps that
      character in front. */
  lemma SpacesAddedCons(s: string, t: string, n: nat)
    requires |s| >= 1 && SpacesAdded(s[1..], t, n)
    ensures SpacesAdded(s, [s[0]] + t, n)
  {
    SpacesAddedPrepend(s[0], s[1..], t, n);
    assert s == [s[0]] + s[1..];
  }

  /** Every character a substitution adds is a space, one per match. */
  lemma {:induction false} SubstituteInsertsSpaces(p: Pattern, s: string)
    ensures SpacesAdded(s, Substitute(p, s), CountMatches(p, s))
  {
    if |s| < 2 {
      assert multiset(s)[' ' := multiset(s)[' ']] == multiset(s);
    } else if Hit(p, s[0], s[1]) {
      SubstituteInsertsSpaces(p, s[2..]);
      SpacesAddedHit(s, Substitute(p, s[2..]), CountMatches(p, s[2..]));
    } else {
      SubstituteInsertsSpaces(p, s[1..]);
      SpacesAddedCons(s, Substitute(p, s[1..]), CountMatches(p, s[1..]));
    }
  }



  /** The text and the statistics of `fix_text`. */
  datatype Fixed = Fixed(text: string, stats: map<string, nat>)

  /** The state of `fix_text` after the first `k` patterns of the table were
      applied to `text`, each once and in table order; a pattern is applied,
      and recorded, only when it matched. */
  function FixStage(text: string, k: nat): (r: Fixed)
    requires k <= |PATTERNS|
    ensures |r.text| >= |text|
  {
    if k == 0 then Fixed(text, map[])
    else
      var prev := FixStage(text, k - 1);
      var p := PATTERNS[k - 1];
      var count := CountMatches(p, prev.text);
      if count > 0 then Fixed(Substitute(p, prev.text), prev.stats[p.name := count]) else prev
  }

  /** What `fix_text` returns. */
  function FixSpec(text: string): (r: Fixed)
    ensures NoIssue(r.text)
    ensures |r.text| >= |text|
  {
    StageClears(text, |PATTERNS|);
    FixStage(text, |PATTERNS|)
  }

  /** Sum of the counts `m` holds for the names in `ns`. */
  function SumOver(ns: seq<string>, m: map<string, nat>): nat {
    if ns == [] then 0 else SumOver(ns[..|ns| - 1], m) + Get(m, ns[|ns| - 1])
  }

  function Get(m: map<string, nat>, key: string): nat {
    if key in m then m[key] else 0
  }

  /** Total number of fixes a statistics map records. */
  function TotalFixes(stats: map<string, nat>): nat {
    SumOver(NAMES, stats)
  }

  lemma {:induction false} SumOverOtherKey(ns: seq<string>, m: map<string, nat>, key: string, v: nat)
    requires key !in ns
    ensures SumOver(ns, m[key := v]) == SumOver(ns, m)
  {
    if ns != [] {
      SumOverOtherKey(ns[..|ns| - 1], m, key, v);
    }
  }

  lemma {:induction false} SumOverPositive(ns: seq<string>, m: map<string, nat>, key: string)
    requires key in ns && Get(m, key) > 0
    ensures SumOver(ns, m) > 0
  {
    if ns[|ns| - 1] != key {
      assert key in ns[..|ns| - 1] by {
        var i :| 0 <= i < |ns| && ns[i] == key;
        assert ns[..|ns| - 1][i] == key;
      }
      SumOverPositive(ns[..|ns| - 1], m, key);
    }
  }

  /** Only the names of applied patterns are recorded, each with a positive
      count. */
  lemma {:induction false} StageKeys(text: string, k: nat)
    requires k <= |PATTERNS|
    ensures forall n :: n in FixStage(text, k).stats ==> n in NAMES[..k] && FixStage(text, k).stats[n] > 0
  {
    if k > 0 {
      StageKeys(text, k - 1);
      assert forall n :: n in NAMES[..k - 1] ==> n in NAMES[..k];
      assert PATTERNS[k - 1].name == NAMES[k - 1] == NAMES[..k][k - 1];
    }
  }

  /** A name is recorded exactly when its pattern matched the text as it
      stood when that pattern was applied, and then with that number of
      matches (`Get` reads an absent name as 0). */
  lemma {:induction false} StageStats(text: string, k: nat)
    requires k <= |PATTERNS|
    ensures forall j :: 0 <= j < k ==>
      Get(FixStage(text, k).stats, NAMES[j]) == CountMatches(PATTERNS[j], FixStage(text, j).text)
  {
    if k > 0 {
      PatternTable();
      StageStats(text, k - 1);
      StageKeys(text, k - 1);
      var prev := FixStage(text, k - 1);
      var cur := FixStage(text, k);
      var p := PATTERNS[k - 1];
      assert p.name == NAMES[k - 1];
      assert p.name !in prev.stats;
      forall j | 0 <= j < k - 1
        ensures Get(cur.stats, NAMES[j]) == Get(prev.stats, NAMES[j])
      {
        assert NAMES[j] != p.name;
      }
    }
  }

  /** Each fix inserts exactly one character: the output is longer than the
      input by the total of the recorded counts. */
  lemma {:induction false} StageLength(text: string, k: nat)
    requires k <= |PATTERNS|
    ensures |FixStage(text, k).text| == |text| + SumOver(NAMES[..k], FixStage(text, k).stats)
  {
    if k > 0 {
      PatternTable();
      StageLength(text, k - 1);
      StageKeys(text, k - 1);
      var prev := FixStage(text, k - 1);
      var cur := FixStage(text, k);
      var before := NAMES[..k - 1];
      var name := NAMES[k - 1];
      assert NAMES[..k][..k - 1] == before;
      assert SumOver(NAMES[..k], cur.stats) == SumOver(before, cur.stats) + Get(cur.stats, name);
      assert name !in prev.stats;
      var count := CountMatches(PATTERNS[k - 1], prev.text);
      if count > 0 {
        SumOverOtherKey(before, prev.stats, name, count);
      }
    }
  }

  /** The input text survives every stage, in order. */
  lemma {:induction false} StageKeepsOriginal(text: string, k: nat)
    requires k <= |PATTERNS|
    ensures IsSubsequence(text, FixStage(text, k).text)
  {
    if k == 0 {
      SubsequenceReflexive(text);
    } else {
      StageKeepsOriginal(text, k - 1);
      var prev := FixStage(text, k - 1).text;
      var p := PATTERNS[k - 1];
      if CountMatches(p, prev) > 0 {
        SubstituteKeepsOriginal(p, prev);
        SubsequenceTransitive(text, prev, Substitute(p, prev));
      }
    }
  }

  /** After `k` stages, none of the first `k` patterns occurs. */
  lemma {:induction false} StageClears(text: string, k: nat)
    requires k <= |PATTERNS|
    ensures forall j :: 0 <= j < k ==> NoMatch(PATTERNS[j], FixStage(text, k).text)
  {
    PatternTable();
    if k > 0 {
      StageClears(text, k - 1);
      var prev := FixStage(text, k - 1).text;
      var p := PATTERNS[k - 1];
      if CountMatches(p, prev) > 0 {
        SubstituteClears(p, prev);
        forall j | 0 <= j < k - 1
          ensures NoMatch(PATTERNS[j], Substitute(p, prev))
        {
          SubstituteKeepsNoMatch(p, PATTERNS[j], prev);
        }
      } else {
        CountZeroIffNoMatch(p, prev);
      }
    }
  }

  /** Every stage keeps the first and the last character of the text. */
  lemma {:induction false} StageEnds(text: string, k: nat)
    requires k <= |PATTERNS| && text != []
    ensures var out := FixStage(text, k).text;
      out != [] && out[0] == text[0] && out[|out| - 1] == text[|text| - 1]
  {
    if k > 0 {
      StageEnds(text, k - 1);
      var prev := FixStage(text, k - 1).text;
      var p := PATTERNS[k - 1];
      var out := FixStage(text, k).text;
      if CountMatches(p, prev) > 0 {
        assert out == Substitute(p, prev);
        SubstituteLast(p, prev);
      } else {
        assert out == prev;
      }
    }
  }

  /** Across an adjacent pair that no pattern matches, every stage works on
      both sides independently. */
  lemma {:induction false} StageSplit(u: string, v: string, k: nat)
    requires k <= |PATTERNS| && u != [] && v != []
    requires forall j :: 0 <= j < |PATTERNS| ==> !Hit(PATTERNS[j], u[|u| - 1], v[0])
    ensures FixStage(u + v, k).text == FixStage(u, k).text + FixStage(v, k).text
  {
    if k > 0 {
      StageSplit(u, v, k - 1);
      StageEnds(u, k - 1);
      StageEnds(v, k - 1);
      var left, right := FixStage(u, k - 1).text, FixStage(v, k - 1).text;
      var p := PATTERNS[k - 1];
      SubstituteSplit(p, left, right);
      if CountMatches(p, left) == 0 {
        SubstituteNoCount(p, left);
      }
      if CountMatches(p, right) == 0 {
        SubstituteNoCount(p, right);
      }
    }
  }

  /** One of `. , ; ? !` followed by a character that is not a Cyrillic
      letter (a Latin letter, a digit, a space) is left as it is: the
      output is the fixed text up to the mark, which still ends with it,
      directly followed by the fixed text from the next character, which
      still starts with it. */
  lemma PunctuationBeforeOtherKept(u: string, c: char, x: char, v: string)
    requires c in ".,;?!" && !IsCyrillic(x)
    ensures FixSpec(u + [c, x] + v).text == FixSpec(u + [c]).text + FixSpec([x] + v).text
    ensures var left := FixSpec(u + [c]).text; left[|left| - 1] == c
    ensures FixSpec([x] + v).text[0] == x
  {
    assert u + [c, x] + v == (u + [c]) + ([x] + v);
    StageSplit(u + [c], [x] + v, |PATTERNS|);
    StageEnds(u + [c], |PATTERNS|);
    StageEnds([x] + v, |PATTERNS|);
  }

  /** Every character the fixes add is a space, one per recorded match. */
  lemma {:induction false} StageInsertsSpaces(text: string, k: nat)
    requires k <= |PATTERNS|
    ensures SpacesAdded(text, FixStage(text, k).text, SumOver(NAMES[..k], FixStage(text, k).stats))
  {
    StageLength(text, k);
    if k == 0 {
      assert multiset(text)[' ' := multiset(text)[' ']] == multiset(text);
    } else {
      StageInsertsSpaces(text, k - 1);
      StageLength(text, k - 1);
      var prev := FixStage(text, k - 1).text;
      var p := PATTERNS[k - 1];
      if CountMatches(p, prev) > 0 {
        SubstituteInsertsSpaces(p, prev);
        SpacesAddedTrans(text, prev, Substitute(p, prev),
          SumOver(NAMES[..k - 1], FixStage(text, k - 1).stats), CountMatches(p, prev));
      }
    }
  }


  /** A text without any of the issues passes every stage unchanged. */
  lemma {:induction false} StageOnClean(text: string, k: nat)
    requires k <= |PATTERNS| && NoIssue(text)
    ensures FixStage(text, k) == Fixed(text, map[])
  {
    if k > 0 {
      StageOnClean(text, k - 1);
      CountZeroIffNoMatch(PATTERNS[k - 1], text);
    }
  }

  /** An empty statistics map after a stage means no stage changed the text. */
  lemma {:induction false} StageUnrecorded(text: string, k: nat)
    requires k <= |PATTERNS|
    ensures FixStage(text, k).stats == map[] ==> FixStage(text, k).text == text
  {
    if k > 0 {
      var prev := FixStage(text, k - 1);
      var p := PATTERNS[k - 1];
      if CountMatches(p, prev.text) > 0 {
        assert p.name in FixStage(text, k).stats;
      } else {
        StageUnrecorded(text, k - 1);
      }
    }
  }

  /** The text changes exactly when something was recorded. */
  lemma ChangedIffRecorded(text: string)
    ensures FixSpec(text).text == text <==> FixSpec(text).stats == map[]
  {
    var out := FixSpec(text);
    if out.stats == map[] {
      StageUnrecorded(text, |PATTERNS|);
    } else {
      var n :| n in out.stats;
      StageKeys(text, |PATTERNS|);
      StageLength(text, |PATTERNS|);
      assert NAMES[..|PATTERNS|] == NAMES;
      SumOverPositive(NAMES, out.stats, n);
    }
  }

  /** A text with none of the issues is returned unchanged, with no
      statistics. */
  lemma CleanTextUnchanged(text: string)
    requires NoIssue(text)
    ensures FixSpec(text) == Fixed(text, map[])
  {
    StageOnClean(text, |PATTERNS|);
  }

  /** Fixing a fixed text changes nothing and records nothing. */
  lemma FixIdempotent(text: string)
    ensures FixSpec(FixSpec(text).text) == Fixed(FixSpec(text).text, map[])
  {
    StageClears(text, |PATTERNS|);
    StageOnClean(FixSpec(text).text, |PATTERNS|);
  }

  /** `fix_text`: apply the six patterns once each, in table order, and
      record how often each one matched. */
  method FixText(text: string) returns (fixed: string, stats: map<string, nat>)
    ensures Fixed(fixed, stats) == FixSpec(text)
    ensures NoIssue(fixed)
    ensures |fixed| == |text| + TotalFixes(stats)
    ensures IsSubsequence(text, fixed)
    ensures SpacesAdded(text, fixed, TotalFixes(stats))
    ensures forall n :: n in stats ==> n in NAMES && stats[n] > 0
    ensures fixed == text <==> stats == map[]
  {
    fixed, stats := text, map[];
    for k := 0 to |PATTERNS|
      invariant Fixed(fixed, stats) == FixStage(text, k)
    {
      var p := PATTERNS[k];
      var count := CountMatches(p, fixed);
      if count > 0 {
        fixed := Substitute(p, fixed);
        stats := stats[p.name := count];
      }
    }
    StageClears(text, |PATTERNS|);
    StageLength(text, |PATTERNS|);
    StageKeepsOriginal(text, |PATTERNS|);
    StageInsertsSpaces(text, |PATTERNS|);
    StageKeys(text, |PATTERNS|);
    ChangedIffRecorded(text);
    assert NAMES[..|PATTERNS|] == NAMES;
  }

  /** `fix_json_file` on the content of one file: the file is rewritten only
      when something was fixed. Returns the content the file holds afterwards. */
  method FixFile(content: string) returns (after: string, written: bool, stats: map<string, nat>)
    ensures written <==> stats != map[]
    ensures written <==> after != content
    ensures after == FixSpec(content).text && stats == FixSpec(content).stats
    ensures NoIssue(after)
  {
    var fixed;
    fixed, stats := FixText(content);
    written := stats != map[];
    after := if written then fixed else content;
  }

  /** The running total `total` with the counts of `stats` added name by name. */
  function MergeCounts(total: map<string, nat>, stats: map<string, nat>): (r: map<string, nat>)
    ensures r.Keys == total.Keys + stats.Keys
    ensures forall key :: Get(r, key) == Get(total, key) + Get(stats, key)
  {
    map key | key in total.Keys + stats.Keys :: Get(total, key) + Get(stats, key)
  }

  /** Adding two files' statistics in either order gives the same totals. */
  lemma MergeOrderIrrelevant(total: map<string, nat>, a: map<string, nat>, b: map<string, nat>)
    ensures MergeCounts(MergeCounts(total, a), b) == MergeCounts(MergeCounts(total, b), a)
  {
  }

  /** The overall number of fixes grows by exactly the file's total. */
  lemma {:induction false} MergeAddsTotals(ns: seq<string>, total: map<string, nat>, stats: map<string, nat>)
    ensures SumOver(ns, MergeCounts(total, stats)) == SumOver(ns, total) + SumOver(ns, stats)
  {
    if ns != [] {
      MergeAddsTotals(ns[..|ns| - 1], total, stats);
    }
  }

  /** The merge step of `main`: for every name in a file's statistics, the
      running total of that translation grows by that count; all other
      names and all other translations keep their totals. */
  method AddStats(totals: map<string, map<string, nat>>, translation: string, stats: map<string, nat>)
    returns (updated: map<string, map<string, nat>>)
    requires translation in totals
    ensures updated == totals[translation := MergeCounts(totals[translation], stats)]
    ensures forall key :: key in stats ==>
      key in updated[translation] && updated[translation][key] == Get(totals[translation], key) + stats[key]
    ensures forall key :: key in totals[translation] && key !in stats ==>
      key in updated[translation] && updated[translation][key] == totals[translation][key]
    ensures updated[translation].Keys == totals[translation].Keys + stats.Keys
    ensures forall t :: t in totals && t != translation ==> t in updated && updated[t] == totals[t]
  {
    var row := totals[translation];
    var pending := stats.Keys;
    while pending != {}
      invariant pending <= stats.Keys
      invariant row.Keys == totals[translation].Keys + (stats.Keys - pending)
      invariant forall key :: key in row ==>
        row[key] == Get(totals[translation], key) + (if key in pending then 0 else Get(stats, key))
      decreases pending
    {
      var key :| key in pending;
      row := row[key := Get(row, key) + stats[key]];
      pending := pending - {key};
    }
    assert row == MergeCounts(totals[translation], stats);
    updated := totals[translation := row];
  }
}
