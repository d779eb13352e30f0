/**
 * The formatting applied to every template before it is returned: a literal
 * backslash-n becomes a newline, then each of the sixteen `{{COLOR_...}}`
 * tags becomes its ANSI terminal escape sequence. The steps run in a fixed
 * order, each one a literal, leftmost, non-overlapping replacement over the
 * whole string.
 */
module Formatting {
  import opened TextReplace

  /** An ANSI select-graphic-rendition sequence: ESC, '[', the parameter, 'm'. */
  function Escape(code: string): string
  {
    "\U{1B}[" + code + "m"
  }

  const BLACK: string := Escape("30")
  const RED: string := Escape("31")
  const GREEN: string := Escape("32")
  const YELLOW: string := Escape("33")
  const BLUE: string := Escape("34")
  const MAGENTA: string := Escape("35")
  const CYAN: string := Escape("36")
  const WHITE: string := Escape("37")
  const BRIGHT_RED: string := Escape("91")
  const BRIGHT_GREEN: string := Escape("92")
  const BRIGHT_YELLOW: string := Escape("93")
  const BRIGHT_BLUE: string := Escape("94")
  const BRIGHT_MAGENTA: string := Escape("95")
  const BRIGHT_CYAN: string := Escape("96")
  const BRIGHT_WHITE: string := Escape("97")
  const ENDC: string := Escape("0")

  /** One step of the chain: replace every `pattern` by `replacement`. */
  datatype Rule = Rule(pattern: string, replacement: string)

  /** The tag written in templates for the colour `name`. */
  function ColorTag(name: string): string
  {
    "{{COLOR_" + name + "}}"
  }

  /** A backslash followed by `n`, written as two characters in the resource file, becomes a newline. */
  const NewlineRule: Rule := Rule("\\n", "\n")

  /** The recognised colour names, in the order in which their steps are applied. */
  const ColorNames: seq<string> := [
    "BLACK",
    "RED",
    "GREEN",
    "YELLOW",
    "BLUE",
    "MAGENTA",
    "CYAN",
    "WHITE",
    "BRIGHT_RED",
    "BRIGHT_GREEN",
    "BRIGHT_YELLOW",
    "BRIGHT_BLUE",
    "BRIGHT_MAGENTA",
    "BRIGHT_CYAN",
    "BRIGHT_WHITE",
    "NONE"
  ]

  /** The escape sequence that replaces the tag of each name in `ColorNames`. */
  const ColorEscapes: seq<string> := [
    BLACK,
    RED,
    GREEN,
    YELLOW,
    BLUE,
    MAGENTA,
    CYAN,
    WHITE,
    BRIGHT_RED,
    BRIGHT_GREEN,
    BRIGHT_YELLOW,
    BRIGHT_BLUE,
    BRIGHT_MAGENTA,
    BRIGHT_CYAN,
    BRIGHT_WHITE,
    ENDC
  ]

  /** Colour step `i`: the tag of name `i` becomes escape `i`. */
  function ColorRule(i: nat): Rule
    requires i < |ColorNames|
  {
    Rule(ColorTag(ColorNames[i]), ColorEscapes[i])
  }

  /** The colour steps, in the order in which they are applied. */
  const ColorRules: seq<Rule> := [
    Rule(ColorTag("BLACK"), BLACK),
    Rule(ColorTag("RED"), RED),
    Rule(ColorTag("GREEN"), GREEN),
    Rule(ColorTag("YELLOW"), YELLOW),
    Rule(ColorTag("BLUE"), BLUE),
    Rule(ColorTag("MAGENTA"), MAGENTA),
    Rule(ColorTag("CYAN"), CYAN),
    Rule(ColorTag("WHITE"), WHITE),
    Rule(ColorTag("BRIGHT_RED"), BRIGHT_RED),
    Rule(ColorTag("BRIGHT_GREEN"), BRIGHT_GREEN),
    Rule(ColorTag("BRIGHT_YELLOW"), BRIGHT_YELLOW),
    Rule(ColorTag("BRIGHT_BLUE"), BRIGHT_BLUE),
    Rule(ColorTag("BRIGHT_MAGENTA"), BRIGHT_MAGENTA),
    Rule(ColorTag("BRIGHT_CYAN"), BRIGHT_CYAN),
    Rule(ColorTag("BRIGHT_WHITE"), BRIGHT_WHITE),
    Rule(ColorTag("NONE"), ENDC)
  ]

  /** The whole chain: the newline step first, then the colours. */
  const FormatRules: seq<Rule> := [NewlineRule] + ColorRules

  /** Characters that patterns are written in. */
  predicate IsPatternChar(c: char)
  {
    c == '\\' || c == 'n' || c == '{' || c == '}' || c == '_' || 'A' <= c <= 'Z'
  }

  /** Characters that replacements are written in. */
  predicate IsEscapeChar(c: char)
  {
    c == '\n' || c == '\U{1B}' || c == '[' || c == 'm' || '0' <= c <= '9'
  }

  predicate PatternText(s: string)
  {
    forall c :: c in s ==> IsPatternChar(c)
  }

  predicate EscapeText(s: string)
  {
    forall c :: c in s ==> IsEscapeChar(c)
  }

  predicate EscapeFree(s: string)
  {
    forall c :: c in s ==> !IsEscapeChar(c)
  }

  predicate NonEmptyPatterns(rules: seq<Rule>)
  {
    forall i :: 0 <= i < |rules| ==> |rules[i].pattern| > 0
  }

  /**
   * A step whose replacement cannot produce any character of any pattern, so
   * that no step can create a match for itself or for another step.
   */
  predicate ValidRule(r: Rule)
  {
    |r.pattern| > 0 && |r.replacement| > 0 && PatternText(r.pattern) && EscapeText(r.replacement)
  }

  predicate ValidRules(rules: seq<Rule>)
  {
    forall i :: 0 <= i < |rules| ==> ValidRule(rules[i])
  }

  /** Apply the steps of `rules` one after the other, each to the whole string. */
  function ApplyRules(s: string, rules: seq<Rule>): string
    requires NonEmptyPatterns(rules)
    decreases |rules|
  {
    if rules == [] then s
    else ApplyRules(Replace(s, rules[0].pattern, rules[0].replacement), rules[1..])
  }

  /** No step of the chain has anything left to replace in `s`. */
  predicate NoMarkup(s: string)
  {
    forall i :: 0 <= i < |FormatRules| ==> !Contains(s, FormatRules[i].pattern)
  }

  /** The formatting of a template: the chain of the source, applied step by step. */
  function Format(msg: string): string
  {
    FormatRulesValid();
    ApplyRules(msg, FormatRules)
  }

  /** A formatted string holds no literal backslash-n and no recognised colour tag. */
  lemma FormatLeavesNoMarkup(s: string)
    ensures NoMarkup(Format(s))
  {
    FormatRulesValid();
    ApplyRulesEliminates(s, FormatRules);
  }

  // ---------------------------------------------------------------------
  // The chain of the source meets the conditions of the general lemmas.

  predicate IsNameChar(c: char)
  {
    c == '_' || 'A' <= c <= 'Z'
  }

  /** Text that may stand between the braces of a tag without ending it early. */
  predicate TagName(n: string)
  {
    forall c :: c in n ==> c != '{' && c != '}' && c != '\\'
  }

  predicate ColorEntryValid(i: int)
    requires 0 <= i < |ColorNames|
  {
    && |ColorNames[i]| > 0 && (forall c :: c in ColorNames[i] ==> IsNameChar(c))
    && |ColorEscapes[i]| > 0 && EscapeText(ColorEscapes[i])
  }

  lemma EscapeValid(code: string)
    requires forall c :: c in code ==> '0' <= c <= '9'
    ensures |Escape(code)| > 0 && EscapeText(Escape(code))
  {
  }

  lemma ColorTableValid0To4()
    ensures forall i :: 0 <= i < 4 ==> ColorEntryValid(i)
  {
    EscapeValid("30");
    EscapeValid("31");
    EscapeValid("32");
    EscapeValid("33");
  }

  lemma ColorTableValid4To8()
    ensures forall i :: 4 <= i < 8 ==> ColorEntryValid(i)
  {
    EscapeValid("34");
    EscapeValid("35");
    EscapeValid("36");
    EscapeValid("37");
  }

  lemma ColorTableValid8To12()
    ensures forall i :: 8 <= i < 12 ==> ColorEntryValid(i)
  {
    EscapeValid("91");
    EscapeValid("92");
    EscapeValid("93");
    EscapeValid("94");
  }

  lemma ColorTableValid12To16()
    ensures forall i :: 12 <= i < 16 ==> ColorEntryValid(i)
  {
    EscapeValid("95");
    EscapeValid("96");
    EscapeValid("97");
    EscapeValid("0");
  }

  /** Every colour name is made of capitals and underscores; every escape of escape characters. */
  lemma ColorTableValid()
    ensures |ColorNames| == |ColorEscapes| == 16
    ensures forall i :: 0 <= i < |ColorNames| ==> ColorEntryValid(i)
  {
    ColorTableValid0To4();
    ColorTableValid4To8();
    ColorTableValid8To12();
    ColorTableValid12To16();
  }

  lemma ColorRulesAt0To4()
    ensures forall k :: 0 <= k < 4 ==> ColorRules[k] == ColorRule(k)
  {
  }

  lemma ColorRulesAt4To8()
    ensures forall k :: 4 <= k < 8 ==> ColorRules[k] == ColorRule(k)
  {
  }

  lemma ColorRulesAt8To12()
    ensures forall k :: 8 <= k < 12 ==> ColorRules[k] == ColorRule(k)
  {
  }

  lemma ColorRulesAt12To16()
    ensures forall k :: 12 <= k < 16 ==> ColorRules[k] == ColorRule(k)
  {
  }

  /** Step 0 of the chain is the newline step, step `k + 1` the colour step `k`. */
  lemma FormatRulesAt()
    ensures |FormatRules| == |ColorNames| + 1
    ensures FormatRules[0] == NewlineRule
    ensures forall k :: 0 <= k < |ColorNames| ==> FormatRules[k + 1] == ColorRule(k)
  {
    ColorRulesAt0To4();
    ColorRulesAt4To8();
    ColorRulesAt8To12();
    ColorRulesAt12To16();
    assert forall k :: 0 <= k < |ColorNames| ==> FormatRules[k + 1] == ColorRules[k];
  }

  lemma TagValid(n: string, e: string)
    requires (forall c :: c in n ==> IsNameChar(c)) && |e| > 0 && EscapeText(e)
    ensures ValidRule(Rule(ColorTag(n), e))
  {
  }

  /** The chain of the source satisfies the conditions under which the lemmas below hold. */
  lemma FormatRulesValid()
    ensures ValidRules(FormatRules)
  {
    ColorTableValid();
    FormatRulesAt();
    assert ValidRule(NewlineRule);
    forall i | 1 <= i < |FormatRules|
      ensures ValidRule(FormatRules[i])
    {
      assert ColorEntryValid(i - 1);
      TagValid(ColorNames[i - 1], ColorEscapes[i - 1]);
    }
  }

  lemma ValidRulesSuffix(rules: seq<Rule>)
    requires ValidRules(rules) && rules != []
    ensures ValidRules(rules[1..]) && NonEmptyPatterns(rules)
  {
    assert forall i :: 0 <= i < |rules[1..]| ==> rules[1..][i] == rules[i + 1];
  }

  // ---------------------------------------------------------------------
  // General facts about a chain of valid steps.

  /** A string that lacks one character of `q` does not contain `q`. */
  lemma {:induction false} AbsentChar(s: string, q: string, k: nat)
    requires k < |q| && q[k] !in s
    ensures !Contains(s, q)
    decreases |s|
  {
    if |q| <= |s| {
      assert s[..|q|][k] == s[k];
    }
    if |s| > 0 {
      AbsentChar(s[1..], q, k);
    }
  }

  /** Escape text never contains a pattern. */
  lemma EscapeHasNoPattern(r: string, p: string)
    requires EscapeText(r) && |p| > 0 && PatternText(p)
    ensures !Contains(r, p)
  {
    assert IsPatternChar(p[0]);
    AbsentChar(r, p, 0);
  }

  /** A string in which no pattern of the chain occurs comes out unchanged. */
  lemma {:induction false} ApplyRulesFixes(s: string, rules: seq<Rule>)
    requires NonEmptyPatterns(rules)
    requires forall i :: 0 <= i < |rules| ==> !Contains(s, rules[i].pattern)
    ensures ApplyRules(s, rules) == s
    decreases |rules|
  {
    if rules != [] {
      ReplaceAbsent(s, rules[0].pattern, rules[0].replacement);
      assert forall i :: 0 <= i < |rules[1..]| ==> rules[1..][i] == rules[i + 1];
      ApplyRulesFixes(s, rules[1..]);
    }
  }

  /** The chain creates no new text made of characters that no replacement uses. */
  lemma {:induction false} ApplyRulesCreatesNothing(s: string, rules: seq<Rule>, q: string)
    requires ValidRules(rules) && |q| > 0 && EscapeFree(q)
    ensures Contains(ApplyRules(s, rules), q) ==> Contains(s, q)
    decreases |rules|
  {
    if rules != [] {
      ValidRulesSuffix(rules);
      var r := rules[0];
      assert ValidRule(r);
      var t := Replace(s, r.pattern, r.replacement);
      ApplyRulesCreatesNothing(t, rules[1..], q);
      if Contains(t, q) {
        ReplaceCreatesNothing(s, r.pattern, r.replacement, q);
      }
    }
  }

  /** After the chain no pattern of any step is left. */
  lemma {:induction false} ApplyRulesEliminates(s: string, rules: seq<Rule>)
    requires ValidRules(rules)
    ensures NonEmptyPatterns(rules)
    ensures forall i :: 0 <= i < |rules| ==> !Contains(ApplyRules(s, rules), rules[i].pattern)
    decreases |rules|
  {
    if rules != [] {
      ValidRulesSuffix(rules);
      var r := rules[0];
      assert ValidRule(r);
      var t := Replace(s, r.pattern, r.replacement);
      ReplaceEliminates(s, r.pattern, r.replacement);
      ApplyRulesCreatesNothing(t, rules[1..], r.pattern);
      ApplyRulesEliminates(t, rules[1..]);
      assert forall i :: 1 <= i < |rules| ==> rules[i] == rules[1..][i - 1];
    }
  }

  /**
   * The pattern of step `k`, alone, comes out as the replacement of step `k`
   * when no earlier step matches inside it.
   */
  lemma {:induction false} ApplyRulesSingle(rules: seq<Rule>, k: nat)
    requires ValidRules(rules) && k < |rules|
    requires forall j :: 0 <= j < k ==> !Contains(rules[k].pattern, rules[j].pattern)
    ensures NonEmptyPatterns(rules)
    ensures ApplyRules(rules[k].pattern, rules) == rules[k].replacement
    decreases k
  {
    ValidRulesSuffix(rules);
    var r := rules[0];
    assert ValidRule(r);
    var rest := rules[1..];
    assert forall i :: 0 <= i < |rest| ==> rest[i] == rules[i + 1];
    var s := rules[k].pattern;
    if k == 0 {
      ReplaceLeftmost([], s, [], r.replacement);
      assert [] + s + [] == s;
      assert Replace([], s, r.replacement) == [];
      forall i | 0 <= i < |rest|
        ensures !Contains(r.replacement, rest[i].pattern)
      {
        assert ValidRule(rules[i + 1]);
        EscapeHasNoPattern(r.replacement, rest[i].pattern);
      }
      ApplyRulesFixes(r.replacement, rest);
      assert Replace(s, r.pattern, r.replacement) == r.replacement;
      assert ApplyRules(s, rules) == ApplyRules(r.replacement, rest);
    } else {
      ReplaceAbsent(s, r.pattern, r.replacement);
      ApplyRulesSingle(rest, k - 1);
    }
  }

  // ---------------------------------------------------------------------
  // Concatenation: pieces whose join no pattern spans are formatted apart.

  /** No step of the chain has a pattern in which `c` is immediately followed by `d`. */
  predicate JoinSafe(rules: seq<Rule>, c: char, d: char)
  {
    forall i :: 0 <= i < |rules| ==> NoPair(rules[i].pattern, c, d)
  }

  lemma NoPairOutside(p: string, c: char, d: char)
    requires PatternText(p) && (!IsPatternChar(c) || !IsPatternChar(d))
    ensures NoPair(p, c, d)
  {
  }

  /**
   * The chain works on the two sides of a join independently when no pattern
   * has the two join characters side by side: the characters that replacement
   * brings to the join are escape characters, which no pattern has.
   */
  lemma {:induction false} ApplyRulesConcat(a: string, b: string, rules: seq<Rule>)
    requires ValidRules(rules) && |a| > 0 && |b| > 0 && JoinSafe(rules, a[|a| - 1], b[0])
    ensures NonEmptyPatterns(rules)
    ensures ApplyRules(a + b, rules) == ApplyRules(a, rules) + ApplyRules(b, rules)
    decreases |rules|
  {
    if rules != [] {
      ValidRulesSuffix(rules);
      var r := rules[0];
      assert ValidRule(r);
      var ra := Replace(a, r.pattern, r.replacement);
      var rb := Replace(b, r.pattern, r.replacement);
      ReplaceConcat(a, b, r.pattern, r.replacement);
      ReplaceEdges(a, r.pattern, r.replacement);
      ReplaceEdges(b, r.pattern, r.replacement);
      var rest := rules[1..];
      assert r.replacement[0] in r.replacement;
      assert r.replacement[|r.replacement| - 1] in r.replacement;
      forall i | 0 <= i < |rest|
        ensures NoPair(rest[i].pattern, ra[|ra| - 1], rb[0])
      {
        assert rest[i] == rules[i + 1];
        assert ValidRule(rules[i + 1]);
        if ra[|ra| - 1] != a[|a| - 1] || rb[0] != b[0] {
          NoPairOutside(rest[i].pattern, ra[|ra| - 1], rb[0]);
        }
      }
      ApplyRulesConcat(ra, rb, rest);
    }
  }

  /**
   * Two characters that stand side by side in no pattern of the chain: one is
   * not a pattern character, or a `}` is followed by anything but `}`, or a
   * backslash comes second (every backslash opens its pattern), or `n` comes
   * first (every `n` closes its pattern), or `{` comes second after anything
   * but `{`.
   */
  predicate SafeBoundary(c: char, d: char)
  {
    || !IsPatternChar(c) || !IsPatternChar(d)
    || (c == '}' && d != '}')
    || d == '\\' || c == 'n'
    || (d == '{' && c != '{')
  }

  /** `a` and `b` can be formatted apart: one is empty or their join is safe. */
  predicate SafeJoin(a: string, b: string)
  {
    |a| == 0 || |b| == 0 || SafeBoundary(a[|a| - 1], b[0])
  }

  /** No two adjacent characters of a tag with a name of capitals and underscores form a safe boundary. */
  lemma TagPairs(n: string, c: char, d: char)
    requires (forall ch :: ch in n ==> IsNameChar(ch)) && SafeBoundary(c, d)
    ensures NoPair(ColorTag(n), c, d)
  {
    var p := ColorTag(n);
    forall k | 0 <= k < |p| - 1
      ensures !(p[k] == c && p[k + 1] == d)
    {
      if k < 7 {
        assert p[k] == "{{COLOR_"[k];
        assert p[k + 1] == "{{COLOR_"[k + 1];
      } else if k < 8 + |n| {
        if k == 7 {
          assert p[k] == '_';
        } else {
          assert p[k] == n[k - 8];
          assert n[k - 8] in n;
        }
        if k + 1 < 8 + |n| {
          assert p[k + 1] == n[k + 1 - 8];
          assert n[k + 1 - 8] in n;
        } else {
          assert p[k + 1] == '}';
        }
      } else {
        assert p[k] == '}' && p[k + 1] == '}';
      }
    }
  }

  lemma FormatEmpty()
    ensures Format([]) == []
  {
    FormatRulesValid();
    ApplyRulesFixes([], FormatRules);
  }

  /** Text formats piece by piece across a safe join. */
  lemma FormatConcat(a: string, b: string)
    requires SafeJoin(a, b)
    ensures Format(a + b) == Format(a) + Format(b)
  {
    FormatEmpty();
    if |a| == 0 {
      assert a + b == b;
    } else if |b| == 0 {
      assert a + b == a;
    } else {
      FormatRulesValid();
      FormatRulesAt();
      ColorTableValid();
      var c, d := a[|a| - 1], b[0];
      forall i | 0 <= i < |FormatRules|
        ensures NoPair(FormatRules[i].pattern, c, d)
      {
        assert ValidRule(FormatRules[i]);
        if !IsPatternChar(c) || !IsPatternChar(d) {
          NoPairOutside(FormatRules[i].pattern, c, d);
        } else if i == 0 {
          assert FormatRules[i].pattern == "\\n";
        } else {
          assert FormatRules[i] == ColorRule(i - 1);
          assert ColorEntryValid(i - 1);
          TagPairs(ColorNames[i - 1], c, d);
        }
      }
      ApplyRulesConcat(a, b, FormatRules);
    }
  }

  // ---------------------------------------------------------------------
  // What formatting does to tags, to the newline marker and to plain text.

  /** A tag contains another tag only when the two names are the same. */
  lemma TagInTag(n1: string, n2: string)
    requires TagName(n1) && TagName(n2) && n1 != n2
    ensures !Contains(ColorTag(n1), ColorTag(n2))
  {
    var t1, t2 := ColorTag(n1), ColorTag(n2);
    var tail := t1[2..];
    assert tail == "COLOR_" + n1 + "}}";
    assert '{' !in tail;
    AbsentChar(tail, t2, 0);
    assert t1[1..][1..] == tail;
    assert t1[1..][1] == 'C';
    assert !StartsWith(t1[1..], t2);
    assert !Contains(t1[1..], t2);
    if |n2| < |n1| {
      var k := 8 + |n2|;
      assert t2[k] == '}';
      assert t1[..|t2|][k] == t1[k] == n1[|n2|];
      assert n1[|n2|] in n1;
      assert t1[..|t2|] != t2;
    } else if |n2| == |n1| {
      assert t1[..|t2|] == t1;
      assert t1 != t2 by {
        assert t1[8..8 + |n1|] == n1;
        assert t2[8..8 + |n2|] == n2;
      }
    }
    assert !StartsWith(t1, t2);
  }

  /** The sixteen colour names are pairwise different. */
  lemma ColorNamesDistinct()
    ensures forall i, j :: 0 <= i < j < |ColorNames| ==> ColorNames[i] != ColorNames[j]
  {
  }

  /** Each recognised tag, alone, becomes its escape sequence. */
  lemma FormatTag(i: nat)
    requires i < |ColorNames|
    ensures Format(ColorTag(ColorNames[i])) == ColorEscapes[i]
  {
    FormatRulesValid();
    FormatRulesAt();
    ColorTableValid();
    ColorNamesDistinct();
    var t := ColorTag(ColorNames[i]);
    assert ColorEntryValid(i);
    assert FormatRules[i + 1] == ColorRule(i);
    forall j | 0 <= j < i + 1
      ensures !Contains(t, FormatRules[j].pattern)
    {
      if j == 0 {
        assert '\\' !in t;
        AbsentChar(t, "\\n", 0);
      } else {
        assert FormatRules[j] == ColorRule(j - 1);
        assert ColorEntryValid(j - 1);
        TagInTag(ColorNames[i], ColorNames[j - 1]);
      }
    }
    ApplyRulesSingle(FormatRules, i + 1);
  }

  /** The two characters backslash and `n` become a newline. */
  lemma FormatNewline()
    ensures Format("\\n") == "\n"
  {
    FormatRulesValid();
    FormatRulesAt();
    ApplyRulesSingle(FormatRules, 0);
  }

  /** `NoMarkup` in the source's terms: no backslash-n and no recognised tag. */
  lemma NoMarkupMeans(s: string)
    ensures NoMarkup(s) <==>
      !Contains(s, "\\n") && forall i :: 0 <= i < |ColorNames| ==> !Contains(s, ColorTag(ColorNames[i]))
  {
    FormatRulesAt();
    if NoMarkup(s) {
      forall i | 0 <= i < |ColorNames|
        ensures !Contains(s, ColorTag(ColorNames[i]))
      {
        assert FormatRules[i + 1] == ColorRule(i);
      }
    }
    if !Contains(s, "\\n") && forall i :: 0 <= i < |ColorNames| ==> !Contains(s, ColorTag(ColorNames[i])) {
      forall i | 0 <= i < |FormatRules|
        ensures !Contains(s, FormatRules[i].pattern)
      {
        if i > 0 {
          assert FormatRules[i] == ColorRule(i - 1);
        }
      }
    }
  }

  /** Formatting leaves a string unchanged exactly when it holds no markup. */
  lemma FormatFixes(s: string)
    ensures Format(s) == s <==> NoMarkup(s)
  {
    FormatLeavesNoMarkup(s);
    if NoMarkup(s) {
      FormatRulesValid();
      ApplyRulesFixes(s, FormatRules);
    }
  }

  /** Formatting twice is formatting once. */
  lemma FormatIdempotent(s: string)
    ensures Format(Format(s)) == Format(s)
  {
    FormatLeavesNoMarkup(s);
    FormatFixes(Format(s));
  }

  /** Text made of characters no escape uses is found in the output only if it was in the template. */
  lemma FormatCreatesNothing(s: string, q: string)
    requires |q| > 0 && EscapeFree(q)
    ensures Contains(Format(s), q) ==> Contains(s, q)
  {
    FormatRulesValid();
    ApplyRulesCreatesNothing(s, FormatRules, q);
  }

  /** A tag whose name is not one of the sixteen comes out as it went in. */
  lemma FormatUnknownTag(name: string)
    requires TagName(name) && name !in ColorNames
    ensures Format(ColorTag(name)) == ColorTag(name)
  {
    var t := ColorTag(name);
    ColorTableValid();
    assert '\\' !in t;
    AbsentChar(t, "\\n", 0);
    forall i | 0 <= i < |ColorNames|
      ensures !Contains(t, ColorTag(ColorNames[i]))
    {
      assert ColorEntryValid(i);
      TagInTag(name, ColorNames[i]);
    }
    NoMarkupMeans(t);
    FormatFixes(t);
  }

  /** A string without `c` immediately followed by `d` contains nothing that starts so. */
  lemma {:induction false} PairAbsent(s: string, q: string)
    requires |q| >= 2 && NoPair(s, q[0], q[1])
    ensures !Contains(s, q)
    decreases |s|
  {
    if |q| <= |s| {
      assert s[..|q|][0] == s[0] && s[..|q|][1] == s[1];
    }
    if |s| > 0 {
      PairAbsent(s[1..], q);
    }
  }

  /**
   * Text with no backslash and no two opening braces in a row, such as a
   * sentence with `{name}` placeholders, passes through unchanged.
   */
  lemma FormatKeepsPlain(s: string)
    requires '\\' !in s && NoPair(s, '{', '{')
    ensures Format(s) == s
  {
    AbsentChar(s, "\\n", 0);
    forall i | 0 <= i < |ColorNames|
      ensures !Contains(s, ColorTag(ColorNames[i]))
    {
      PairAbsent(s, ColorTag(ColorNames[i]));
    }
    NoMarkupMeans(s);
    FormatFixes(s);
  }

  /** Each backslash-n becomes a newline, whatever stands around it; the pieces around it are formatted in place. */
  lemma FormatAroundNewline(a: string, b: string)
    ensures Format(a + "\\n" + b) == Format(a) + "\n" + Format(b)
  {
    var m := "\\n";
    assert (m + b)[0] == '\\';
    assert m[|m| - 1] == 'n';
    FormatConcat(a, m + b);
    FormatConcat(m, b);
    FormatNewline();
    ConcatAssoc(a, m, b);
    ConcatAssoc(Format(a), "\n", Format(b));
  }

  /**
   * Each recognised tag becomes its escape, and the pieces around it are
   * formatted in place, when no `{` stands right before it and no `}` right
   * after it.
   */
  lemma FormatAroundTag(a: string, i: nat, b: string)
    requires i < |ColorNames|
    requires |a| == 0 || a[|a| - 1] != '{'
    requires |b| == 0 || b[0] != '}'
    ensures Format(a + ColorTag(ColorNames[i]) + b) == Format(a) + ColorEscapes[i] + Format(b)
  {
    var t := ColorTag(ColorNames[i]);
    assert (t + b)[0] == '{';
    assert t[|t| - 1] == '}';
    FormatConcat(a, t + b);
    FormatConcat(t, b);
    FormatTag(i);
    ConcatAssoc(a, t, b);
    ConcatAssoc(Format(a), ColorEscapes[i], Format(b));
  }

  // ---------------------------------------------------------------------
  // Templates of the kind the resource files hold.

  lemma RedAndNone()
    ensures ColorNames[1] == "RED" && ColorEscapes[1] == RED
    ensures ColorNames[15] == "NONE" && ColorEscapes[15] == ENDC
  {
  }

  lemma FormatRedGreeting()
    ensures Format(ColorTag("RED") + "Hello {name}") == RED + "Hello {name}"
  {
    var plain := "Hello {name}";
    RedAndNone();
    FormatKeepsPlain(plain);
    FormatConcat(ColorTag("RED"), plain);
    FormatTag(1);
  }

  lemma FormatGreeting()
    ensures Format(ColorTag("RED") + "Hello {name}" + ColorTag("NONE")) == RED + "Hello {name}" + ENDC
  {
    var x := ColorTag("RED") + "Hello {name}";
    RedAndNone();
    FormatRedGreeting();
    FormatConcat(x, ColorTag("NONE"));
    FormatTag(15);
  }

  /** Plain text, then a red span of plain text closed by the reset tag. */
  lemma FormatRedSpan(a: string, b: string)
    requires '\\' !in a && NoPair(a, '{', '{') && '\\' !in b && NoPair(b, '{', '{')
    requires SafeJoin(a, ColorTag("RED")) && |b| > 0 && b[0] != '}' && SafeJoin(b, ColorTag("NONE"))
    ensures Format(a + ColorTag("RED") + b + ColorTag("NONE")) == a + RED + b + ENDC
  {
    var x := a + ColorTag("RED");
    FormatOpenRed(a);
    FormatKeepsPlain(b);
    assert x[|x| - 1] == '}';
    FormatConcat(x, b);
    var y := x + b;
    assert y[|y| - 1] == b[|b| - 1];
    RedAndNone();
    FormatConcat(y, ColorTag("NONE"));
    FormatTag(15);
  }

  lemma FormatOpenRed(a: string)
    requires '\\' !in a && NoPair(a, '{', '{') && SafeJoin(a, ColorTag("RED"))
    ensures Format(a + ColorTag("RED")) == a + RED
  {
    RedAndNone();
    FormatKeepsPlain(a);
    FormatConcat(a, ColorTag("RED"));
    FormatTag(1);
  }

  lemma FormatTwoLines()
    ensures Format("Error:" + "\\n" + "Retry") == "Error:" + "\n" + "Retry"
  {
    FormatKeepsPlain("Error:");
    FormatKeepsPlain("Retry");
    FormatAroundNewline("Error:", "Retry");
  }

  lemma FormatNewlineThenRed()
    ensures Format("\\n" + ColorTag("RED")) == "\n" + RED
  {
    RedAndNone();
    FormatEmpty();
    FormatTag(1);
    FormatAroundNewline([], ColorTag("RED"));
    assert [] + "\\n" + ColorTag("RED") == "\\n" + ColorTag("RED");
    assert [] + "\n" + RED == "\n" + RED;
  }

  lemma FormatCapitalThenRed()
    ensures Format("ERROR" + ColorTag("RED")) == "ERROR" + RED
  {
    FormatOpenRed("ERROR");
  }

  lemma FormatOrangeTag()
    ensures Format(ColorTag("ORANGE")) == ColorTag("ORANGE")
  {
    FormatUnknownTag("ORANGE");
  }
}
