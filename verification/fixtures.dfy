/**
 The repository's own unit-test cases, stated on the model: the rule chosen
 for single lines, the mutants found in a small script, and a mutant inserted
 into and removed from a file that lacks a final newline. Every case uses the
 full rule list, all six categories in declaration order; the cases are
 stated for any rule list laid out like it (`StandardRules`), and
 `AllRulesStandard` shows the built list is one.
 */
module Fixtures {
  import opened Text
  import opened Wrappers
  import opened Files
  import opened Mutants
  import opened Patch
  import opened Scanner

  /** The categories every test enables, in the order the tests list them. */
  const AllTypes: seq<MutationType> := [MathOps, Conjunctions, Booleans, ControlFlow, CompOps, Numbers]

  /** The fifteen word and operator rules, in list order. */
  const WordRules: seq<Rule> := [
    Rule(" + ", " - "), Rule(" - ", " + "), Rule(" * ", " / "), Rule(" / ", " * "),
    Rule(" and ", " or "), Rule(" or ", " and "),
    Rule(" True ", " False "), Rule(" False ", " True "),
    Rule(" else: ", " elif False: "), Rule(" if not ", " if "), Rule(" if ", " if not "),
    Rule(" > ", " < "), Rule(" < ", " > "), Rule("==", "!="), Rule("!=", "==")
  ]

  /** A rule list laid out as the full one: the word rules, then the ten digit rules. */
  predicate StandardRules(rules: seq<Rule>) {
    && |rules| == 25
    && (forall k :: 0 <= k < 15 ==> rules[k] == WordRules[k])
    && (forall n :: 0 <= n < 10 ==> rules[15 + n] == NumberRules()[n])
  }

  /** The rule list the tests build is laid out that way. */
  lemma AllRulesStandard()
    ensures StandardRules(BuildReplacements(AllTypes))
  {
    assert WordRules == CategoryRules(MathOps) + CategoryRules(Conjunctions) + CategoryRules(Booleans)
      + CategoryRules(ControlFlow) + CategoryRules(CompOps);
    assert BuildReplacements(AllTypes) == WordRules + NumberRules();
  }

  predicate QuoteFree(s: Str) {
    forall k :: 0 <= k < |s| ==> !IsQuote(s[k])
  }

  predicate NoDigit(s: Str) {
    forall k :: 0 <= k < |s| ==> !('0' <= s[k] <= '9')
  }

  /** A pattern holding a character the text lacks does not occur in it. */
  lemma NotContainsByChar(s: Str, pat: Str, j: nat)
    requires j < |pat| && pat[j] !in s
    ensures !Contains(s, pat)
  {
    ContainsIffOccurs(s, pat);
    forall i: nat
      ensures !OccursAt(s, pat, i)
    {
      if i + |pat| <= |s| {
        assert s[i..i + |pat|][j] == s[i + j];
        assert s[i + j] in s;
      }
    }
  }

  /** Each of the first `|js|` word patterns has a character, at `js[k]`, that `s` lacks. */
  lemma AbsentWords(s: Str, js: seq<nat>)
    requires |js| <= 15
    requires forall k :: 0 <= k < |js| ==> js[k] < |WordRules[k].before| && WordRules[k].before[js[k]] !in s
    ensures forall k :: 0 <= k < |js| ==> !Contains(s, WordRules[k].before)
  {
    forall k | 0 <= k < |js|
      ensures !Contains(s, WordRules[k].before)
    {
      NotContainsByChar(s, WordRules[k].before, js[k]);
    }
  }

  /** A two-character pattern whose characters never stand side by side does not occur. */
  lemma NotContainsPair(s: Str, a: char, b: char)
    requires forall i :: 0 <= i < |s| - 1 ==> !(s[i] == a && s[i + 1] == b)
    ensures !Contains(s, [a, b])
  {
    ContainsIffOccurs(s, [a, b]);
    forall i: nat
      ensures !OccursAt(s, [a, b], i)
    {
      if i + 2 <= |s| {
        assert s[i..i + 2][0] == s[i] && s[i..i + 2][1] == s[i + 1];
      }
    }
  }

  /** The digit rules never match text without digits. */
  lemma DigitRulesAbsent(s: Str)
    requires NoDigit(s)
    ensures forall n :: 0 <= n < 10 ==> !Contains(s, NumberRules()[n].before)
  {
    forall n | 0 <= n < 10
      ensures !Contains(s, NumberRules()[n].before)
    {
      var d := NumberRules()[n].before;
      assert d == NatToString(n);
      assert '0' <= d[0] <= '9';
      NotContainsByChar(s, d, 0);
    }
  }

  /**
   On quote-free text, word rule `k` is chosen when its pattern occurs at `i`
   and none of the earlier patterns occurs.
   */
  lemma ChoosesWordRule(s: Str, rules: seq<Rule>, k: nat, i: nat)
    requires StandardRules(rules) && QuoteFree(s) && k < 15
    requires OccursAt(s, WordRules[k].before, i)
    requires forall j :: 0 <= j < k ==> !Contains(s, WordRules[j].before)
    ensures ReplacementFromLine(s, rules) == Some(WordRules[k])
  {
    RemoveQuotesOfQuoteFree(s);
    ContainsIffOccurs(s, WordRules[k].before);
  }

  /** Quote-free text without digits and without any word pattern yields no rule. */
  lemma ChoosesNoRule(s: Str, rules: seq<Rule>)
    requires StandardRules(rules) && QuoteFree(s) && NoDigit(s)
    requires forall j :: 0 <= j < 15 ==> !Contains(s, WordRules[j].before)
    ensures ReplacementFromLine(s, rules) == None
  {
    RemoveQuotesOfQuoteFree(s);
    DigitRulesAbsent(s);
    forall k | 0 <= k < 25
      ensures !Contains(s, rules[k].before)
    {
      if k >= 15 {
        assert rules[k] == NumberRules()[k - 15];
      }
    }
  }

  /** Word rule `k` is chosen: it occurs at `i`, and each earlier pattern lacks a character of the text at `js[j]`. */
  lemma WordLine(s: Str, rules: seq<Rule>, k: nat, i: nat, js: seq<nat>)
    requires StandardRules(rules) && QuoteFree(s) && k < 15 && |js| == k
    requires OccursAt(s, WordRules[k].before, i)
    requires forall j :: 0 <= j < k ==> js[j] < |WordRules[j].before| && WordRules[j].before[js[j]] !in s
    ensures ReplacementFromLine(s, rules) == Some(WordRules[k])
  {
    AbsentWords(s, js);
    ChoosesWordRule(s, rules, k, i);
  }

  /** No rule is chosen when the text has no quote, no digit, and lacks a character of every word pattern. */
  lemma NoRuleLine(s: Str, rules: seq<Rule>, js: seq<nat>)
    requires StandardRules(rules) && QuoteFree(s) && NoDigit(s) && |js| == 15
    requires forall j :: 0 <= j < 15 ==> js[j] < |WordRules[j].before| && WordRules[j].before[js[j]] !in s
    ensures ReplacementFromLine(s, rules) == None
  {
    AbsentWords(s, js);
    ChoosesNoRule(s, rules);
  }

  /*
   Each case below takes its line as a parameter pinned to the literal, so
   that the solver reasons about the line through the lemma's requires and
   does not evaluate the recursive text functions on the literal itself.
   */

  lemma PlusLine(s: Str, rules: seq<Rule>)
    requires StandardRules(rules) && s == "5 + 5"
    ensures ReplacementFromLine(s, rules) == Some(Rule(" + ", " - "))
  {
    WordLine(s, rules, 0, 1, []);
  }

  lemma MinusLine(s: Str, rules: seq<Rule>)
    requires StandardRules(rules) && s == "5 - 5"
    ensures ReplacementFromLine(s, rules) == Some(Rule(" - ", " + "))
  {
    WordLine(s, rules, 1, 1, [1]);
  }

  lemma TimesLine(s: Str, rules: seq<Rule>)
    requires StandardRules(rules) && s == "5 * 5"
    ensures ReplacementFromLine(s, rules) == Some(Rule(" * ", " / "))
  {
    WordLine(s, rules, 2, 1, [1, 1]);
  }

  lemma DivideLine(s: Str, rules: seq<Rule>)
    requires StandardRules(rules) && s == "5 / 5"
    ensures ReplacementFromLine(s, rules) == Some(Rule(" / ", " * "))
  {
    WordLine(s, rules, 3, 1, [1, 1, 1]);
  }

  /** The arithmetic operators each select their own rule. */
  lemma MathOperatorLines(rules: seq<Rule>)
    requires StandardRules(rules)
    ensures ReplacementFromLine("5 + 5", rules) == Some(Rule(" + ", " - "))
    ensures ReplacementFromLine("5 - 5", rules) == Some(Rule(" - ", " + "))
    ensures ReplacementFromLine("5 * 5", rules) == Some(Rule(" * ", " / "))
    ensures ReplacementFromLine("5 / 5", rules) == Some(Rule(" / ", " * "))
  {
    PlusLine("5 + 5", rules);
    MinusLine("5 - 5", rules);
    TimesLine("5 * 5", rules);
    DivideLine("5 / 5", rules);
  }

  lemma AndChars(s: Str)
    requires s == "True and False"
    ensures QuoteFree(s) && OccursAt(s, " and ", 4)
    ensures '+' !in s && '-' !in s && '*' !in s && '/' !in s
  {
  }

  /** Quote-free text without arithmetic operators and with " and " at 4 chooses the "and" rule. */
  lemma AndRule(s: Str, rules: seq<Rule>)
    requires StandardRules(rules) && QuoteFree(s) && OccursAt(s, " and ", 4)
    requires '+' !in s && '-' !in s && '*' !in s && '/' !in s
    ensures ReplacementFromLine(s, rules) == Some(Rule(" and ", " or "))
  {
    WordLine(s, rules, 4, 4, [1, 1, 1, 1]);
  }

  lemma AndLine(s: Str, rules: seq<Rule>)
    requires StandardRules(rules) && s == "True and False"
    ensures ReplacementFromLine(s, rules) == Some(Rule(" and ", " or "))
  {
    AndChars(s);
    AndRule(s, rules);
  }

  lemma OrChars(s: Str)
    requires s == "True or False"
    ensures QuoteFree(s) && OccursAt(s, " or ", 4)
    ensures '+' !in s && '-' !in s && '*' !in s && '/' !in s && 'n' !in s
  {
  }

  /** The same for " or ", in text that also lacks the "n" of " and ". */
  lemma OrRule(s: Str, rules: seq<Rule>)
    requires StandardRules(rules) && QuoteFree(s) && OccursAt(s, " or ", 4)
    requires '+' !in s && '-' !in s && '*' !in s && '/' !in s && 'n' !in s
    ensures ReplacementFromLine(s, rules) == Some(Rule(" or ", " and "))
  {
    WordLine(s, rules, 5, 4, [1, 1, 1, 1, 2]);
  }

  lemma OrLine(s: Str, rules: seq<Rule>)
    requires StandardRules(rules) && s == "True or False"
    ensures ReplacementFromLine(s, rules) == Some(Rule(" or ", " and "))
  {
    OrChars(s);
    OrRule(s, rules);
  }

  /** "and" and "or" between words select their rules. */
  lemma ConjunctionLines(rules: seq<Rule>)
    requires StandardRules(rules)
    ensures ReplacementFromLine("True and False", rules) == Some(Rule(" and ", " or "))
    ensures ReplacementFromLine("True or False", rules) == Some(Rule(" or ", " and "))
  {
    AndLine("True and False", rules);
    OrLine("True or False", rules);
  }

  lemma EqualLine(s: Str, rules: seq<Rule>)
    requires StandardRules(rules) && s == "5 == 5"
    ensures ReplacementFromLine(s, rules) == Some(Rule("==", "!="))
  {
    WordLine(s, rules, 13, 2, [1, 1, 1, 1, 1, 1, 1, 1, 1, 1, 1, 1, 1]);
  }

  lemma NotEqualChars(s: Str)
    requires s == "5 != 5"
    ensures QuoteFree(s) && OccursAt(s, "!=", 2)
    ensures '+' !in s && '-' !in s && '*' !in s && '/' !in s && 'a' !in s && 'o' !in s && 'T' !in s
    ensures 'F' !in s && 'e' !in s && 'i' !in s && '>' !in s && '<' !in s
    ensures forall i :: 0 <= i < |s| - 1 ==> !(s[i] == '=' && s[i + 1] == '=')
  {
  }

  /**
   Quote-free text holding "!=" at 2 chooses the "!=" rule when it lacks the
   second character of every earlier word pattern and has no "==".
   */
  lemma NotEqualRule(s: Str, rules: seq<Rule>)
    requires StandardRules(rules) && QuoteFree(s) && OccursAt(s, "!=", 2)
    requires '+' !in s && '-' !in s && '*' !in s && '/' !in s && 'a' !in s && 'o' !in s && 'T' !in s
    requires 'F' !in s && 'e' !in s && 'i' !in s && '>' !in s && '<' !in s
    requires forall i :: 0 <= i < |s| - 1 ==> !(s[i] == '=' && s[i + 1] == '=')
    ensures ReplacementFromLine(s, rules) == Some(Rule("!=", "=="))
  {
    AbsentWords(s, [1, 1, 1, 1, 1, 1, 1, 1, 1, 1, 1, 1, 1]);
    NotContainsPair(s, '=', '=');
    ChoosesWordRule(s, rules, 14, 2);
  }

  lemma NotEqualLine(s: Str, rules: seq<Rule>)
    requires StandardRules(rules) && s == "5 != 5"
    ensures ReplacementFromLine(s, rules) == Some(Rule("!=", "=="))
  {
    NotEqualChars(s);
    NotEqualRule(s, rules);
  }

  lemma GreaterLine(s: Str, rules: seq<Rule>)
    requires StandardRules(rules) && s == "5 > 5"
    ensures ReplacementFromLine(s, rules) == Some(Rule(" > ", " < "))
  {
    WordLine(s, rules, 11, 1, [1, 1, 1, 1, 1, 1, 1, 1, 1, 1, 1]);
  }

  lemma LessLine(s: Str, rules: seq<Rule>)
    requires StandardRules(rules) && s == "5 < 5"
    ensures ReplacementFromLine(s, rules) == Some(Rule(" < ", " > "))
  {
    WordLine(s, rules, 12, 1, [1, 1, 1, 1, 1, 1, 1, 1, 1, 1, 1, 1]);
  }

  /** The comparison operators select their rules; in "5 != 5" the "==" rule, listed first, finds no match. */
  lemma ComparisonLines(rules: seq<Rule>)
    requires StandardRules(rules)
    ensures ReplacementFromLine("5 == 5", rules) == Some(Rule("==", "!="))
    ensures ReplacementFromLine("5 != 5", rules) == Some(Rule("!=", "=="))
    ensures ReplacementFromLine("5 > 5", rules) == Some(Rule(" > ", " < "))
    ensures ReplacementFromLine("5 < 5", rules) == Some(Rule(" < ", " > "))
  {
    EqualLine("5 == 5", rules);
    NotEqualLine("5 != 5", rules);
    GreaterLine("5 > 5", rules);
    LessLine("5 < 5", rules);
  }

  /** The removal of a string literal argument: `print(` + quoted body + `)` becomes `print()`. */
  lemma PrintCallQuotesRemoved(q: char, body: Str)
    requires IsQuote(q) && q !in body
    ensures RemoveQuotes("print(" + [q] + body + [q] + ")") == "print()"
  {
    RemoveQuotesOfQuoteFree(")");
    QuotedSpanRemoved("print(", q, body, ")");
    assert "print(" + ")" == "print()";
  }

  lemma PrintCallLine(s: Str, rules: seq<Rule>)
    requires StandardRules(rules) && s == "print()"
    ensures ReplacementFromLine(s, rules) == None
  {
    NoRuleLine(s, rules, [0, 0, 0, 0, 0, 0, 0, 0, 0, 0, 0, 0, 0, 0, 0]);
  }

  /** A call whose only argument is a string literal yields no rule, whatever the literal holds. */
  lemma PrintCallOfLiteral(q: char, body: Str, rules: seq<Rule>)
    requires StandardRules(rules) && IsQuote(q) && q !in body
    ensures ReplacementFromLine("print(" + [q] + body + [q] + ")", rules) == None
  {
    PrintCallQuotesRemoved(q, body);
    ReplacementSeesUnquoted("print(" + [q] + body + [q] + ")", rules);
    PrintCallLine("print()", rules);
  }

  /** The three quoted lines as calls whose only argument is a string literal. */
  lemma QuotedLineForms()
    ensures "print('a + b')" == "print(" + ['\''] + "a + b" + ['\''] + ")"
    ensures "print(\"a + b\")" == "print(" + ['"'] + "a + b" + ['"'] + ")"
    ensures "print('Hello World')" == "print(" + ['\''] + "Hello World" + ['\''] + ")"
  {
  }

  /** Text inside a string literal, single or double quoted, yields no rule. */
  lemma QuotedLines(rules: seq<Rule>)
    requires StandardRules(rules)
    ensures ReplacementFromLine("print('a + b')", rules) == None
    ensures ReplacementFromLine("print(\"a + b\")", rules) == None
    ensures ReplacementFromLine("print('Hello World')", rules) == None
  {
    QuotedLineForms();
    PrintCallOfLiteral('\'', "a + b", rules);
    PrintCallOfLiteral('"', "a + b", rules);
    PrintCallOfLiteral('\'', "Hello World", rules);
  }

  /** A line without the quote character holds no triple of it. */
  lemma {:induction false} TripleCountAbsent(s: Str, q: char)
    requires q !in s
    ensures TripleCount(s, q) == 0
    decreases |s|
  {
    if |s| >= 3 {
      assert s[0] in s;
      TripleCountAbsent(s[1..], q);
    }
  }

  lemma SplitFirstAbsent(s: Str, c: char)
    requires c !in s
    ensures SplitFirst(s, c) == s
  {
    assert s[..|s|] == s;
  }

  /**
   One step of the scanner outside a docstring, on a line without quote
   characters: a comment line yields nothing, any other line the first
   matching rule of its text in front of "#".
   */
  lemma PlainLineStep(path: Path, lines: seq<Str>, rules: seq<Rule>, i: nat)
    requires i < |lines|
    requires '"' !in lines[i] && '\'' !in lines[i]
    ensures ScanFrom(path, lines, rules, i, false)
      == (if StartsWith(lines[i], "#") then []
          else match ReplacementFromLine(SplitFirst(lines[i], '#'), rules)
               case None => []
               case Some(r) => [Mutant(path, i + 1, r.before, r.after, lines[i])])
         + ScanFrom(path, lines, rules, i + 1, false)
  {
    TripleCountAbsent(lines[i], '"');
    TripleCountAbsent(lines[i], '\'');
  }

  /** A line the scanner passes over: a comment line, or one no rule matches. */
  lemma SkipStep(path: Path, lines: seq<Str>, rules: seq<Rule>, i: nat)
    requires i < |lines| && '"' !in lines[i] && '\'' !in lines[i]
    requires StartsWith(lines[i], "#") || ReplacementFromLine(SplitFirst(lines[i], '#'), rules) == None
    ensures ScanFrom(path, lines, rules, i, false) == ScanFrom(path, lines, rules, i + 1, false)
  {
    PlainLineStep(path, lines, rules, i);
  }

  /** A line the scanner turns into a mutant. */
  lemma EmitStep(path: Path, lines: seq<Str>, rules: seq<Rule>, i: nat, r: Rule)
    requires i < |lines| && '"' !in lines[i] && '\'' !in lines[i]
    requires !StartsWith(lines[i], "#") && ReplacementFromLine(SplitFirst(lines[i], '#'), rules) == Some(r)
    ensures ScanFrom(path, lines, rules, i, false)
      == [Mutant(path, i + 1, r.before, r.after, lines[i])] + ScanFrom(path, lines, rules, i + 1, false)
  {
    PlainLineStep(path, lines, rules, i);
  }

  /** Three lines of which only the middle one yields a mutant. */
  lemma ScanSkipEmitSkip(path: Path, l: seq<Str>, rules: seq<Rule>, i: nat, r: Rule)
    requires i + 3 <= |l|
    requires forall k :: i <= k < i + 3 ==> '"' !in l[k] && '\'' !in l[k]
    requires StartsWith(l[i], "#") || ReplacementFromLine(SplitFirst(l[i], '#'), rules) == None
    requires !StartsWith(l[i + 1], "#") && ReplacementFromLine(SplitFirst(l[i + 1], '#'), rules) == Some(r)
    requires StartsWith(l[i + 2], "#") || ReplacementFromLine(SplitFirst(l[i + 2], '#'), rules) == None
    ensures ScanFrom(path, l, rules, i, false)
      == [Mutant(path, i + 2, r.before, r.after, l[i + 1])] + ScanFrom(path, l, rules, i + 3, false)
  {
    SkipStep(path, l, rules, i);
    EmitStep(path, l, rules, i + 1, r);
    SkipStep(path, l, rules, i + 2);
  }

  /** What the scanner needs of a line to treat it as plain code: no quote, "\n" or trailing "\r". */
  predicate Scannable(s: Str) {
    '"' !in s && '\'' !in s && PlainLine(s)
  }

  /** A quote-free line without "\n", "\r" or "#" is scannable code and is matched whole. */
  lemma CodeLineScannable(s: Str)
    requires QuoteFree(s) && '\n' !in s && '\r' !in s && '#' !in s
    ensures Scannable(s) && !StartsWith(s, "#") && SplitFirst(s, '#') == s
  {
    if |s| > 0 {
      assert s[|s| - 1] in s;
      assert s[0] in s;
    }
    SplitFirstAbsent(s, '#');
  }

  /** A code line in which no rule matches. */
  lemma CodeNoRule(s: Str, rules: seq<Rule>)
    requires StandardRules(rules) && QuoteFree(s) && NoDigit(s) && '\n' !in s && '\r' !in s && '#' !in s
    requires forall j :: 0 <= j < 15 ==> !Contains(s, WordRules[j].before)
    ensures Scannable(s) && !StartsWith(s, "#")
    ensures ReplacementFromLine(SplitFirst(s, '#'), rules) == None
  {
    CodeLineScannable(s);
    ChoosesNoRule(s, rules);
  }

  /** A code line in which word rule `k` is the first to match. */
  lemma CodeWord(s: Str, rules: seq<Rule>, k: nat, i: nat)
    requires StandardRules(rules) && QuoteFree(s) && '\n' !in s && '\r' !in s && '#' !in s && k < 15
    requires OccursAt(s, WordRules[k].before, i)
    requires forall j :: 0 <= j < k ==> !Contains(s, WordRules[j].before)
    ensures Scannable(s) && !StartsWith(s, "#")
    ensures ReplacementFromLine(SplitFirst(s, '#'), rules) == Some(WordRules[k])
  {
    CodeLineScannable(s);
    ChoosesWordRule(s, rules, k, i);
  }

  /** Word patterns `lo` to `lo + |js| - 1` each have a character, at `js[k - lo]`, that `s` lacks. */
  lemma AbsentRange(s: Str, lo: nat, js: seq<nat>)
    requires lo + |js| <= 15
    requires forall k :: 0 <= k < |js| ==> js[k] < |WordRules[lo + k].before| && WordRules[lo + k].before[js[k]] !in s
    ensures forall k :: lo <= k < lo + |js| ==> !Contains(s, WordRules[k].before)
  {
    forall k | lo <= k < lo + |js|
      ensures !Contains(s, WordRules[k].before)
    {
      NotContainsByChar(s, WordRules[k].before, js[k - lo]);
    }
  }

  /*
   The trickier scanner test writes a nine-line script and expects three
   mutants. Each of its lines gets its own lemmas below: the line's shape,
   the word patterns it lacks, and the rule it yields.
   */

  /** Where each word pattern has a character that neither definition line holds. */
  const DefinitionWitnesses: seq<nat> := [1, 1, 1, 1, 2, 1, 1, 1, 2, 1, 1, 1, 1, 0, 0]

  lemma DefAddShape(s: Str)
    requires s == "def add(a, b):"
    ensures QuoteFree(s) && NoDigit(s) && '\n' !in s && '\r' !in s && '#' !in s
  {
  }

  lemma DefAddChars(s: Str)
    requires s == "def add(a, b):"
    ensures '+' !in s && '-' !in s && '*' !in s && '/' !in s && 'n' !in s && 'o' !in s && 'T' !in s
  {
  }

  lemma DefAddMoreChars(s: Str)
    requires s == "def add(a, b):"
    ensures 'F' !in s && 'l' !in s && 'i' !in s && '>' !in s && '<' !in s && '=' !in s && '!' !in s
  {
  }

  /** "def add(a, b):" yields no rule. */
  lemma DefAddLine(s: Str, rules: seq<Rule>)
    requires StandardRules(rules) && s == "def add(a, b):"
    ensures Scannable(s) && !StartsWith(s, "#")
    ensures ReplacementFromLine(SplitFirst(s, '#'), rules) == None
  {
    DefAddShape(s);
    DefAddChars(s);
    DefAddMoreChars(s);
    AbsentWords(s, DefinitionWitnesses);
    CodeNoRule(s, rules);
  }

  lemma DefSubShape(s: Str)
    requires s == "def sub(a, b):"
    ensures QuoteFree(s) && NoDigit(s) && '\n' !in s && '\r' !in s && '#' !in s
  {
  }

  lemma DefSubChars(s: Str)
    requires s == "def sub(a, b):"
    ensures '+' !in s && '-' !in s && '*' !in s && '/' !in s && 'n' !in s && 'o' !in s && 'T' !in s
  {
  }

  lemma DefSubMoreChars(s: Str)
    requires s == "def sub(a, b):"
    ensures 'F' !in s && 'l' !in s && 'i' !in s && '>' !in s && '<' !in s && '=' !in s && '!' !in s
  {
  }

  /** "def sub(a, b):" yields no rule. */
  lemma DefSubLine(s: Str, rules: seq<Rule>)
    requires StandardRules(rules) && s == "def sub(a, b):"
    ensures Scannable(s) && !StartsWith(s, "#")
    ensures ReplacementFromLine(SplitFirst(s, '#'), rules) == None
  {
    DefSubShape(s);
    DefSubChars(s);
    DefSubMoreChars(s);
    AbsentWords(s, DefinitionWitnesses);
    CodeNoRule(s, rules);
  }

  /** The empty line yields no rule. */
  lemma EmptyLine(s: Str, rules: seq<Rule>)
    requires StandardRules(rules) && s == []
    ensures Scannable(s) && !StartsWith(s, "#")
    ensures ReplacementFromLine(SplitFirst(s, '#'), rules) == None
  {
    AbsentRange(s, 0, [0, 0, 0, 0, 0, 0, 0, 0, 0, 0, 0, 0, 0, 0, 0]);
    CodeNoRule(s, rules);
  }

  lemma ReturnPlusShape(s: Str)
    requires s == "    return a + b"
    ensures QuoteFree(s) && '\n' !in s && '\r' !in s && '#' !in s
    ensures OccursAt(s, WordRules[0].before, 12)
  {
    assert s[12..15] == " + ";
  }

  /** "    return a + b" yields the "+" rule. */
  lemma ReturnPlusLine(s: Str, rules: seq<Rule>)
    requires StandardRules(rules) && s == "    return a + b"
    ensures Scannable(s) && !StartsWith(s, "#")
    ensures ReplacementFromLine(SplitFirst(s, '#'), rules) == Some(Rule(" + ", " - "))
  {
    ReturnPlusShape(s);
    CodeWord(s, rules, 0, 12);
  }

  lemma ReturnMinusShape(s: Str)
    requires s == "    return a - b"
    ensures QuoteFree(s) && '\n' !in s && '\r' !in s && '#' !in s
    ensures OccursAt(s, WordRules[1].before, 12) && '+' !in s
  {
    assert s[12..15] == " - ";
  }

  /** "    return a - b" yields the "-" rule. */
  lemma ReturnMinusLine(s: Str, rules: seq<Rule>)
    requires StandardRules(rules) && s == "    return a - b"
    ensures Scannable(s) && !StartsWith(s, "#")
    ensures ReplacementFromLine(SplitFirst(s, '#'), rules) == Some(Rule(" - ", " + "))
  {
    ReturnMinusShape(s);
    AbsentWords(s, [1]);
    CodeWord(s, rules, 1, 12);
  }

  lemma ProductShape(s: Str)
    requires s == "res = sub(5, 6) * add(7, 8)"
    ensures QuoteFree(s) && '#' !in s
  {
  }

  lemma ProductChars(s: Str)
    requires s == "res = sub(5, 6) * add(7, 8)"
    ensures '\n' !in s && '\r' !in s
  {
  }

  lemma ProductOperatorChars(s: Str)
    requires s == "res = sub(5, 6) * add(7, 8)"
    ensures '+' !in s && '-' !in s
  {
  }

  lemma ProductOperator(s: Str)
    requires s == "res = sub(5, 6) * add(7, 8)"
    ensures OccursAt(s, WordRules[2].before, 15)
  {
    assert s[15..18] == " * ";
  }

  /** "res = sub(5, 6) * add(7, 8)" yields the "*" rule; its digits come later in the list. */
  lemma ProductLine(s: Str, rules: seq<Rule>)
    requires StandardRules(rules) && s == "res = sub(5, 6) * add(7, 8)"
    ensures Scannable(s) && !StartsWith(s, "#")
    ensures ReplacementFromLine(SplitFirst(s, '#'), rules) == Some(Rule(" * ", " / "))
  {
    ProductShape(s);
    ProductOperator(s);
    ProductChars(s);
    ProductOperatorChars(s);
    AbsentWords(s, [1, 1]);
    CodeWord(s, rules, 2, 15);
  }

  lemma PrintResultChars(s: Str)
    requires s == "print(res) "
    ensures '+' !in s && '-' !in s && '*' !in s && '/' !in s && 'a' !in s && 'o' !in s && 'T' !in s
  {
  }

  lemma PrintResultMoreChars(s: Str)
    requires s == "print(res) "
    ensures 'F' !in s && 'l' !in s && 'f' !in s && '>' !in s && '<' !in s && '=' !in s && '!' !in s
  {
  }

  lemma PrintResultShape(code: Str, comment: Str)
    requires code == "print(res) " && comment == " print the result *"
    ensures QuoteFree(code) && NoDigit(code) && '\n' !in code && '\r' !in code && '#' !in code
    ensures Scannable(comment)
  {
  }

  /** A code line followed by a comment is scannable when both parts are. */
  lemma CommentedScannable(code: Str, comment: Str)
    requires Scannable(code) && '#' !in code && Scannable(comment) && |code| > 0
    ensures Scannable(code + "#" + comment) && !StartsWith(code + "#" + comment, "#")
  {
    var s := code + "#" + comment;
    assert s[0] == code[0] && code[0] in code;
    if |comment| > 0 {
      assert s[|s| - 1] == comment[|comment| - 1];
    } else {
      assert s[|s| - 1] == '#';
    }
  }

  /** Only the code in front of "#" is matched, and it yields no rule. */
  lemma CommentedNoRule(code: Str, comment: Str, rules: seq<Rule>)
    requires StandardRules(rules) && QuoteFree(code) && NoDigit(code) && '#' !in code
    requires forall j :: 0 <= j < 15 ==> !Contains(code, WordRules[j].before)
    ensures ReplacementFromLine(SplitFirst(code + "#" + comment, '#'), rules) == None
  {
    var s := code + "#" + comment;
    FirstIndexOfJoin(code, '#', comment);
    assert s == code + ['#'] + comment;
    assert s[..|code|] == code;
    ChoosesNoRule(code, rules);
  }

  /** "print(res) # print the result *": the "*" in the trailing comment is not seen. */
  lemma PrintResultParts(s: Str, code: Str, comment: Str)
    requires s == "print(res) # print the result *"
    requires code == "print(res) " && comment == " print the result *"
    ensures s == code + "#" + comment
  {
  }

  lemma PrintResultLine(s: Str, code: Str, comment: Str, rules: seq<Rule>)
    requires StandardRules(rules) && s == "print(res) # print the result *"
    requires code == "print(res) " && comment == " print the result *"
    ensures Scannable(s) && !StartsWith(s, "#")
    ensures ReplacementFromLine(SplitFirst(s, '#'), rules) == None
  {
    PrintResultParts(s, code, comment);
    PrintResultShape(code, comment);
    PrintResultChars(code);
    PrintResultMoreChars(code);
    AbsentWords(code, [1, 1, 1, 1, 1, 1, 1, 1, 2, 2, 2, 1, 1, 0, 0]);
    CodeLineScannable(code);
    CommentedScannable(code, comment);
    CommentedNoRule(code, comment, rules);
  }

  /** "# this is a + comment" is a comment line. */
  lemma CommentLine(s: Str)
    requires s == "# this is a + comment"
    ensures Scannable(s) && StartsWith(s, "#")
  {
    assert s[..1] == "#";
  }

  /** The first four lines of the script's shape: one mutant, from the second line. */
  lemma ScanOfScriptHead(path: Path, l: seq<Str>, rules: seq<Rule>, r: Rule)
    requires |l| == 9
    requires Scannable(l[0]) && Scannable(l[1]) && Scannable(l[2]) && Scannable(l[3])
    requires StartsWith(l[3], "#") && !StartsWith(l[1], "#")
    requires ReplacementFromLine(SplitFirst(l[0], '#'), rules) == None
    requires ReplacementFromLine(SplitFirst(l[1], '#'), rules) == Some(r)
    requires ReplacementFromLine(SplitFirst(l[2], '#'), rules) == None
    ensures ScanFrom(path, l, rules, 0, false) == [Mutant(path, 2, r.before, r.after, l[1])] + ScanFrom(path, l, rules, 4, false)
  {
    ScanSkipEmitSkip(path, l, rules, 0, r);
    SkipStep(path, l, rules, 3);
  }

  /** The last five lines of the script's shape: mutants from the sixth and the eighth line. */
  lemma ScanOfScriptTail(path: Path, l: seq<Str>, rules: seq<Rule>, r: Rule, r': Rule)
    requires |l| == 9
    requires Scannable(l[4]) && Scannable(l[5]) && Scannable(l[6]) && Scannable(l[7]) && Scannable(l[8])
    requires !StartsWith(l[5], "#") && !StartsWith(l[7], "#")
    requires ReplacementFromLine(SplitFirst(l[4], '#'), rules) == None
    requires ReplacementFromLine(SplitFirst(l[5], '#'), rules) == Some(r)
    requires ReplacementFromLine(SplitFirst(l[6], '#'), rules) == None
    requires ReplacementFromLine(SplitFirst(l[7], '#'), rules) == Some(r')
    requires ReplacementFromLine(SplitFirst(l[8], '#'), rules) == None
    ensures ScanFrom(path, l, rules, 4, false)
      == [Mutant(path, 6, r.before, r.after, l[5]), Mutant(path, 8, r'.before, r'.after, l[7])]
  {
    ScanSkipEmitSkip(path, l, rules, 4, r);
    EmitStep(path, l, rules, 7, r');
    SkipStep(path, l, rules, 8);
    assert ScanFrom(path, l, rules, 9, false) == [];
  }

  /** The first four lines of the trickier script: one mutant, from the second line. */
  lemma ScriptHead(path: Path, l: seq<Str>, rules: seq<Rule>)
    requires StandardRules(rules) && |l| == 9
    requires l[0] == "def add(a, b):" && l[1] == "    return a + b" && l[2] == [] && l[3] == "# this is a + comment"
    ensures PlainLine(l[0]) && PlainLine(l[1]) && PlainLine(l[2]) && PlainLine(l[3])
    ensures ScanFrom(path, l, rules, 0, false)
      == [Mutant(path, 2, " + ", " - ", "    return a + b")] + ScanFrom(path, l, rules, 4, false)
  {
    DefAddLine(l[0], rules);
    ReturnPlusLine(l[1], rules);
    EmptyLine(l[2], rules);
    CommentLine(l[3]);
    ScanOfScriptHead(path, l, rules, Rule(" + ", " - "));
  }

  /** What the scanner sees of the script's fifth to seventh lines. */
  lemma ScriptMiddleLines(l: seq<Str>, rules: seq<Rule>)
    requires StandardRules(rules) && |l| == 9
    requires l[4] == "def sub(a, b):" && l[5] == "    return a - b" && l[6] == []
    ensures Scannable(l[4]) && Scannable(l[5]) && Scannable(l[6]) && !StartsWith(l[5], "#")
    ensures ReplacementFromLine(SplitFirst(l[4], '#'), rules) == None
    ensures ReplacementFromLine(SplitFirst(l[5], '#'), rules) == Some(Rule(" - ", " + "))
    ensures ReplacementFromLine(SplitFirst(l[6], '#'), rules) == None
  {
    DefSubLine(l[4], rules);
    ReturnMinusLine(l[5], rules);
    EmptyLine(l[6], rules);
  }

  /** What the scanner sees of the script's last two lines. */
  lemma ScriptLastLines(l: seq<Str>, rules: seq<Rule>)
    requires StandardRules(rules) && |l| == 9
    requires l[7] == "res = sub(5, 6) * add(7, 8)" && l[8] == "print(res) # print the result *"
    ensures Scannable(l[7]) && Scannable(l[8]) && !StartsWith(l[7], "#")
    ensures ReplacementFromLine(SplitFirst(l[7], '#'), rules) == Some(Rule(" * ", " / "))
    ensures ReplacementFromLine(SplitFirst(l[8], '#'), rules) == None
  {
    ProductLine(l[7], rules);
    PrintResultLine(l[8], "print(res) ", " print the result *", rules);
  }

  /** The last five lines of the trickier script: mutants from the sixth and the eighth line. */
  lemma ScriptTail(path: Path, l: seq<Str>, rules: seq<Rule>)
    requires StandardRules(rules) && |l| == 9
    requires l[4] == "def sub(a, b):" && l[5] == "    return a - b" && l[6] == []
    requires l[7] == "res = sub(5, 6) * add(7, 8)" && l[8] == "print(res) # print the result *"
    ensures PlainLine(l[4]) && PlainLine(l[5]) && PlainLine(l[6]) && PlainLine(l[7]) && PlainLine(l[8])
    ensures ScanFrom(path, l, rules, 4, false) == [
      Mutant(path, 6, " - ", " + ", "    return a - b"),
      Mutant(path, 8, " * ", " / ", "res = sub(5, 6) * add(7, 8)")
    ]
  {
    ScriptMiddleLines(l, rules);
    ScriptLastLines(l, rules);
    ScanOfScriptTail(path, l, rules, Rule(" - ", " + "), Rule(" * ", " / "));
  }

  /** Nine lines each of which survives being written and read back. */
  lemma NinePlain(l: seq<Str>)
    requires |l| == 9
    requires PlainLine(l[0]) && PlainLine(l[1]) && PlainLine(l[2]) && PlainLine(l[3]) && PlainLine(l[4])
    requires PlainLine(l[5]) && PlainLine(l[6]) && PlainLine(l[7]) && PlainLine(l[8])
    ensures Lines(JoinLines(l)) == l
  {
    LinesOfJoinPlain(l);
  }

  /**
   The trickier scanner test: a nine-line script yields three mutants, on
   lines 2, 6 and 8; the comment line and the operator in the trailing
   comment are passed over.
   */
  lemma ScriptMutants(path: Path, l: seq<Str>, rules: seq<Rule>)
    requires StandardRules(rules) && |l| == 9
    requires l[0] == "def add(a, b):" && l[1] == "    return a + b" && l[2] == []
    requires l[3] == "# this is a + comment" && l[4] == "def sub(a, b):" && l[5] == "    return a - b"
    requires l[6] == [] && l[7] == "res = sub(5, 6) * add(7, 8)" && l[8] == "print(res) # print the result *"
    ensures AddMutantsFromFile(path, JoinLines(l), rules) == [
      Mutant(path, 2, " + ", " - ", "    return a + b"),
      Mutant(path, 6, " - ", " + ", "    return a - b"),
      Mutant(path, 8, " * ", " / ", "res = sub(5, 6) * add(7, 8)")
    ]
  {
    ScriptHead(path, l, rules);
    ScriptTail(path, l, rules);
    NinePlain(l);
  }

  /** `BufRead::lines` on two lines of which only the first is ended by "\n". */
  lemma LinesOfUnterminated(a: Str, b: Str)
    requires PlainLine(a) && '\n' !in b && |b| > 0
    ensures Lines(a + "\n" + b) == [a, b]
  {
    var t := a + "\n" + b;
    FirstIndexOfJoin(a, '\n', b);
    assert t == a + ['\n'] + b;
    assert t[..|a|] == a && t[|a| + 1..] == b;
    assert Lines(b) == [b];
  }

  /** A two-line file whose last line has no "\n": the second line's verdict is the only mutant. */
  lemma ScanOfTwoLines(path: Path, a: Str, b: Str, rules: seq<Rule>, r: Rule)
    requires PlainLine(a) && '\n' !in b && |b| > 0
    requires '"' !in a && '\'' !in a && '"' !in b && '\'' !in b
    requires !StartsWith(a, "#") && !StartsWith(b, "#")
    requires ReplacementFromLine(SplitFirst(a, '#'), rules) == None
    requires ReplacementFromLine(SplitFirst(b, '#'), rules) == Some(r)
    ensures AddMutantsFromFile(path, a + "\n" + b, rules) == [Mutant(path, 2, r.before, r.after, b)]
  {
    LinesOfUnterminated(a, b);
    SkipStep(path, [a, b], rules, 0);
    EmitStep(path, [a, b], rules, 1, r);
    assert ScanFrom(path, [a, b], rules, 2, false) == [];
  }

  /** The one-mutant scanner test: the script's first two lines, the last without "\n". */
  lemma UnterminatedScriptMutant(path: Path, a: Str, b: Str, rules: seq<Rule>)
    requires StandardRules(rules) && a == "def add(a, b):" && b == "    return a + b"
    ensures AddMutantsFromFile(path, a + "\n" + b, rules) == [Mutant(path, 2, " + ", " - ", "    return a + b")]
  {
    DefAddLine(a, rules);
    ReturnPlusLine(b, rules);
    ScanOfTwoLines(path, a, b, rules, Rule(" + ", " - "));
  }

  /** `str::replace` keeps a first character at which the pattern does not start. */
  lemma ReplaceAllStep(s: Str, from: Str, to: Str)
    requires |from| > 0 && |s| > 0 && !StartsWith(s, from)
    ensures ReplaceAll(s, from, to) == [s[0]] + ReplaceAll(s[1..], from, to)
  {
    if |s| < |from| {
      assert [s[0]] + s[1..] == s;
    }
  }

  /** The text does not start with a pattern whose second character differs from the text's. */
  lemma NotStartsWithSecond(s: Str, from: Str)
    requires |from| >= 2 && (|s| >= 2 ==> s[1] != from[1])
    ensures !StartsWith(s, from)
  {
    if |s| >= |from| {
      assert s[..|from|][1] == s[1];
    }
  }

  /** The first character of such a prefix is kept, and the rest of the prefix still lacks the character. */
  lemma ReplaceAllSkipHead(p: Str, rest: Str, from: Str, to: Str)
    requires |from| >= 2 && |p| > 0 && from[1] !in p && (|rest| > 0 ==> rest[0] != from[1])
    ensures ReplaceAll(p + rest, from, to) == [p[0]] + ReplaceAll(p[1..] + rest, from, to)
    ensures from[1] !in p[1..]
  {
    var s := p + rest;
    assert s[1..] == p[1..] + rest;
    if |s| >= 2 {
      assert s[1] == if |p| > 1 then p[1] else rest[0];
    }
    NotStartsWithSecond(s, from);
    ReplaceAllStep(s, from, to);
    assert forall c :: c in p[1..] ==> c in p;
  }

  /** `str::replace` leaves a prefix alone when the pattern's second character is absent from it. */
  lemma {:induction false} ReplaceAllSkip(p: Str, rest: Str, from: Str, to: Str)
    requires |from| >= 2 && from[1] !in p && (|rest| > 0 ==> rest[0] != from[1])
    ensures ReplaceAll(p + rest, from, to) == p + ReplaceAll(rest, from, to)
    decreases |p|
  {
    if |p| > 0 {
      ReplaceAllSkipHead(p, rest, from, to);
      ReplaceAllSkip(p[1..], rest, from, to);
      assert [p[0]] + (p[1..] + ReplaceAll(rest, from, to)) == p + ReplaceAll(rest, from, to);
    } else {
      assert p + rest == rest;
    }
  }

  /** `str::replace` on the pattern followed by text too short to hold it again. */
  lemma ReplaceAllHead(from: Str, rest: Str, to: Str)
    requires |from| > 0 && |rest| < |from|
    ensures ReplaceAll(from + rest, from, to) == to + rest
  {
    assert StartsWith(from + rest, from) by {
      assert (from + rest)[..|from|] == from;
    }
    assert (from + rest)[|from|..] == rest;
  }

  /** One occurrence of an operator whose second character appears nowhere else is replaced. */
  lemma ReplaceSingleOperator(lhs: Str, op: Str, rhs: Str, to: Str)
    requires |op| >= 2 && op[1] !in lhs && op[0] != op[1] && |rhs| < |op|
    ensures ReplaceAll(lhs + op + rhs, op, to) == lhs + to + rhs
  {
    var tail := op + rhs;
    assert tail[0] == op[0];
    assert lhs + op + rhs == lhs + tail;
    ReplaceAllSkip(lhs, tail, op, to);
    ReplaceAllHead(op, rhs, to);
    assert lhs + (to + rhs) == lhs + to + rhs;
  }

  /** Two lines written back, each ended by "\n". */
  lemma JoinTwo(a: Str, b: Str)
    ensures JoinLines([a, b]) == a + "\n" + b + "\n"
  {
    assert [a, b][1..] == [b];
    assert [b][1..] == [];
    assert JoinLines([b]) == b + "\n" + JoinLines([]);
    assert JoinLines([]) == [];
  }

  /** Editing the last line of a two-line file that lacks a final "\n" writes the file with one. */
  lemma RewriteUnterminatedLast(path: Path, a: Str, b: Str, e: LineEdit)
    requires PlainLine(a) && '\n' !in b && |b| > 0
    ensures Rewrite(map[path := a + "\n" + b], path, 2, e) == Written(map[path := a + "\n" + ApplyEdit(e, b) + "\n"])
  {
    var b' := ApplyEdit(e, b);
    LinesOfUnterminated(a, b);
    assert [a, b][1 := b'] == [a, b'];
    JoinTwo(a, b');
    assert map[path := a + "\n" + b][path := a + "\n" + b' + "\n"] == map[path := a + "\n" + b' + "\n"];
  }

  /** Reading back a two-line file whose lines are both ended by "\n". */
  lemma LinesOfTerminated(a: Str, b: Str)
    requires PlainLine(a) && PlainLine(b)
    ensures Lines(a + "\n" + b + "\n") == [a, b]
  {
    JoinTwo(a, b);
    LinesOfJoinPlain([a, b]);
  }

  /** Editing the last line of a two-line file that ends in "\n". */
  lemma RewriteTerminatedLast(path: Path, a: Str, b: Str, e: LineEdit)
    requires PlainLine(a) && PlainLine(b)
    ensures Rewrite(map[path := a + "\n" + b + "\n"], path, 2, e) == Written(map[path := a + "\n" + ApplyEdit(e, b) + "\n"])
  {
    var b' := ApplyEdit(e, b);
    LinesOfTerminated(a, b);
    assert [a, b][1 := b'] == [a, b'];
    JoinTwo(a, b');
    assert map[path := a + "\n" + b + "\n"][path := a + "\n" + b' + "\n"] == map[path := a + "\n" + b' + "\n"];
  }

  /**
   Inserting a mutant on the last line `b` of a two-line file that lacks a
   final "\n" writes the file with one; removing it writes `b` back, again
   with the final "\n". The operator `op` occurs once in `b`.
   */
  lemma InsertRemoveSecondLine(path: Path, a: Str, b: Str, b': Str, lhs: Str, op: Str, to: Str, rhs: Str)
    requires b == lhs + op + rhs && b' == lhs + to + rhs
    requires PlainLine(a) && PlainLine(b) && PlainLine(b') && |b| > 0
    requires |op| >= 2 && op[1] !in lhs && op[0] != op[1] && |rhs| < |op|
    ensures var fs := map[path := a + "\n" + b];
            var m := Mutant(path, 2, op, to, b);
      && Insert(fs, m) == Written(map[path := a + "\n" + b' + "\n"])
      && Remove(Insert(fs, m).fs, m) == Written(map[path := a + "\n" + b + "\n"])
  {
    ReplaceSingleOperator(lhs, op, rhs, to);
    RewriteUnterminatedLast(path, a, b, Substitute(op, to));
    RewriteTerminatedLast(path, a, b', Restore(b));
  }

  /** Inserting into "a copy" at the same root is inserting in place, here on the terminated file. */
  lemma InsertInSameRootSecondLine(path: Path, root: Path, a: Str, b: Str, b': Str, lhs: Str, op: Str, to: Str, rhs: Str)
    requires root <= path
    requires b == lhs + op + rhs && b' == lhs + to + rhs
    requires PlainLine(a) && PlainLine(b)
    requires |op| >= 2 && op[1] !in lhs && op[0] != op[1] && |rhs| < |op|
    ensures InsertInNewRoot(map[path := a + "\n" + b + "\n"], Mutant(path, 2, op, to, b), root, root)
         == Written(map[path := a + "\n" + b' + "\n"])
  {
    var fs := map[path := a + "\n" + b + "\n"];
    assert path in fs && path <= path;
    InsertInSameRoot(fs, Mutant(path, 2, op, to, b), root);
    ReplaceSingleOperator(lhs, op, rhs, to);
    RewriteTerminatedLast(path, a, b, Substitute(op, to));
  }

  /**
   The insert test: a file without a final newline gets one when the mutant
   is written, removing the mutant restores the line, newline included, and
   inserting it again into a "copy" that is the same directory writes the
   mutated file once more.
   */
  lemma InsertRemoveUnterminated(path: Path, root: Path, a: Str, b: Str, b': Str)
    requires root <= path
    requires a == "def add(a, b):" && b == "    return a + b" && b' == "    return a - b"
    ensures var fs := map[path := a + "\n" + b];
            var m := Mutant(path, 2, " + ", " - ", b);
      && Insert(fs, m) == Written(map[path := a + "\n" + b' + "\n"])
      && Remove(Insert(fs, m).fs, m) == Written(map[path := a + "\n" + b + "\n"])
      && InsertInNewRoot(Remove(Insert(fs, m).fs, m).fs, m, root, root) == Written(map[path := a + "\n" + b' + "\n"])
  {
    InsertRemoveSecondLine(path, a, b, b', "    return a", " + ", " - ", "b");
    InsertInSameRootSecondLine(path, root, a, b, b', "    return a", " + ", " - ", "b");
  }
}
