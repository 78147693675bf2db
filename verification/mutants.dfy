/**
 The mutation rules of the tool and the mutant record: the rule categories,
 how the enabled categories expand into an ordered rule list, how quoted
 spans are removed from a line, and how the first applicable rule is chosen.
 */
module Mutants {
  import opened Text
  import opened Wrappers
  import opened Files

  /** The rule categories a user can enable. */
  datatype MutationType = MathOps | Conjunctions | Booleans | ControlFlow | CompOps | Numbers

  /** A replacement: the first text is searched for, the second replaces it. */
  datatype Rule = Rule(before: Str, after: Str)

  /**
   One candidate fault: replace `before` by `after` on line `lineNumber`
   (counted from 1) of the file at `filePath`. `oldLine` is the whole line as
   it was scanned; putting it back is how the fault is reverted.
   */
  datatype Mutant = Mutant(filePath: Path, lineNumber: nat, before: Str, after: Str, oldLine: Str)

  /** The digit rules: "n" becomes "n+1" for n from 0 to 9, so "9" becomes "10". */
  function NumberRules(): (rs: seq<Rule>)
    ensures |rs| == 10
  {
    seq(10, n requires 0 <= n < 10 => Rule(NatToString(n), NatToString(n + 1)))
  }

  /** The fixed rule list of one category, in the order the category lists them. */
  function CategoryRules(t: MutationType): seq<Rule> {
    match t
    case MathOps => [Rule(" + ", " - "), Rule(" - ", " + "), Rule(" * ", " / "), Rule(" / ", " * ")]
    case Conjunctions => [Rule(" and ", " or "), Rule(" or ", " and ")]
    case Booleans => [Rule(" True ", " False "), Rule(" False ", " True ")]
    case ControlFlow => [Rule(" else: ", " elif False: "), Rule(" if not ", " if "), Rule(" if ", " if not ")]
    case CompOps => [Rule(" > ", " < "), Rule(" < ", " > "), Rule("==", "!="), Rule("!=", "==")]
    case Numbers => NumberRules()
  }

  /**
   The expansion loop over the requested categories. `numbers` is the digit
   rule list still available: appending it to the result drains it, so a
   second `Numbers` contributes nothing.
   */
  function ExpandFrom(types: seq<MutationType>, numbers: seq<Rule>): seq<Rule>
    decreases |types|
  {
    if |types| == 0 then []
    else if types[0] == Numbers then numbers + ExpandFrom(types[1..], [])
    else CategoryRules(types[0]) + ExpandFrom(types[1..], numbers)
  }

  /** The ordered rule list for the requested categories, in the order they are passed. */
  function BuildReplacements(types: seq<MutationType>): seq<Rule> {
    ExpandFrom(types, NumberRules())
  }

  /** Every category's own rules, concatenated in list order. */
  function ConcatCategories(types: seq<MutationType>): seq<Rule>
    decreases |types|
  {
    if |types| == 0 then [] else CategoryRules(types[0]) + ConcatCategories(types[1..])
  }

  /** The category list with every `Numbers` after the first one dropped (once `seen`, all of them). */
  function DropRepeatedNumbers(types: seq<MutationType>, seen: bool): (r: seq<MutationType>)
    ensures |r| <= |types|
    decreases |types|
  {
    if |types| == 0 then []
    else if types[0] == Numbers then
      (if seen then [] else [Numbers]) + DropRepeatedNumbers(types[1..], true)
    else [types[0]] + DropRepeatedNumbers(types[1..], seen)
  }

  lemma {:induction false} ExpandFromSpec(types: seq<MutationType>, seen: bool)
    ensures ExpandFrom(types, if seen then [] else NumberRules())
         == ConcatCategories(DropRepeatedNumbers(types, seen))
    decreases |types|
  {
    if |types| > 0 {
      var rest := DropRepeatedNumbers(types[1..], seen || types[0] == Numbers);
      ExpandFromSpec(types[1..], seen || types[0] == Numbers);
      var kept := if types[0] == Numbers then (if seen then [] else [Numbers]) else [types[0]];
      assert DropRepeatedNumbers(types, seen) == kept + rest;
      ConcatCategoriesAppend(kept, rest);
    }
  }

  lemma {:induction false} ConcatCategoriesAppend(a: seq<MutationType>, b: seq<MutationType>)
    ensures ConcatCategories(a + b) == ConcatCategories(a) + ConcatCategories(b)
    decreases |a|
  {
    if |a| > 0 {
      assert (a + b)[0] == a[0];
      assert (a + b)[1..] == a[1..] + b;
      ConcatCategoriesAppend(a[1..], b);
    } else {
      assert a + b == b;
    }
  }

  /**
   The rule list is each requested category's rules in the order the
   categories are passed, with the digit rules only at the first `Numbers`.
   */
  lemma BuildReplacementsSpec(types: seq<MutationType>)
    ensures BuildReplacements(types) == ConcatCategories(DropRepeatedNumbers(types, false))
  {
    ExpandFromSpec(types, false);
  }

  /** A rule is active exactly when one of the requested categories lists it. */
  lemma {:induction false} BuildReplacementsMembership(types: seq<MutationType>, rule: Rule)
    ensures rule in BuildReplacements(types) <==> exists k :: 0 <= k < |types| && rule in CategoryRules(types[k])
  {
    BuildReplacementsSpec(types);
    DropRepeatedNumbersMembership(types, false, rule);
  }

  lemma {:induction false} DropRepeatedNumbersMembership(types: seq<MutationType>, seen: bool, rule: Rule)
    ensures rule in ConcatCategories(DropRepeatedNumbers(types, seen))
       <==> (exists k :: 0 <= k < |types| && types[k] != Numbers && rule in CategoryRules(types[k]))
            || (!seen && Numbers in types && rule in NumberRules())
    decreases |types|
  {
    if |types| > 0 {
      var seen' := seen || types[0] == Numbers;
      DropRepeatedNumbersMembership(types[1..], seen', rule);
      var kept := if types[0] == Numbers then (if seen then [] else [Numbers]) else [types[0]];
      var rest := DropRepeatedNumbers(types[1..], seen');
      assert DropRepeatedNumbers(types, seen) == kept + rest;
      ConcatCategoriesAppend(kept, rest);
      assert ConcatCategories(kept) == (if kept == [] then [] else CategoryRules(kept[0]));
      if exists k :: 0 <= k < |types[1..]| && types[1..][k] != Numbers && rule in CategoryRules(types[1..][k]) {
        var k :| 0 <= k < |types[1..]| && types[1..][k] != Numbers && rule in CategoryRules(types[1..][k]);
        assert types[k + 1] == types[1..][k];
      }
      if exists k :: 0 <= k < |types| && types[k] != Numbers && rule in CategoryRules(types[k]) {
        var k :| 0 <= k < |types| && types[k] != Numbers && rule in CategoryRules(types[k]);
        if k > 0 {
          assert types[1..][k - 1] == types[k];
        }
      }
      assert Numbers in types <==> types[0] == Numbers || Numbers in types[1..];
    }
  }

  /** No rule text spans a line break, so a substitution keeps a line one line. */
  lemma CategoryRulesOneLine(t: MutationType)
    ensures forall r :: r in CategoryRules(t) ==> '\n' !in r.before && '\n' !in r.after
  {
    if t == Numbers {
      forall r | r in NumberRules()
        ensures '\n' !in r.before && '\n' !in r.after
      {
        var k :| 0 <= k < 10 && NumberRules()[k] == r;
        assert r == Rule(NatToString(k), NatToString(k + 1));
      }
    } else {
      var rs := CategoryRules(t);
      forall i | 0 <= i < |rs|
        ensures '\n' !in rs[i].before && '\n' !in rs[i].after
      {
        RuleTextsOneLine(t, i);
      }
    }
  }

  lemma RuleTextsOneLine(t: MutationType, i: nat)
    requires t != Numbers && i < |CategoryRules(t)|
    ensures '\n' !in CategoryRules(t)[i].before && '\n' !in CategoryRules(t)[i].after
  {
    if t == MathOps || t == Conjunctions || t == Booleans {
      OperatorTextsOneLine(t, i);
    } else {
      KeywordTextsOneLine(t, i);
    }
  }

  lemma OperatorTextsOneLine(t: MutationType, i: nat)
    requires (t == MathOps || t == Conjunctions || t == Booleans) && i < |CategoryRules(t)|
    ensures '\n' !in CategoryRules(t)[i].before && '\n' !in CategoryRules(t)[i].after
  {
  }

  lemma KeywordTextsOneLine(t: MutationType, i: nat)
    requires (t == ControlFlow || t == CompOps) && i < |CategoryRules(t)|
    ensures '\n' !in CategoryRules(t)[i].before && '\n' !in CategoryRules(t)[i].after
  {
  }

  lemma BuildReplacementsOneLine(types: seq<MutationType>)
    ensures forall r :: r in BuildReplacements(types) ==> '\n' !in r.before && '\n' !in r.after
  {
    forall r | r in BuildReplacements(types)
      ensures '\n' !in r.before && '\n' !in r.after
    {
      BuildReplacementsMembership(types, r);
      var k :| 0 <= k < |types| && r in CategoryRules(types[k]);
      CategoryRulesOneLine(types[k]);
    }
  }

  predicate IsQuote(c: char) {
    c == '\'' || c == '"'
  }

  /**
   Quoted spans deleted, scanning left to right: a quote character and
   everything up to the next occurrence of the same character go; a quote
   with no partner after it stays.
   */
  function RemoveQuotes(s: Str): (r: Str)
    ensures |r| <= |s|
    ensures forall c :: c in r ==> c in s
    ensures forall i, j :: 0 <= i < j < |r| && IsQuote(r[i]) ==> r[j] != r[i]
    decreases |s|
  {
    if |s| == 0 then []
    else if IsQuote(s[0]) && s[0] in s[1..] then
      var close := FirstIndex(s[1..], s[0]);
      RemoveQuotes(s[1..][close + 1..])
    else
      var rest := RemoveQuotes(s[1..]);
      assert forall j :: 0 <= j < |rest| ==> rest[j] in s[1..];
      [s[0]] + rest
  }

  /** Text without quote characters passes through unchanged. */
  lemma {:induction false} RemoveQuotesOfQuoteFree(s: Str)
    requires forall k :: 0 <= k < |s| ==> !IsQuote(s[k])
    ensures RemoveQuotes(s) == s
    decreases |s|
  {
    if |s| > 0 {
      RemoveQuotesOfQuoteFree(s[1..]);
      assert [s[0]] + s[1..] == s;
    }
  }

  /** Quote-free text in front of the rest is kept, and the rest is processed on its own. */
  lemma {:induction false} RemoveQuotesOfQuoteFreePrefix(p: Str, rest: Str)
    requires forall k :: 0 <= k < |p| ==> !IsQuote(p[k])
    ensures RemoveQuotes(p + rest) == p + RemoveQuotes(rest)
    decreases |p|
  {
    if |p| > 0 {
      var s := p + rest;
      assert s[0] == p[0] && !IsQuote(s[0]);
      assert s[1..] == p[1..] + rest;
      RemoveQuotesOfQuoteFreePrefix(p[1..], rest);
      assert RemoveQuotes(s) == [s[0]] + RemoveQuotes(s[1..]);
      assert [p[0]] + (p[1..] + RemoveQuotes(rest)) == p + RemoveQuotes(rest);
    } else {
      assert p + rest == rest;
    }
  }

  /**
   A complete quoted span, after quote-free text, disappears together with its
   quotes: what is written inside a string literal is never seen by a rule.
   */
  lemma QuotedSpanRemoved(p: Str, q: char, body: Str, rest: Str)
    requires forall k :: 0 <= k < |p| ==> !IsQuote(p[k])
    requires IsQuote(q) && q !in body
    ensures RemoveQuotes(p + [q] + body + [q] + rest) == p + RemoveQuotes(rest)
  {
    var s := [q] + body + [q] + rest;
    assert p + [q] + body + [q] + rest == p + s;
    RemoveQuotesOfQuoteFreePrefix(p, s);
    assert s[1..] == body + [q] + rest;
    FirstIndexOfJoin(body, q, rest);
    assert q in s[1..] by {
      assert s[1..][|body|] == q;
    }
    assert s[1..][|body| + 1..] == rest;
  }

  /** Text in which no quote character is followed later by the same character passes through unchanged. */
  lemma {:induction false} RemoveQuotesOfUnpaired(s: Str)
    requires forall i, j :: 0 <= i < j < |s| && IsQuote(s[i]) ==> s[j] != s[i]
    ensures RemoveQuotes(s) == s
    decreases |s|
  {
    if |s| > 0 {
      assert s[0] !in s[1..] || !IsQuote(s[0]) by {
        forall j | 0 <= j < |s[1..]| && IsQuote(s[0])
          ensures s[1..][j] != s[0]
        {
          assert s[1..][j] == s[j + 1];
        }
      }
      assert forall i, j :: 0 <= i < j < |s[1..]| && IsQuote(s[1..][i]) ==> s[1..][j] != s[1..][i] by {
        forall i, j | 0 <= i < j < |s[1..]| && IsQuote(s[1..][i])
          ensures s[1..][j] != s[1..][i]
        {
          assert s[1..][j] == s[j + 1] && s[1..][i] == s[i + 1];
        }
      }
      RemoveQuotesOfUnpaired(s[1..]);
      assert [s[0]] + s[1..] == s;
    }
  }

  /** Removing quoted spans twice is removing them once. */
  lemma RemoveQuotesIdempotent(s: Str)
    ensures RemoveQuotes(RemoveQuotes(s)) == RemoveQuotes(s)
  {
    RemoveQuotesOfUnpaired(RemoveQuotes(s));
  }

  /** `Iterator::find` over the rules: the position of the first rule whose `before` occurs in `text`. */
  function FirstMatchIndex(text: Str, rules: seq<Rule>): (k: nat)
    ensures k <= |rules|
    ensures k < |rules| ==> Contains(text, rules[k].before)
    ensures forall j :: 0 <= j < k ==> !Contains(text, rules[j].before)
    decreases |rules|
  {
    if |rules| == 0 then 0
    else if Contains(text, rules[0].before) then 0
    else 1 + FirstMatchIndex(text, rules[1..])
  }

  /**
   The replacement for a line: the first rule, in list order, whose `before`
   occurs in the line once its quoted spans are removed; none if no rule does.
   */
  function ReplacementFromLine(line: Str, rules: seq<Rule>): (r: Option<Rule>)
    ensures r.None? <==> forall k :: 0 <= k < |rules| ==> !Contains(RemoveQuotes(line), rules[k].before)
    ensures r.Some? ==> exists k :: 0 <= k < |rules| && rules[k] == r.value
                          && Contains(RemoveQuotes(line), rules[k].before)
                          && forall j :: 0 <= j < k ==> !Contains(RemoveQuotes(line), rules[j].before)
  {
    var k := FirstMatchIndex(RemoveQuotes(line), rules);
    if k < |rules| then Some(rules[k]) else None
  }

  /** The rule chosen for a line is the rule chosen for its unquoted text: nothing inside quotes is seen. */
  lemma ReplacementSeesUnquoted(line: Str, rules: seq<Rule>)
    ensures ReplacementFromLine(line, rules) == ReplacementFromLine(RemoveQuotes(line), rules)
  {
    RemoveQuotesIdempotent(line);
  }
}
