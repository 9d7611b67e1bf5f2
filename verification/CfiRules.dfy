/**
 * Rule sets of STACK CFI records: CFIRuleParser, CFIFrameInfoParseHandler, CFIFrameInfo::Serialize
 * and Module::WriteRuleMap. A rule set that is written and parsed again sets the same rules.
 */
module CfiRules {
  import opened Text

  const WHITE: string := " \t\r\n"

  datatype Rule = Rule(name: string, expr: string)

  /** CFIFrameInfo: an empty string where there is no rule. */
  datatype FrameInfo = FrameInfo(cfa: string, ra: string, regs: map<string, string>)

  const EMPTY: FrameInfo := FrameInfo("", "", map[])

  /** The handler calls of CFIRuleParser::Report, as CFIFrameInfoParseHandler carries them out. */
  function SetRule(info: FrameInfo, name: string, expr: string): FrameInfo {
    if name == ".cfa" then info.(cfa := expr)
    else if name == ".ra" then info.(ra := expr)
    else info.(regs := info.regs[name := expr])
  }

  /** Set the rules one after another. */
  function ApplyRules(rules: seq<Rule>, info: FrameInfo): FrameInfo {
    if rules == [] then info else ApplyRules(rules[1..], SetRule(info, rules[0].name, rules[0].expr))
  }

  /** The result of parsing: whether it succeeded, and the rules set before it ended. */
  datatype Parsed = Parsed(ok: bool, info: FrameInfo)

  function Report(name: string, expr: string, info: FrameInfo): Parsed {
    if name == "" || expr == "" then Parsed(false, info) else Parsed(true, SetRule(info, name, expr))
  }

  predicate IsName(token: string) {
    token != "" && token[|token| - 1] == ':'
  }

  function Extend(expr: string, token: string): string {
    if expr == "" then token else expr + " " + token
  }

  /** CFIRuleParser::Parse on the remaining tokens, with `name` and `expr` read so far. */
  function ParseTokens(tokens: seq<string>, name: string, expr: string, info: FrameInfo): Parsed
    decreases tokens
  {
    if tokens == [] then Report(name, expr, info)
    else
      var token := tokens[0];
      if IsName(token) then
        if |token| < 2 then Parsed(false, info)
        else if name != "" || expr != "" then
          var r := Report(name, expr, info);
          if r.ok then ParseTokens(tokens[1..], token[..|token| - 1], "", r.info) else r
        else ParseTokens(tokens[1..], token[..|token| - 1], "", info)
      else ParseTokens(tokens[1..], name, Extend(expr, token), info)
  }

  function ParseRuleSet(text: string, info: FrameInfo): Parsed {
    ParseTokens(Tokens(text, WHITE), "", "", info)
  }

  /** CFIRuleParser::Parse with a handler that fills in `info`. */
  method Parse(ruleSet: string, info: FrameInfo) returns (r: Parsed)
    ensures r == ParseRuleSet(ruleSet, info)
  {
    var name, expr, rules := "", "", info;
    var cursor := ruleSet;
    while true
      invariant ParseRuleSet(ruleSet, info) == ParseTokens(Tokens(cursor, WHITE), name, expr, rules)
      decreases |cursor|
    {
      var next := StrTok(cursor, WHITE);
      // End of rule set?
      if next.None? {
        return Report(name, expr, rules);
      }
      var token := next.value.0;
      assert Tokens(cursor, WHITE)[1..] == Tokens(next.value.1, WHITE);
      cursor := next.value.1;
      if IsName(token) {
        // Names can't be empty.
        if |token| < 2 {
          return Parsed(false, rules);
        }
        // The name before this one is complete.
        if name != "" || expr != "" {
          var reported := Report(name, expr, rules);
          if !reported.ok {
            return reported;
          }
          rules := reported.info;
        }
        name, expr := token[..|token| - 1], "";
      } else {
        expr := Extend(expr, token);
      }
    }
  }

  // ---------------------------------------------------------------------------------------
  // Writing rules
  // ---------------------------------------------------------------------------------------

  function RuleText(r: Rule): string {
    r.name + ": " + r.expr
  }

  function RuleTexts(rules: seq<Rule>): seq<string> {
    if rules == [] then [] else [RuleText(rules[0])] + RuleTexts(rules[1..])
  }

  /** Module::WriteRuleMap; `rules` lists the map in the order of its keys. */
  method WriteRuleMap(rules: seq<Rule>) returns (text: string)
    ensures text == Join(RuleTexts(rules))
  {
    text := "";
    for i := 0 to |rules|
      invariant text == Join(RuleTexts(rules[..i]))
    {
      RuleTextsAppend(rules[..i], rules[i]);
      assert rules[..i + 1] == rules[..i] + [rules[i]];
      if i != 0 {
        JoinConcat(RuleTexts(rules[..i]), [RuleText(rules[i])]);
        text := text + " ";
      }
      text := text + (rules[i].name + ": " + rules[i].expr);
    }
    assert rules[..|rules|] == rules;
  }

  lemma {:induction false} RuleTextsAppend(rules: seq<Rule>, r: Rule)
    ensures RuleTexts(rules + [r]) == RuleTexts(rules) + [RuleText(r)]
    ensures rules != [] ==> RuleTexts(rules) != []
  {
    if rules == [] {
      assert rules + [r] == [r];
    } else {
      RuleTextsAppend(rules[1..], r);
      assert (rules + [r])[1..] == rules[1..] + [r];
    }
  }

  /** The words of an expression, and the expression made of them again. */
  ghost predicate GoodExpr(expr: string) {
    var words := Tokens(expr, WHITE);
    && expr != "" && expr == Join(words)
    && forall i :: 0 <= i < |words| ==> Clean(words[i], WHITE) && !IsName(words[i])
  }

  /** A nonempty name without white space, and an expression of single-spaced words none of which ends in a colon. */
  ghost predicate GoodRule(r: Rule) {
    Clean(r.name, WHITE) && GoodExpr(r.expr)
  }

  ghost predicate GoodRules(rules: seq<Rule>) {
    forall i :: 0 <= i < |rules| ==> GoodRule(rules[i])
  }

  /** The words that a list of rules is written as. */
  ghost function RuleWords(rules: seq<Rule>): seq<string> {
    if rules == [] then [] else [rules[0].name + ":"] + Tokens(rules[0].expr, WHITE) + RuleWords(rules[1..])
  }

  /** The text of rules whose names have no white space is split into their words. */
  lemma {:induction false} WordsOfText(rules: seq<Rule>)
    requires forall i :: 0 <= i < |rules| ==> Clean(rules[i].name, WHITE)
    ensures Tokens(Join(RuleTexts(rules)), WHITE) == RuleWords(rules)
  {
    if rules != [] {
      var r, rest := rules[0], rules[1..];
      WordsOfText(rest);
      WordsOfRule(r);
      hide Tokens, RuleText;
      if rest == [] {
        assert RuleTexts(rules) == [RuleText(r)];
      } else {
        assert Join(RuleTexts(rules)) == RuleText(r) + [' '] + Join(RuleTexts(rest)) by {
          assert RuleTexts(rules)[1..] == RuleTexts(rest);
        }
        TokensConcat(RuleText(r), ' ', Join(RuleTexts(rest)), WHITE);
      }
    }
  }

  lemma WordsOfRule(r: Rule)
    requires Clean(r.name, WHITE)
    ensures Tokens(RuleText(r), WHITE) == [r.name + ":"] + Tokens(r.expr, WHITE)
  {
    assert RuleText(r) == (r.name + ":") + [' '] + r.expr;
    TokensConcat(r.name + ":", ' ', r.expr, WHITE);
    StrTokClean(r.name + ":", ' ', "", WHITE);
    assert Tokens("", WHITE) == [];
  }

  /** The words of an expression extend the pending expression. */
  lemma {:induction false} ParseWords(words: seq<string>, rest: seq<string>, name: string, expr: string,
                                      info: FrameInfo)
    requires words != [] && forall i :: 0 <= i < |words| ==> words[i] != "" && !IsName(words[i])
    ensures ParseTokens(words + rest, name, expr, info) == ParseTokens(rest, name, Extend(expr, Join(words)), info)
  {
    assert (words + rest)[1..] == words[1..] + rest;
    if |words| == 1 {
      assert words[1..] + rest == rest;
    } else {
      ParseWords(words[1..], rest, name, Extend(expr, words[0]), info);
      assert Extend(Extend(expr, words[0]), Join(words[1..])) == Extend(expr, Join(words));
    }
  }

  /** With a rule pending, the rules that follow are set after it. */
  lemma {:induction false} ParsePending(rules: seq<Rule>, name: string, expr: string, info: FrameInfo)
    requires GoodRules(rules) && name != "" && expr != ""
    ensures ParseTokens(RuleWords(rules), name, expr, info)
         == Parsed(true, ApplyRules(rules, SetRule(info, name, expr)))
  {
    if rules != [] {
      var r, info' := rules[0], SetRule(info, name, expr);
      assert GoodRule(r);
      ParseHead(r, RuleWords(rules[1..]), name, expr, info);
      ParsePending(rules[1..], r.name, r.expr, info');
    }
  }

  /** One written rule makes that rule the pending one. */
  lemma ParseHead(r: Rule, rest: seq<string>, name: string, expr: string, info: FrameInfo)
    requires GoodRule(r) && ((name == "" && expr == "") || (name != "" && expr != ""))
    ensures ParseTokens([r.name + ":"] + Tokens(r.expr, WHITE) + rest, name, expr, info)
         == ParseTokens(rest, r.name, r.expr, if name == "" then info else SetRule(info, name, expr))
  {
    var words := Tokens(r.expr, WHITE);
    var all := [r.name + ":"] + words + rest;
    assert all[0] == r.name + ":" && all[1..] == words + rest;
    assert (r.name + ":")[..|r.name|] == r.name;
    ParseWords(words, rest, r.name, "", if name == "" then info else SetRule(info, name, expr));
  }

  /** Writing a rule map and parsing the text sets exactly those rules. */
  lemma RulesRoundTrip(rules: seq<Rule>, info: FrameInfo)
    requires GoodRules(rules) && rules != []
    ensures ParseRuleSet(Join(RuleTexts(rules)), info) == Parsed(true, ApplyRules(rules, info))
  {
    assert forall i :: 0 <= i < |rules| ==> GoodRule(rules[i]);
    WordsOfText(rules);
    var r := rules[0];
    ParseHead(r, RuleWords(rules[1..]), "", "", info);
    ParsePending(rules[1..], r.name, r.expr, info);
  }

  /** A rule that can be written: its expression is well formed or missing. */
  ghost predicate WritableRule(r: Rule) {
    Clean(r.name, WHITE) && (r.expr == "" || GoodExpr(r.expr))
  }

  ghost predicate Writable(rules: seq<Rule>) {
    forall i :: 0 <= i < |rules| ==> WritableRule(rules[i])
  }

  /** There are rules, and none lacks its expression. */
  ghost predicate Complete(rules: seq<Rule>) {
    rules != [] && forall i :: 0 <= i < |rules| ==> rules[i].expr != ""
  }

  /** A rule without an expression makes the parser fail, wherever it stands. */
  lemma {:induction false} MissingFails(rules: seq<Rule>, name: string, expr: string, info: FrameInfo)
    requires Writable(rules) && (exists i :: 0 <= i < |rules| && rules[i].expr == "")
    requires (name == "" && expr == "") || (name != "" && expr != "")
    ensures !ParseTokens(RuleWords(rules), name, expr, info).ok
  {
    var r, rest := rules[0], rules[1..];
    assert WritableRule(r);
    if r.expr != "" {
      ParseHead(r, RuleWords(rest), name, expr, info);
      var i :| 0 <= i < |rules| && rules[i].expr == "";
      assert rest[i - 1].expr == "";
      MissingFails(rest, r.name, r.expr, if name == "" then info else SetRule(info, name, expr));
    } else {
      assert Tokens(r.expr, WHITE) == [];
      var words := RuleWords(rules);
      assert words[0] == r.name + ":" && words[1..] == RuleWords(rest);
      assert words[0][..|words[0]| - 1] == r.name;
      if rest != [] {
        assert WritableRule(rest[0]) && RuleWords(rest)[0] == rest[0].name + ":";
      }
    }
  }

  /**
   * The text of writable rules parses exactly when there are rules and none lacks its expression; then
   * it sets them.
   */
  lemma ParsesExactly(rules: seq<Rule>, info: FrameInfo)
    requires Writable(rules)
    ensures var p := ParseRuleSet(Join(RuleTexts(rules)), info);
            (p.ok <==> Complete(rules)) && (p.ok ==> p.info == ApplyRules(rules, info))
  {
    if Complete(rules) {
      CompleteGood(rules);
      RulesRoundTrip(rules, info);
    } else {
      assert forall i :: 0 <= i < |rules| ==> WritableRule(rules[i]);
      WordsOfText(rules);
      if rules != [] {
        MissingFails(rules, "", "", info);
      }
    }
  }

  lemma CompleteGood(rules: seq<Rule>)
    requires Writable(rules) && Complete(rules)
    ensures GoodRules(rules)
  {
    forall i | 0 <= i < |rules| ensures GoodRule(rules[i]) {
      assert WritableRule(rules[i]);
    }
  }

  // ---------------------------------------------------------------------------------------
  // CFIFrameInfo::Serialize
  // ---------------------------------------------------------------------------------------

  /** The map that a list of rules describes. */
  ghost function MapOf(rules: seq<Rule>): map<string, string> {
    if rules == [] then map[]
    else
      var last := rules[|rules| - 1];
      MapOf(rules[..|rules| - 1])[last.name := last.expr]
  }

  /** The rules of `info` in the order in which they are serialized, `regs` listing its register rules. */
  ghost function AllRules(info: FrameInfo, regs: seq<Rule>): seq<Rule> {
    Optional(".cfa", info.cfa) + Optional(".ra", info.ra) + regs
  }

  ghost function Optional(name: string, expr: string): seq<Rule> {
    if expr == "" then [] else [Rule(name, expr)]
  }

  method Serialize(info: FrameInfo, regs: seq<Rule>) returns (text: string)
    ensures text == Join(RuleTexts(AllRules(info, regs)))
  {
    ghost var done: seq<Rule> := [];
    text := "";
    if info.cfa != "" {
      text := AddRule(text, [], Rule(".cfa", info.cfa));
      done := [] + [Rule(".cfa", info.cfa)];
    }
    if info.ra != "" {
      text := AddRule(text, done, Rule(".ra", info.ra));
      done := done + [Rule(".ra", info.ra)];
    }
    ghost var fixed := done;
    for i := 0 to |regs|
      invariant done == fixed + regs[..i]
      invariant text == Join(RuleTexts(done))
    {
      text := AddRule(text, done, regs[i]);
      assert fixed + regs[..i] + [regs[i]] == fixed + regs[..i + 1];
      done := done + [regs[i]];
    }
    assert regs[..|regs|] == regs;
    assert done == AllRules(info, regs);
  }

  /** Append one rule, after a space unless nothing has been written yet. */
  method AddRule(text: string, ghost done: seq<Rule>, r: Rule) returns (text': string)
    requires text == Join(RuleTexts(done))
    ensures text' == Join(RuleTexts(done + [r]))
  {
    RuleTextsAppend(done, r);
    WrittenSomething(done);
    text' := text;
    if text' != "" {
      JoinConcat(RuleTexts(done), [RuleText(r)]);
      text' := text' + " ";
    }
    text' := text' + (r.name + ": " + r.expr);
  }

  lemma WrittenSomething(rules: seq<Rule>)
    ensures Join(RuleTexts(rules)) == "" <==> rules == []
  {
    if rules != [] {
      assert |RuleText(rules[0])| > 0;
      assert RuleTexts(rules)[0] == RuleText(rules[0]);
    }
  }

  lemma {:induction false} ApplyAppend(rules: seq<Rule>, r: Rule, info: FrameInfo)
    ensures ApplyRules(rules + [r], info) == SetRule(ApplyRules(rules, info), r.name, r.expr)
  {
    if rules == [] {
      assert rules + [r] == [r];
    } else {
      ApplyAppend(rules[1..], r, SetRule(info, rules[0].name, rules[0].expr));
      assert (rules + [r])[1..] == rules[1..] + [r];
    }
  }

  predicate IsRegister(name: string) {
    name != ".cfa" && name != ".ra"
  }

  /** Register rules only add to the register map. */
  lemma {:induction false} ApplyRegisters(regs: seq<Rule>, info: FrameInfo)
    requires forall i :: 0 <= i < |regs| ==> IsRegister(regs[i].name)
    ensures ApplyRules(regs, info) == info.(regs := info.regs + MapOf(regs))
  {
    if regs != [] {
      var rest, last := regs[..|regs| - 1], regs[|regs| - 1];
      ApplyRegisters(rest, info);
      ApplyAppend(rest, last, info);
      assert rest + [last] == regs;
    } else {
      assert info.regs + map[] == info.regs;
    }
  }

  /** Setting an optional rule and then the others. */
  lemma ApplyOptional(name: string, expr: string, rest: seq<Rule>, info: FrameInfo)
    ensures ApplyRules(Optional(name, expr) + rest, info)
         == ApplyRules(rest, if expr == "" then info else SetRule(info, name, expr))
  {
    var all := Optional(name, expr) + rest;
    if expr == "" {
      assert all == rest;
    } else {
      assert all[0] == Rule(name, expr) && all[1..] == rest;
    }
  }

  lemma SetFixed(info: FrameInfo, expr: string)
    ensures SetRule(info, ".cfa", expr) == info.(cfa := expr)
    ensures SetRule(info, ".ra", expr) == info.(ra := expr)
  {
  }

  lemma ApplyAll(info: FrameInfo, regs: seq<Rule>)
    requires MapOf(regs) == info.regs && forall i :: 0 <= i < |regs| ==> IsRegister(regs[i].name)
    ensures ApplyRules(AllRules(info, regs), EMPTY) == info
  {
    hide *;
    AllRulesSplit(info, regs);
    NothingSet();
    SetFixed(EMPTY, info.cfa);
    SetFixed(FrameInfo(info.cfa, "", map[]), info.ra);
    ApplyOptional(".cfa", info.cfa, Optional(".ra", info.ra) + regs, EMPTY);
    ApplyOptional(".ra", info.ra, regs, FrameInfo(info.cfa, "", map[]));
    ApplyRegisters(regs, FrameInfo(info.cfa, info.ra, map[]));
    assert map[] + info.regs == info.regs;
  }

  lemma NothingSet()
    ensures EMPTY == FrameInfo("", "", map[])
  {
  }

  lemma AllRulesSplit(info: FrameInfo, regs: seq<Rule>)
    ensures AllRules(info, regs) == Optional(".cfa", info.cfa) + (Optional(".ra", info.ra) + regs)
  {
  }

  /** Parsing what Serialize writes rebuilds the rules. */
  lemma SerializeRoundTrip(info: FrameInfo, regs: seq<Rule>)
    requires MapOf(regs) == info.regs && forall i :: 0 <= i < |regs| ==> IsRegister(regs[i].name)
    requires AllRules(info, regs) != [] && GoodRules(AllRules(info, regs))
    ensures ParseRuleSet(Join(RuleTexts(AllRules(info, regs))), EMPTY) == Parsed(true, info)
  {
    hide *;
    RulesRoundTrip(AllRules(info, regs), EMPTY);
    ApplyAll(info, regs);
  }
}
