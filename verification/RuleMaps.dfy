/**
 * The maps from names to rules and from addresses to such maps in which DwarfCFIToModule collects
 * a stack frame entry, and what the collected entry means at an address.
 */
module RuleMaps {
  import opened Options
  import opened CfiRules

  // ---------------------------------------------------------------------------------------
  // Maps ordered by name
  // ---------------------------------------------------------------------------------------

  /** operator< of std::string. */
  predicate NameLess(a: string, b: string) {
    b != "" && (a == "" || a[0] < b[0] || (a[0] == b[0] && NameLess(a[1..], b[1..])))
  }

  /** The texts agree up to place `k`, where `a` ends or has the smaller character. */
  ghost predicate LessAt(a: string, b: string, k: nat) {
    k <= |a| && k < |b| && a[..k] == b[..k] && (k == |a| || a[k] < b[k])
  }

  /** The order of strings is lexicographic. */
  lemma {:induction false} NameLessIs(a: string, b: string)
    ensures NameLess(a, b) <==> exists k: nat :: LessAt(a, b, k)
  {
    if a == "" {
      assert b != "" ==> LessAt(a, b, 0);
    } else if b != "" {
      if a[0] < b[0] {
        assert LessAt(a, b, 0);
      }
      NameLessIs(a[1..], b[1..]);
      if a[0] == b[0] && NameLess(a[1..], b[1..]) {
        var k: nat :| LessAt(a[1..], b[1..], k);
        assert a[..k + 1] == [a[0]] + a[1..][..k] && b[..k + 1] == [b[0]] + b[1..][..k];
        assert LessAt(a, b, k + 1);
      }
      if k: nat :| LessAt(a, b, k) {
        if k > 0 {
          assert a[0] == a[..k][0] == b[..k][0] == b[0];
          assert a[1..][..k - 1] == a[..k][1..] && b[1..][..k - 1] == b[..k][1..];
          assert LessAt(a[1..], b[1..], k - 1);
        }
      }
    }
  }

  lemma {:induction false} NameOrder(a: string, b: string)
    ensures !NameLess(a, a)
    ensures NameLess(a, b) || a == b || NameLess(b, a)
  {
    if a != "" {
      NameOrder(a[1..], if b == "" then b else b[1..]);
      if b != "" && a[0] == b[0] && a[1..] == b[1..] {
        assert a == [a[0]] + a[1..] && b == [b[0]] + b[1..];
      }
    }
  }

  lemma {:induction false} NameLessTransitive(a: string, b: string, c: string)
    requires NameLess(a, b) && NameLess(b, c)
    ensures NameLess(a, c)
  {
    if a != "" && a[0] == b[0] == c[0] {
      NameLessTransitive(a[1..], b[1..], c[1..]);
    }
  }

  /** rules[name] = expr. */
  function PutRule(rules: seq<Rule>, name: string, expr: string): seq<Rule> {
    if rules == [] || NameLess(name, rules[0].name) then [Rule(name, expr)] + rules
    else if name == rules[0].name then [Rule(name, expr)] + rules[1..]
    else [rules[0]] + PutRule(rules[1..], name, expr)
  }

  /** The first rule for `name`. */
  ghost function Lookup(rules: seq<Rule>, name: string): Option<string> {
    if rules == [] then None
    else if rules[0].name == name then Some(rules[0].expr)
    else Lookup(rules[1..], name)
  }

  ghost predicate ByName(rules: seq<Rule>) {
    forall i, j :: 0 <= i < j < |rules| ==> NameLess(rules[i].name, rules[j].name)
  }

  lemma {:induction false} LookupMember(rules: seq<Rule>, name: string)
    ensures Lookup(rules, name).Some? ==> exists i :: 0 <= i < |rules| && rules[i].name == name
  {
    if rules != [] && rules[0].name != name {
      LookupMember(rules[1..], name);
      if Lookup(rules, name).Some? {
        var i :| 0 <= i < |rules[1..]| && rules[1..][i].name == name;
        assert rules[i + 1].name == name;
      }
    }
  }

  /** A name before the first one is in no later rule. */
  lemma LookupBefore(rules: seq<Rule>, name: string)
    requires ByName(rules) && (rules != [] ==> NameLess(name, rules[0].name))
    ensures Lookup(rules, name) == None
  {
    LookupMember(rules, name);
    if Lookup(rules, name).Some? {
      var i :| 0 <= i < |rules| && rules[i].name == name;
      if i > 0 {
        NameLessTransitive(name, rules[0].name, rules[i].name);
      }
      NameOrder(name, name);
    }
  }

  lemma {:induction false} LookupPut(rules: seq<Rule>, name: string, expr: string, m: string)
    requires ByName(rules)
    ensures Lookup(PutRule(rules, name, expr), m) == if m == name then Some(expr) else Lookup(rules, m)
  {
    if rules != [] && !NameLess(name, rules[0].name) && name != rules[0].name {
      LookupPut(rules[1..], name, expr, m);
    }
  }

  lemma {:induction false} PutRuleMember(rules: seq<Rule>, name: string, expr: string, k: nat)
    requires k < |PutRule(rules, name, expr)|
    ensures PutRule(rules, name, expr)[k] == Rule(name, expr) || PutRule(rules, name, expr)[k] in rules
  {
    if rules != [] && !NameLess(name, rules[0].name) && name != rules[0].name && k > 0 {
      PutRuleMember(rules[1..], name, expr, k - 1);
    }
  }

  lemma {:induction false} PutRuleOrdered(rules: seq<Rule>, name: string, expr: string)
    requires ByName(rules)
    ensures ByName(PutRule(rules, name, expr))
  {
    if rules == [] {
    } else if NameLess(name, rules[0].name) {
      forall j | 0 < j < |rules| ensures NameLess(name, rules[j].name) {
        NameLessTransitive(name, rules[0].name, rules[j].name);
      }
    } else if name != rules[0].name {
      NameOrder(name, rules[0].name);
      PutRuleOrdered(rules[1..], name, expr);
      forall k | 0 <= k < |PutRule(rules[1..], name, expr)|
        ensures NameLess(rules[0].name, PutRule(rules[1..], name, expr)[k].name)
      {
        PutRuleMember(rules[1..], name, expr, k);
      }
    }
  }

  // ---------------------------------------------------------------------------------------
  // What a list of rules sets
  // ---------------------------------------------------------------------------------------

  /** The rule for `name` in `info`; .cfa and .ra are empty when they have no rule. */
  function RuleOf(info: FrameInfo, name: string): Option<string> {
    if name == ".cfa" then Some(info.cfa)
    else if name == ".ra" then Some(info.ra)
    else if name in info.regs then Some(info.regs[name]) else None
  }

  /** The rules of a frame determine it. */
  lemma RulesDetermine(x: FrameInfo, y: FrameInfo)
    requires forall name :: RuleOf(x, name) == RuleOf(y, name)
    requires ".cfa" !in x.regs && ".ra" !in x.regs && ".cfa" !in y.regs && ".ra" !in y.regs
    ensures x == y
  {
    assert RuleOf(x, ".cfa") == RuleOf(y, ".cfa") && RuleOf(x, ".ra") == RuleOf(y, ".ra");
    forall name ensures name in x.regs <==> name in y.regs {
      assert RuleOf(x, name) == RuleOf(y, name);
    }
    forall name | name in x.regs ensures x.regs[name] == y.regs[name] {
      assert RuleOf(x, name) == RuleOf(y, name);
    }
    assert x.regs == y.regs;
  }

  lemma {:induction false} RuleOfApplied(rules: seq<Rule>, info: FrameInfo, m: string)
    requires ByName(rules)
    ensures RuleOf(ApplyRules(rules, info), m) == if Lookup(rules, m).Some? then Lookup(rules, m) else RuleOf(info, m)
  {
    if rules != [] {
      var info' := SetRule(info, rules[0].name, rules[0].expr);
      RuleOfApplied(rules[1..], info', m);
      if rules[0].name == m {
        LookupBefore(rules[1..], m);
      }
    }
  }
}
