/** Splitting text with strtok_r, and numbers as ostream writes them and strtoul reads them. */
module Text {
  import opened Addresses
  import opened Options

  function TokenLength(s: string, breaks: string): (n: nat)
    ensures n <= |s|
  {
    if s == "" || s[0] in breaks then 0 else 1 + TokenLength(s[1..], breaks)
  }

  /** strtok_r: skip separators, return the token and what follows the separator that ended it. */
  function StrTok(s: string, breaks: string): (r: Option<(string, string)>)
    ensures r.Some? ==> |r.value.1| < |s|
  {
    if s == "" then None
    else if s[0] in breaks then StrTok(s[1..], breaks)
    else
      var n := TokenLength(s, breaks);
      Some((s[..n], if n < |s| then s[n + 1..] else ""))
  }

  /** All tokens that repeated calls of strtok_r return. */
  function Tokens(s: string, breaks: string): seq<string>
    decreases |s|
  {
    match StrTok(s, breaks)
    case None => []
    case Some((token, rest)) => [token] + Tokens(rest, breaks)
  }

  /** A token that strtok_r returns whole. */
  ghost predicate Clean(token: string, breaks: string) {
    token != "" && forall i :: 0 <= i < |token| ==> token[i] !in breaks
  }

  lemma {:induction false} CleanLength(token: string, rest: string, breaks: string)
    requires forall i :: 0 <= i < |token| ==> token[i] !in breaks
    requires rest == "" || rest[0] in breaks
    ensures TokenLength(token + rest, breaks) == |token|
  {
    if token != "" {
      CleanLength(token[1..], rest, breaks);
      assert (token + rest)[1..] == token[1..] + rest;
    } else {
      assert token + rest == rest;
    }
  }

  /** A clean token comes off the front; at most one separator goes with it. */
  lemma StrTokClean(token: string, sep: char, rest: string, breaks: string)
    requires Clean(token, breaks) && sep in breaks
    ensures StrTok(token + [sep] + rest, breaks) == Some((token, rest))
    ensures StrTok(token, breaks) == Some((token, ""))
  {
    CleanLength(token, [sep] + rest, breaks);
    assert token + [sep] + rest == token + ([sep] + rest);
    CleanLength(token, "", breaks);
    assert token + "" == token;
  }

  /** The first token ends at a separator or at the end. */
  lemma {:induction false} TokenEnds(s: string, more: string, breaks: string)
    ensures var n := TokenLength(s, breaks);
            && (forall i :: 0 <= i < n ==> s[i] !in breaks)
            && (n < |s| ==> s[n] in breaks && TokenLength(s + more, breaks) == n)
  {
    if s != "" && s[0] !in breaks {
      TokenEnds(s[1..], more, breaks);
      assert (s + more)[1..] == s[1..] + more;
    }
  }

  lemma TokensFirst(s: string, breaks: string)
    requires s != ""
    ensures var n := TokenLength(s, breaks);
            Tokens(s, breaks) == if s[0] in breaks then Tokens(s[1..], breaks)
                                 else [s[..n]] + Tokens(if n < |s| then s[n + 1..] else "", breaks)
  {
    hide TokenLength;
  }

  /** A token that ends before the end comes off the front, whatever follows the text. */
  lemma TokensInside(a: string, more: string, breaks: string)
    requires a != "" && a[0] !in breaks && TokenLength(a, breaks) < |a|
    ensures var n := TokenLength(a, breaks); Tokens(a + more, breaks) == [a[..n]] + Tokens(a[n + 1..] + more, breaks)
  {
    var n, s := TokenLength(a, breaks), a + more;
    TokensFirst(s, breaks);
    TokenEnds(a, more, breaks);
    hide Tokens, TokenLength;
    assert s[..n] == a[..n] && s[n + 1..] == a[n + 1..] + more;
  }

  /** A clean token is all there is before a separator. */
  lemma TokensClean(a: string, more: string, breaks: string)
    requires Clean(a, breaks) && more != "" && more[0] in breaks
    ensures Tokens(a + more, breaks) == [a] + Tokens(more, breaks) && Tokens(a, breaks) == [a]
  {
    assert more == [more[0]] + more[1..] && a + more == a + [more[0]] + more[1..];
    StrTokClean(a, more[0], more[1..], breaks);
    TokensFirst(more, breaks);
    assert Tokens("", breaks) == [];
    hide StrTok;
  }

  lemma {:induction false} TokensApart(a: string, more: string, breaks: string)
    requires more != "" && more[0] in breaks
    ensures Tokens(a + more, breaks) == Tokens(a, breaks) + Tokens(more, breaks)
    decreases |a|
  {
    var n := TokenLength(a, breaks);
    TokenEnds(a, "", breaks);
    assert Tokens("", breaks) == [];
    hide Tokens, TokenLength;
    if a == "" {
      assert a + more == more;
    } else if a[0] in breaks {
      TokensFirst(a, breaks);
      TokensFirst(a + more, breaks);
      assert (a + more)[1..] == a[1..] + more;
      TokensApart(a[1..], more, breaks);
    } else if n == |a| {
      TokensClean(a, more, breaks);
    } else {
      TokensInside(a, more, breaks);
      TokensInside(a, "", breaks);
      TokensApart(a[n + 1..], more, breaks);
      assert a + "" == a && a[n + 1..] + "" == a[n + 1..];
    }
  }

  /** Text on both sides of a separator is split apart. */
  lemma TokensConcat(a: string, sep: char, b: string, breaks: string)
    requires sep in breaks
    ensures Tokens(a + [sep] + b, breaks) == Tokens(a, breaks) + Tokens(b, breaks)
  {
    hide Tokens;
    TokensApart(a, [sep] + b, breaks);
    TokensFirst([sep] + b, breaks);
    assert ([sep] + b)[1..] == b && a + [sep] + b == a + ([sep] + b);
  }

  /** Words with a space between each two. */
  function Join(words: seq<string>): string {
    if words == [] then ""
    else if |words| == 1 then words[0]
    else words[0] + " " + Join(words[1..])
  }

  lemma {:induction false} TokensOfJoin(words: seq<string>, breaks: string)
    requires ' ' in breaks && forall i :: 0 <= i < |words| ==> Clean(words[i], breaks)
    ensures Tokens(Join(words), breaks) == words
  {
    if |words| == 1 {
      StrTokClean(words[0], ' ', "", breaks);
      assert Tokens("", breaks) == [];
    } else if |words| > 1 {
      StrTokClean(words[0], ' ', Join(words[1..]), breaks);
      assert [' '] == " ";
      TokensOfJoin(words[1..], breaks);
    }
  }

  lemma {:induction false} JoinConcat(a: seq<string>, b: seq<string>)
    requires a != [] && b != []
    ensures Join(a + b) == Join(a) + " " + Join(b)
  {
    if |a| == 1 {
      assert (a + b)[1..] == b;
    } else {
      JoinConcat(a[1..], b);
      assert (a + b)[1..] == a[1..] + b;
      assert a[0] + " " + (Join(a[1..]) + " " + Join(b)) == a[0] + " " + Join(a[1..]) + " " + Join(b);
    }
  }

  /** Lines, each ended by a newline. */
  function Lines(ls: seq<string>): string {
    if ls == [] then "" else ls[0] + "\n" + Lines(ls[1..])
  }

  lemma {:induction false} TokensOfLines(ls: seq<string>, breaks: string)
    requires '\n' in breaks && forall i :: 0 <= i < |ls| ==> Clean(ls[i], breaks)
    ensures Tokens(Lines(ls), breaks) == ls
  {
    if ls != [] {
      StrTokClean(ls[0], '\n', Lines(ls[1..]), breaks);
      assert ['\n'] == "\n";
      TokensOfLines(ls[1..], breaks);
    }
  }

  // ---------------------------------------------------------------------------------------
  // Numbers
  // ---------------------------------------------------------------------------------------

  const DIGITS: string := "0123456789abcdef"

  function DigitValue(c: char): int {
    if '0' <= c <= '9' then c as int - '0' as int
    else if 'a' <= c <= 'f' then c as int - 'a' as int + 10
    else if 'A' <= c <= 'F' then c as int - 'A' as int + 10
    else -1
  }

  /** An unsigned number as `stream << hex` writes it. */
  function Hex(n: nat): (s: string)
    ensures s != ""
  {
    if n < 16 then [DIGITS[n]] else Hex(n / 16) + [DIGITS[n % 16]]
  }

  /** The value of the hexadecimal digits at the front of `s`, after the digits worth `acc`. */
  function HexValue(s: string, acc: nat): nat {
    if s == "" || DigitValue(s[0]) < 0 then acc else HexValue(s[1..], 16 * acc + DigitValue(s[0]))
  }

  /** isspace in the C locale. */
  predicate IsSpace(c: char) {
    c == ' ' || '\t' <= c <= '\r'
  }

  function SkipBlank(s: string): string {
    if s != "" && IsSpace(s[0]) then SkipBlank(s[1..]) else s
  }

  /** The prefix 0x is skipped when a digit follows. */
  function SkipPrefix(s: string): string {
    if |s| > 2 && s[0] == '0' && (s[1] == 'x' || s[1] == 'X') && DigitValue(s[2]) >= 0 then s[2..] else s
  }

  /**
   * strtoul(s, NULL, 16): blanks, a sign, a prefix and digits. A minus sign negates the result, and
   * values that do not fit become the largest one.
   */
  function StrToUL(s: string): Address {
    var t := SkipBlank(s);
    var signed := t != "" && (t[0] == '-' || t[0] == '+');
    var n := HexValue(SkipPrefix(if signed then t[1..] else t), 0);
    if n >= SPACE then SPACE - 1 else if signed && t[0] == '-' then Minus(0, n) else n
  }

  ghost predicate AllHex(s: string) {
    forall i :: 0 <= i < |s| ==> 0 <= DigitValue(s[i]) < 16
  }

  lemma {:induction false} HexValueAppend(s: string, c: char, acc: nat)
    requires AllHex(s) && DigitValue(c) >= 0
    ensures HexValue(s + [c], acc) == 16 * HexValue(s, acc) + DigitValue(c)
  {
    if s == "" {
      assert s + [c] == [c] && [c][1..] == "";
    } else {
      HexValueAppend(s[1..], c, 16 * acc + DigitValue(s[0]));
      assert (s + [c])[1..] == s[1..] + [c];
    }
  }

  lemma DigitRoundTrip(d: nat)
    requires d < 16
    ensures DigitValue(DIGITS[d]) == d
  {
  }

  lemma {:induction false} HexRoundTrip(n: nat)
    ensures AllHex(Hex(n)) && HexValue(Hex(n), 0) == n
  {
    DigitRoundTrip(n % 16);
    if n >= 16 {
      HexRoundTrip(n / 16);
      HexValueAppend(Hex(n / 16), DIGITS[n % 16], 0);
    } else {
      assert [DIGITS[n]][1..] == "";
    }
  }

  /** What is written is read back. */
  lemma StrToULOfHex(a: Address)
    ensures StrToUL(Hex(a)) == a
  {
    hide Hex, HexValue;
    HexRoundTrip(a);
    var s := Hex(a);
    assert DigitValue(s[0]) >= 0 && (|s| > 1 ==> DigitValue(s[1]) >= 0);
    assert SkipBlank(s) == s && SkipPrefix(s) == s;
  }

  lemma HexExample()
    ensures Hex(0) == "0" && Hex(0x1f) == "1f" && Hex(0xa0) == "a0"
  {
    assert Hex(1) == "1" && Hex(0xa) == "a";
  }

  lemma {:induction false} SkipsBlanks(blanks: string, s: string)
    requires (forall i :: 0 <= i < |blanks| ==> IsSpace(blanks[i])) && (s == "" || !IsSpace(s[0]))
    ensures SkipBlank(blanks + s) == s
  {
    if blanks == "" {
      assert blanks + s == s;
    } else {
      assert (blanks + s)[1..] == blanks[1..] + s;
      SkipsBlanks(blanks[1..], s);
    }
  }

  lemma SkipsPrefix(prefix: string, digits: string)
    requires prefix == "" || prefix == "0x" || prefix == "0X"
    requires digits != "" && AllHex(digits)
    ensures SkipPrefix(prefix + digits) == digits
  {
    assert DigitValue('x') < 0 && DigitValue('X') < 0;
    assert DigitValue(digits[0]) >= 0 && (|digits| > 1 ==> DigitValue(digits[1]) >= 0);
    if prefix == "" {
      assert prefix + digits == digits;
    } else {
      assert (prefix + digits)[2..] == digits;
    }
  }

  lemma SignAndPrefix(sign: string, prefix: string, digits: string)
    requires sign == "" || sign == "+" || sign == "-"
    requires prefix == "" || prefix == "0x" || prefix == "0X"
    requires digits != "" && AllHex(digits)
    ensures var rest := prefix + digits;
            rest != "" && !IsSpace((sign + rest)[0]) && rest[0] != '-' && rest[0] != '+'
  {
    assert DigitValue(digits[0]) >= 0;
    var rest := prefix + digits;
    assert rest[0] == if prefix == "" then digits[0] else '0';
    assert (sign + rest)[0] == if sign == "" then rest[0] else sign[0];
  }

  lemma StrToULAfter(s: string, sign: string, rest: string)
    requires sign == "" || sign == "+" || sign == "-"
    requires rest != "" && rest[0] != '-' && rest[0] != '+' && SkipBlank(s) == sign + rest
    ensures var n := HexValue(SkipPrefix(rest), 0);
            StrToUL(s) == if n >= SPACE then SPACE - 1 else if sign == "-" then (SPACE - n) % SPACE else n
  {
    hide HexValue, SkipBlank, SkipPrefix;
    if sign == "" {
      assert sign + rest == rest;
    } else {
      assert (sign + rest)[0] == sign[0] && (sign + rest)[1..] == rest;
    }
  }

  /** strtoul: blanks, a sign, a prefix and digits. */
  lemma StrToULReads(blanks: string, sign: string, prefix: string, digits: string)
    requires forall i :: 0 <= i < |blanks| ==> IsSpace(blanks[i])
    requires sign == "" || sign == "+" || sign == "-"
    requires prefix == "" || prefix == "0x" || prefix == "0X"
    requires digits != "" && AllHex(digits)
    ensures var n := HexValue(digits, 0);
            StrToUL(blanks + (sign + (prefix + digits))) ==
            if n >= SPACE then SPACE - 1 else if sign == "-" then (SPACE - n) % SPACE else n
  {
    hide *;
    SignAndPrefix(sign, prefix, digits);
    SkipsBlanks(blanks, sign + (prefix + digits));
    SkipsPrefix(prefix, digits);
    StrToULAfter(blanks + (sign + (prefix + digits)), sign, prefix + digits);
  }

  lemma HexClean(n: nat, breaks: string)
    requires forall i :: 0 <= i < |breaks| ==> DigitValue(breaks[i]) < 0
    ensures Clean(Hex(n), breaks)
  {
    HexRoundTrip(n);
  }
}
