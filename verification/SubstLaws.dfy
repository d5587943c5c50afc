/** What a substitution does to a text, and what its flags and escapes stand for. */
module SubstLaws {
  import opened Options
  import opened SeqFacts
  import opened Subst
  import opened SubstParser

  /** A replacement means what its parts mean, one behind the other. */
  lemma {:induction false} ExpandedConcat(a: string, b: string, groups: seq<Group>, text: string, msg: Msg)
    requires InRange(groups, |text|) && Closed(a)
    ensures Expanded(a + b, groups, text, msg) == Expanded(a, groups, text, msg) + Expanded(b, groups, text, msg)
  {
    if a == "" {
      assert a + b == b;
    } else if a[0] != '\\' {
      ConsConcat(a, b);
      ExpandedConcat(a[1..], b, groups, text, msg);
      Assoc([a[0]], Expanded(a[1..], groups, text, msg), Expanded(b, groups, text, msg));
    } else {
      assert (a + b)[2..] == a[2..] + b;
      ExpandedConcat(a[2..], b, groups, text, msg);
      Assoc(Meaning(EscapeOf(a[1]), groups, text, msg), Expanded(a[2..], groups, text, msg),
            Expanded(b, groups, text, msg));
    }
  }

  lemma ExpandedPair(c: char, groups: seq<Group>, text: string, msg: Msg)
    requires InRange(groups, |text|)
    ensures Expanded(['\\', c], groups, text, msg) == Meaning(EscapeOf(c), groups, text, msg)
  {
    var m := Meaning(EscapeOf(c), groups, text, msg);
    assert ['\\', c][2..] == "" && Expanded("", groups, text, msg) == "";
    assert m + "" == m;
  }

  lemma GroupMeans(k: nat, groups: seq<Group>, text: string, msg: Msg)
    requires InRange(groups, |text|) && k < 10
    ensures Expanded(['\\', "0123456789"[k]], groups, text, msg)
         == if k < |groups| && groups[k].Range? then text[groups[k].so..groups[k].eo] else ""
  {
    ExpandedPair("0123456789"[k], groups, text, msg);
    DigitNumber(k);
  }

  lemma DigitNumber(k: nat)
    requires k < 10
    ensures EscapeOf("0123456789"[k]) == NMatch(k)
  {
  }

  lemma OtherMeans(c: char, groups: seq<Group>, text: string, msg: Msg)
    requires InRange(groups, |text|) && c !in "nrtu0123456789"
    ensures Expanded(['\\', c], groups, text, msg) == [c]
  {
    ExpandedPair(c, groups, text, msg);
    DigitOf(c);
    assert c !in "0123456789";
  }

  /** The escapes: line ends and tabs, the URI the request goes to, the groups of the match, and
      any other character for itself. */
  lemma WhatEscapesMean(c: char, k: nat, groups: seq<Group>, text: string, msg: Msg)
    requires InRange(groups, |text|) && k < 10
    ensures Expanded("\\n", groups, text, msg) == "\n" && Expanded("\\r", groups, text, msg) == "\r"
    ensures Expanded("\\t", groups, text, msg) == "\t"
    ensures Expanded("\\u", groups, text, msg)
         == match msg
            case Reply => ""
            case Request(uri, None) => uri
            case Request(_, Some(newUri)) => newUri
    ensures Expanded(['\\', "0123456789"[k]], groups, text, msg)
         == if k < |groups| && groups[k].Range? then text[groups[k].so..groups[k].eo] else ""
    ensures c !in "nrtu0123456789" ==> Expanded(['\\', c], groups, text, msg) == [c]
  {
    ExpandedPair('n', groups, text, msg);
    ExpandedPair('r', groups, text, msg);
    ExpandedPair('t', groups, text, msg);
    ExpandedPair('u', groups, text, msg);
    GroupMeans(k, groups, text, msg);
    if c !in "nrtu0123456789" { OtherMeans(c, groups, text, msg); }
  }

  lemma DigitOf(c: char)
    ensures '0' <= c <= '9' <==> c in "0123456789"
  {
    if '0' <= c <= '9' { assert "0123456789"[(c - '0') as int] == c; }
  }

  /** A replacement without a backslash is what it says. */
  lemma {:induction false} PlainExpands(t: string, groups: seq<Group>, text: string, msg: Msg)
    requires InRange(groups, |text|) && '\\' !in t
    ensures Expanded(t, groups, text, msg) == t
  {
    if t != "" {
      assert t == [t[0]] + t[1..];
      PlainExpands(t[1..], groups, text, msg);
    }
  }

  lemma ZeroIsMatch(groups: seq<Group>, text: string, msg: Msg)
    requires InRange(groups, |text|) && |groups| > 0 && groups[0].Range?
    ensures text[..groups[0].so] + Expanded("\\0", groups, text, msg) == text[..groups[0].eo]
  {
    ExpandedPair('0', groups, text, msg);
    assert "\\0" == ['\\', '0'] && EscapeOf('0') == NMatch(0);
    assert text[..groups[0].so] + text[groups[0].so..groups[0].eo] == text[..groups[0].eo];
  }

  lemma SplitText(text: string, k: nat)
    requires k <= |text|
    ensures text[..k] + text[k..] == text
  {
  }

  /** Replacing every match by itself changes nothing, whatever is matched. */
  lemma {:induction false} MatchByItself(m: Matcher, se: SubstExpr, msg: Msg, text: string, notBol: bool)
    requires InText(m) && (se.replaceAll ==> NeverStuck(m, text, notBol)) && se.replacement == "\\0"
    ensures Substituted(m, se, msg, text, notBol).Some? ==> Substituted(m, se, msg, text, notBol) == Some(text)
    decreases |text|, !notBol
  {
    var r := m(text, notBol);
    if r.Some? && r.value[0].Range? {
      var end := r.value[0].eo;
      ZeroIsMatch(r.value, text, msg);
      SplitText(text, end);
      if se.replaceAll {
        NextNeverStuck(m, text, notBol);
        MatchByItself(m, se, msg, text[end..], true);
      }
    }
  }

  /** The first match is replaced, and what is behind it only if all are to be, where the
      beginning of the rest is no beginning of a line. */
  lemma FirstReplaced(m: Matcher, se: SubstExpr, msg: Msg, text: string, notBol: bool)
    requires InText(m) && (se.replaceAll ==> NeverStuck(m, text, notBol))
    requires m(text, notBol).Some? && m(text, notBol).value[0].Range?
    ensures var g, groups := m(text, notBol).value[0], m(text, notBol).value;
            var done, rest := text[..g.so] + Expanded(se.replacement, groups, text, msg), text[g.eo..];
            if !se.replaceAll then Substituted(m, se, msg, text, notBol) == Some(done + rest)
            else NeverStuck(m, rest, true)
                 && Substituted(m, se, msg, text, notBol) == Joined(done, Substituted(m, se, msg, rest, true))
  {
    if se.replaceAll { NextNeverStuck(m, text, notBol); }
  }

  /** What is written with separators is parsed to an expression with these parts exactly if
      all flags are known, the expression can be compiled under them and the replacement has
      less than a hundred escapes: i ignores case, s lets a dot match line ends, g replaces
      all matches. */
  lemma FlagsMean(c: char, re: string, repl: string, flags: string, regcomp: Compiler)
    requires c != '\\' && Fenced(re, c) && Enclosed(repl, c)
    ensures match Parse(Written(c, re, repl, flags), regcomp)
            case None =>
              (exists f :: f in flags && f != 'i' && f != 's' && f != 'g') || |Escapes(repl, 0)| >= 100
              || !regcomp(re, 'i' in flags, 's' !in flags)
            case Some(se) =>
              (forall f :: f in flags ==> f == 'i' || f == 's' || f == 'g') && |Escapes(repl, 0)| < 100
              && regcomp(re, 'i' in flags, 's' !in flags) && se.re == re && se.replacement == repl
              && se.ignoreCase == ('i' in flags) && se.newline == ('s' !in flags) && se.replaceAll == ('g' in flags)
  {
    ParsesWritten(c, re, repl, flags, regcomp);
    AssembledMeans(re, repl, flags, regcomp, Parse(Written(c, re, repl, flags), regcomp));
  }

  lemma KnownFlags(flags: string)
    ensures FlagsKnown(flags) <==> forall f :: f in flags ==> f == 'i' || f == 's' || f == 'g'
  {
    if forall f :: f in flags ==> f == 'i' || f == 's' || f == 'g' {
      forall i | 0 <= i < |flags| ensures flags[i] in "isg" { assert flags[i] in flags; }
    }
  }

  lemma AssembledMeans(re: string, repl: string, flags: string, regcomp: Compiler, r: Option<SubstExpr>)
    requires r == Assemble(re, repl, flags, regcomp)
    ensures match r
            case None =>
              (exists f :: f in flags && f != 'i' && f != 's' && f != 'g') || |Escapes(repl, 0)| >= 100
              || !regcomp(re, 'i' in flags, 's' !in flags)
            case Some(se) =>
              (forall f :: f in flags ==> f == 'i' || f == 's' || f == 'g') && |Escapes(repl, 0)| < 100
              && regcomp(re, 'i' in flags, 's' !in flags) && se.re == re && se.replacement == repl
              && se.ignoreCase == ('i' in flags) && se.newline == ('s' !in flags) && se.replaceAll == ('g' in flags)
  {
    KnownFlags(flags);
  }
}
