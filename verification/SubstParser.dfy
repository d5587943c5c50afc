/** The parser of /regular expression/replacement/flags. */
module SubstParser {
  import opened Options
  import opened SeqFacts
  import opened Subst

  const MAX_REPLACE_WITH := 100

  /** regcomp: whether it accepts the expression; the flags are REG_ICASE and REG_NEWLINE. */
  type Compiler = (string, bool, bool) -> bool

  // ----- What is accepted

  /** The first separator from p on that no backslash precedes. */
  function FindSep(s: string, p: nat, c: char): (r: nat)
    requires 1 <= p <= |s|
    ensures p <= r <= |s| && (r < |s| ==> s[r] == c && s[r - 1] != '\\')
    ensures forall i :: p <= i < r ==> !(s[i] == c && s[i - 1] != '\\')
    decreases |s| - p
  {
    if p == |s| || (s[p] == c && s[p - 1] != '\\') then p else FindSep(s, p + 1, c)
  }

  /** The place of the first separator that is not escaped. */
  function FindEnd(t: string, c: char): (r: Option<nat>)
    ensures r.Some? ==> r.value < |t| && t[r.value] == c
  {
    if t == "" then None
    else if t[0] == '\\' then if |t| < 2 then None else Shift(FindEnd(t[2..], c), 2)
    else if t[0] == c then Some(0)
    else Shift(FindEnd(t[1..], c), 1)
  }

  function Shift(r: Option<nat>, n: nat): Option<nat> {
    match r case None => None case Some(k) => Some(k + n)
  }

  function MaxRef(rws: seq<ReplaceWith>): nat
    decreases |rws|
  {
    if rws == [] then 0
    else RefMax(MaxRef(rws[..|rws| - 1]), rws[|rws| - 1].esc)
  }

  function RefMax(max: nat, esc: Escape): nat {
    if esc.NMatch? && max < esc.n then esc.n else max
  }

  predicate FlagsKnown(flags: string) {
    forall i :: 0 <= i < |flags| ==> flags[i] in "isg"
  }

  function Parse(s: string, regcomp: Compiler): Option<SubstExpr> {
    if |s| < 3 || s[0] == '\\' then None
    else
      var c, i := s[0], FindSep(s, 1, s[0]);
      if i == |s| then None
      else match FindEnd(s[i + 1..], c)
           case None => None
           case Some(k) => Assemble(s[1..i], s[i + 1..][..k], s[i + 1..][k + 1..], regcomp)
  }

  function Assemble(re: string, repl: string, flags: string, regcomp: Compiler): Option<SubstExpr> {
    var rws := Escapes(repl, 0);
    if |rws| >= MAX_REPLACE_WITH || !FlagsKnown(flags) || !regcomp(re, 'i' in flags, 's' !in flags) then None
    else Some(SubstExpr(re, 'i' in flags, 's' !in flags, repl, 'g' in flags, MaxRef(rws), rws))
  }

  // ----- The replacement loop, one character after the other

  lemma {:induction false} EscapesConcat(a: string, b: string, at: nat)
    requires Closed(a)
    ensures Escapes(a + b, at) == Escapes(a, at) + Escapes(b, at + |a|)
    ensures Closed(a + b) <==> Closed(b)
  {
    if a == "" {
      assert a + b == b;
    } else if a[0] != '\\' {
      ConsConcat(a, b);
      EscapesConcat(a[1..], b, at + 1);
    } else {
      assert (a + b)[2..] == a[2..] + b;
      EscapesConcat(a[2..], b, at + 2);
      Assoc([ReplaceWith(at, 2, EscapeOf(a[1]))], Escapes(a[2..], at + 2), Escapes(b, at + |a|));
    }
  }

  /** How far the loop has come: up to q, the escapes so far, and where the end will be. */
  ghost predicate Parsing(s: string, repl: nat, q: nat, c: char, rws: seq<ReplaceWith>, max: nat) {
    repl <= q <= |s| && Closed(s[repl..q]) && rws == Escapes(s[repl..q], 0) && max == MaxRef(rws)
    && FindEnd(s[repl..], c) == Shift(FindEnd(s[q..], c), q - repl)
  }

  lemma OneEscape(x: char, at: nat)
    ensures Closed(['\\', x]) && Escapes(['\\', x], at) == [ReplaceWith(at, 2, EscapeOf(x))]
  {
    var two := ['\\', x];
    assert two[2..] == "" && Escapes(two[2..], at + 2) == [];
  }

  lemma OneChar(x: char, at: nat)
    requires x != '\\'
    ensures Closed([x]) && Escapes([x], at) == []
  {
    assert [x][1..] == "" && Escapes("", at + 1) == [];
  }

  lemma FindEndFrom(s: string, q: nat, c: char)
    requires q < |s| && c != '\\'
    ensures s[q] != '\\' && s[q] != c ==> FindEnd(s[q..], c) == Shift(FindEnd(s[q + 1..], c), 1)
    ensures s[q] == '\\' && q + 1 < |s| ==> FindEnd(s[q..], c) == Shift(FindEnd(s[q + 2..], c), 2)
  {
    assert s[q..][0] == s[q] && s[q..][1..] == s[q + 1..];
    if q + 1 < |s| { assert s[q..][2..] == s[q + 2..]; }
  }

  lemma MaxRefSnoc(rws: seq<ReplaceWith>, rw: ReplaceWith)
    ensures MaxRef(rws + [rw]) == RefMax(MaxRef(rws), rw.esc)
  {
    assert (rws + [rw])[..|rws|] == rws;
  }

  lemma EscapesKept(s: string, repl: nat, q: nat)
    requires repl <= q < |s| && s[q] != '\\' && Closed(s[repl..q])
    ensures Closed(s[repl..q + 1]) && Escapes(s[repl..q + 1], 0) == Escapes(s[repl..q], 0)
  {
    OneChar(s[q], q - repl);
    EscapesConcat(s[repl..q], [s[q]], 0);
    assert s[repl..q] + [s[q]] == s[repl..q + 1];
  }

  lemma CharStep(s: string, repl: nat, q: nat, c: char, rws: seq<ReplaceWith>, max: nat)
    requires Parsing(s, repl, q, c, rws, max) && q < |s| && s[q] != '\\' && s[q] != c && c != '\\'
    ensures Parsing(s, repl, q + 1, c, rws, max)
  {
    EscapesKept(s, repl, q);
    FindEndFrom(s, q, c);
  }

  lemma EscapesSnoc(s: string, repl: nat, q: nat)
    requires repl <= q && q + 1 < |s| && s[q] == '\\' && Closed(s[repl..q])
    ensures Closed(s[repl..q + 2])
    ensures Escapes(s[repl..q + 2], 0) == Escapes(s[repl..q], 0) + [ReplaceWith(q - repl, 2, EscapeOf(s[q + 1]))]
  {
    OneEscape(s[q + 1], q - repl);
    EscapesConcat(s[repl..q], ['\\', s[q + 1]], 0);
    assert s[repl..q] + ['\\', s[q + 1]] == s[repl..q + 2];
  }

  lemma EscapeStep(s: string, repl: nat, q: nat, c: char, rws: seq<ReplaceWith>, max: nat)
    requires Parsing(s, repl, q, c, rws, max) && q + 1 < |s| && s[q] == '\\' != c
    ensures var esc := EscapeOf(s[q + 1]);
            Parsing(s, repl, q + 2, c, rws + [ReplaceWith(q - repl, 2, esc)], RefMax(max, esc))
  {
    EscapesSnoc(s, repl, q);
    FindEndFrom(s, q, c);
    MaxRefSnoc(rws, ReplaceWith(q - repl, 2, EscapeOf(s[q + 1])));
  }

  /** What the loop makes of the replacement: its end, the escapes and the highest group. */
  ghost predicate Outcome(s: string, repl: nat, c: char, end: Option<nat>, rws: seq<ReplaceWith>, max: nat)
    requires repl <= |s|
  {
    match FindEnd(s[repl..], c)
    case None => end == None
    case Some(k) =>
      if |Escapes(s[repl..][..k], 0)| >= MAX_REPLACE_WITH then end == None
      else end == Some(repl + k) && rws == Escapes(s[repl..][..k], 0) && max == MaxRef(rws)
  }

  /** The escapes found so far are among those of the whole replacement. */
  lemma TooMany(s: string, repl: nat, q: nat, c: char, rws: seq<ReplaceWith>, max: nat)
    requires Parsing(s, repl, q, c, rws, max) && |rws| >= MAX_REPLACE_WITH
    ensures Outcome(s, repl, c, None, rws, max)
  {
    if FindEnd(s[repl..], c).Some? {
      var k := FindEnd(s[repl..], c).value;
      var a, b := s[repl..q], s[repl..][q - repl..k];
      assert s[repl..][..k] == a + b;
      EscapesConcat(a, b, 0);
    }
  }

  lemma ParsingEnds(s: string, repl: nat, q: nat, c: char, rws: seq<ReplaceWith>, max: nat)
    requires Parsing(s, repl, q, c, rws, max) && q < |s| && s[q] == c != '\\' && |rws| < MAX_REPLACE_WITH
    ensures Outcome(s, repl, c, Some(q), rws, max)
  {
    assert s[repl..][..q - repl] == s[repl..q];
  }

  lemma ParsingFails(s: string, repl: nat, q: nat, c: char, rws: seq<ReplaceWith>, max: nat)
    requires Parsing(s, repl, q, c, rws, max) && (q == |s| || (q + 1 == |s| && s[q] == '\\'))
    ensures Outcome(s, repl, c, None, rws, max)
  {
  }

  // ----- The parser

  /** The variables of the loop; Ended at the separator. */
  datatype Reader = Reader(escape: bool, rws: seq<ReplaceWith>, max: nat) | Ended

  /** What one character does to them; `at` is its place in the replacement. */
  function Next(st: Reader, x: char, at: nat, c: char): Reader
    requires st.Reader? && st.escape ==> at > 0
  {
    if st.Ended? then Ended
    else if st.escape then
      Reader(false, st.rws + [ReplaceWith(at - 1, 2, EscapeOf(x))], RefMax(st.max, EscapeOf(x)))
    else if x == '\\' then st.(escape := true)
    else if x == c then Ended
    else st
  }

  function Read(s: string, repl: nat, p: nat, c: char): (st: Reader)
    requires repl <= p <= |s|
    ensures st.Reader? && st.escape ==> repl < p
    decreases p
  {
    if p == repl then Reader(false, [], 0) else Next(Read(s, repl, p - 1, c), s[p - 1], p - 1 - repl, c)
  }

  /** The variables tell how far the loop has come. */
  ghost predicate ReadTo(st: Reader, s: string, repl: nat, p: nat, c: char) {
    st.Ended? || (if st.escape then repl < p <= |s| && s[p - 1] == '\\' && Parsing(s, repl, p - 1, c, st.rws, st.max)
                  else Parsing(s, repl, p, c, st.rws, st.max))
  }

  lemma ReadNext(st: Reader, s: string, repl: nat, p: nat, c: char)
    requires c != '\\' && repl <= p < |s| && ReadTo(st, s, repl, p, c)
    ensures ReadTo(Next(st, s[p], p - repl, c), s, repl, p + 1, c)
  {
    if st.Reader? && st.escape {
      EscapeStep(s, repl, p - 1, c, st.rws, st.max);
    } else if st.Reader? && s[p] != c && s[p] != '\\' {
      CharStep(s, repl, p, c, st.rws, st.max);
    }
  }

  lemma {:induction false} ReadMeans(s: string, repl: nat, p: nat, c: char)
    requires repl <= p <= |s| && c != '\\'
    ensures ReadTo(Read(s, repl, p, c), s, repl, p, c)
    decreases p
  {
    if p > repl {
      ReadMeans(s, repl, p - 1, c);
      ReadNext(Read(s, repl, p - 1, c), s, repl, p - 1, c);
    }
  }

  /** Where the loop ends well. */
  lemma ReadEnds(s: string, repl: nat, p: nat, c: char, rws: seq<ReplaceWith>, max: nat)
    requires repl <= p < |s| && s[p] == c != '\\' && Read(s, repl, p, c) == Reader(false, rws, max)
    requires |rws| < MAX_REPLACE_WITH
    ensures Outcome(s, repl, c, Some(p), rws, max)
  {
    ReadMeans(s, repl, p, c);
    ParsingEnds(s, repl, p, c, rws, max);
  }

  /** And where it does not: at the end of the text, or at too many escapes. */
  lemma ReadFails(s: string, repl: nat, p: nat, c: char, escape: bool, rws: seq<ReplaceWith>, max: nat)
    requires repl <= p <= |s| && c != '\\' && Read(s, repl, p, c) == Reader(escape, rws, max)
    requires p == |s| || (!escape && |rws| >= MAX_REPLACE_WITH)
    ensures Outcome(s, repl, c, None, rws, max)
  {
    ReadMeans(s, repl, p, c);
    if p == |s| {
      ParsingFails(s, repl, if escape then p - 1 else p, c, rws, max);
    } else {
      TooMany(s, repl, p, c, rws, max);
    }
  }

  /** An escape goes into the array. */
  method Note(rw: array<ReplaceWith>, rwNo: nat, offset: nat, esc: Escape, maxPmatch: nat) returns (max: nat)
    requires rwNo < rw.Length
    modifies rw
    ensures rw[..rwNo + 1] == old(rw[..rwNo]) + [ReplaceWith(offset, 2, esc)] && max == RefMax(maxPmatch, esc)
  {
    rw[rwNo] := ReplaceWith(offset, 2, esc);
    max := maxPmatch;
    if esc.NMatch? && max < esc.n { max := esc.n; }
  }

  /** The replacement loop of subst_parser; the escapes are kept in a fixed array. */
  method ParseReplacement(s: string, repl: nat, c: char, rw: array<ReplaceWith>)
    returns (end: Option<nat>, rwNo: nat, maxPmatch: nat)
    requires repl <= |s| && rw.Length == MAX_REPLACE_WITH && c != '\\'
    modifies rw
    ensures rwNo <= rw.Length && Outcome(s, repl, c, end, rw[..rwNo], maxPmatch)
  {
    end, rwNo, maxPmatch := None, 0, 0;
    var escape := false;
    var p := repl;
    while p < |s|
      invariant repl <= p <= |s| && rwNo < rw.Length
      invariant Read(s, repl, p, c) == Reader(escape, rw[..rwNo], maxPmatch)
    {
      if escape {
        escape := false;
        maxPmatch := Note(rw, rwNo, p - 1 - repl, EscapeOf(s[p]), maxPmatch);
        rwNo := rwNo + 1;
        if rwNo >= MAX_REPLACE_WITH {
          ReadFails(s, repl, p + 1, c, false, rw[..rwNo], maxPmatch);
          return;
        }
      } else if s[p] == '\\' {
        escape := true;
      } else if s[p] == c {
        ReadEnds(s, repl, p, c, rw[..rwNo], maxPmatch);
        return Some(p), rwNo, maxPmatch;
      }
      p := p + 1;
    }
    ReadFails(s, repl, p, c, escape, rw[..rwNo], maxPmatch);
  }

  /** The flags loop of subst_parser. */
  method ParseFlags(flags: string) returns (known: bool, ignoreCase: bool, newline: bool, replaceAll: bool)
    ensures known == FlagsKnown(flags)
    ensures known ==> ignoreCase == ('i' in flags) && newline == ('s' !in flags) && replaceAll == ('g' in flags)
  {
    ignoreCase, newline, replaceAll := false, true, false;
    var p := 0;
    while p < |flags|
      invariant 0 <= p <= |flags| && FlagsKnown(flags[..p])
      invariant ignoreCase == ('i' in flags[..p]) && newline == ('s' !in flags[..p])
                && replaceAll == ('g' in flags[..p])
    {
      SplitAt(flags, p);
      match flags[p] {
        case 'i' => ignoreCase := true;
        case 's' => newline := false;
        case 'g' => replaceAll := true;
        case _ => return false, ignoreCase, newline, replaceAll;
      }
      p := p + 1;
    }
    assert flags[..p] == flags;
    known := true;
  }

  /** The first loop of subst_parser: to the end of the expression. */
  method FindExprEnd(s: string, c: char) returns (p: nat)
    requires |s| > 0
    ensures p == FindSep(s, 1, c)
  {
    p := 1;
    while p < |s| && !(s[p] == c && s[p - 1] != '\\')
      invariant 1 <= p <= |s| && FindSep(s, p, c) == FindSep(s, 1, c)
    {
      p := p + 1;
    }
  }

  /** subst_parser */
  method SubstParse(s: string, regcomp: Compiler) returns (se: Option<SubstExpr>)
    ensures se == Parse(s, regcomp)
  {
    if |s| < 3 { return None; }
    var c := s[0];
    if c == '\\' { return None; }
    var reEnd := FindExprEnd(s, c);
    if reEnd == |s| { return None; }
    var rw := new ReplaceWith[MAX_REPLACE_WITH](_ => ReplaceWith(0, 0, Uri));
    var end, rwNo, maxPmatch := ParseReplacement(s, reEnd + 1, c, rw);
    OutcomeParses(s, reEnd, end, rw[..rwNo], maxPmatch, regcomp);
    if end.None? { return None; }
    var rest, k := s[reEnd + 1..], end.value - (reEnd + 1);
    se := Construct(s[1..reEnd], rest[..k], rest[k + 1..], maxPmatch, rw[..rwNo], regcomp);
  }

  lemma OutcomeParses(s: string, i: nat, end: Option<nat>, rws: seq<ReplaceWith>, max: nat, regcomp: Compiler)
    requires |s| >= 3 && s[0] != '\\' && FindSep(s, 1, s[0]) == i < |s| && Outcome(s, i + 1, s[0], end, rws, max)
    ensures end.None? ==> Parse(s, regcomp) == None
    ensures end.Some? ==>
              var rest, k := s[i + 1..], end.value - (i + 1);
              0 <= k < |rest| && rws == Escapes(rest[..k], 0) && |rws| < MAX_REPLACE_WITH && max == MaxRef(rws)
              && Parse(s, regcomp) == Assemble(s[1..i], rest[..k], rest[k + 1..], regcomp)
  {
  }

  /** The flags, the compilation of the expression, and the result. */
  method Construct(re: string, repl: string, flags: string, maxPmatch: nat, rws: seq<ReplaceWith>, regcomp: Compiler)
    returns (se: Option<SubstExpr>)
    requires rws == Escapes(repl, 0) && |rws| < MAX_REPLACE_WITH && maxPmatch == MaxRef(rws)
    ensures se == Assemble(re, repl, flags, regcomp)
  {
    var known, ignoreCase, newline, replaceAll := ParseFlags(flags);
    if !known || !regcomp(re, ignoreCase, newline) { return None; }
    se := Some(SubstExpr(re, ignoreCase, newline, repl, replaceAll, maxPmatch, rws));
  }

  /** The groups an expression refers to are among those the matcher is asked for. */
  lemma {:induction false} RefsInRange(rws: seq<ReplaceWith>, i: nat)
    requires i < |rws| && rws[i].esc.NMatch?
    ensures rws[i].esc.n <= MaxRef(rws)
    decreases |rws|
  {
    if i < |rws| - 1 { RefsInRange(rws[..|rws| - 1], i); }
  }

  // ----- The parser reads back what was written

  function Written(c: char, re: string, repl: string, flags: string): string {
    [c] + re + [c] + repl + [c] + flags
  }

  /** Every separator in the expression has a backslash before it, and the expression does not end in one. */
  ghost predicate Fenced(re: string, c: char) {
    (forall i :: 0 <= i < |re| && re[i] == c ==> i > 0 && re[i - 1] == '\\') && (re != "" ==> re[|re| - 1] != '\\')
  }

  /** Every escape of the replacement is complete, and there is no separator outside of one. */
  predicate Enclosed(repl: string, c: char) {
    repl == ""
        || (if repl[0] == '\\' then |repl| >= 2 && Enclosed(repl[2..], c) else repl[0] != c && Enclosed(repl[1..], c))
  }

  lemma {:induction false} EnclosedEnds(repl: string, c: char, after: string)
    requires Enclosed(repl, c) && c != '\\'
    ensures FindEnd(repl + [c] + after, c) == Some(|repl|)
  {
    var t := repl + [c] + after;
    if repl == "" {
      assert t[0] == c;
    } else if repl[0] == '\\' {
      EnclosedEnds(repl[2..], c, after);
      assert t[2..] == repl[2..] + [c] + after;
    } else {
      EnclosedEnds(repl[1..], c, after);
      assert t[1..] == repl[1..] + [c] + after;
    }
  }

  lemma {:induction false} EndEncloses(t: string, c: char)
    requires FindEnd(t, c).Some? && c != '\\'
    ensures Enclosed(t[..FindEnd(t, c).value], c) && Closed(t[..FindEnd(t, c).value])
  {
    var k := FindEnd(t, c).value;
    if t[0] == '\\' {
      EndEncloses(t[2..], c);
      assert t[..k][2..] == t[2..][..k - 2];
    } else if t[0] != c {
      EndEncloses(t[1..], c);
      assert t[..k][1..] == t[1..][..k - 1];
    }
  }

  lemma FirstSep(s: string, c: char, re: string, rest: string)
    requires s == [c] + re + [c] + rest && c != '\\' && Fenced(re, c)
    ensures FindSep(s, 1, c) == 1 + |re|
  {
    var r, at := FindSep(s, 1, c), 1 + |re|;
    assert s[at] == c && s[at - 1] != '\\';
    assert forall i :: 0 <= i < |re| ==> s[i + 1] == re[i];
  }

  /** What is written in the documented form is parsed into its parts. */
  lemma ParsesWritten(c: char, re: string, repl: string, flags: string, regcomp: Compiler)
    requires c != '\\' && Fenced(re, c) && Enclosed(repl, c)
    ensures Parse(Written(c, re, repl, flags), regcomp) == Assemble(re, repl, flags, regcomp)
  {
    var s, rest := Written(c, re, repl, flags), repl + [c] + flags;
    PartsOfWritten(s, c, re, repl, flags, rest);
    FirstSep(s, c, re, rest);
    EnclosedEnds(repl, c, flags);
    ParseBy(s, 1 + |re|, |repl|, regcomp);
  }

  lemma PartsOfWritten(s: string, c: char, re: string, repl: string, flags: string, rest: string)
    requires rest == repl + [c] + flags && s == Written(c, re, repl, flags)
    ensures s == [c] + re + [c] + rest
    ensures |s| >= 3 && s[0] == c && s[1..1 + |re|] == re && s[1 + |re| + 1..] == rest
    ensures rest[..|repl|] == repl && rest[|repl| + 1..] == flags
  {
    Assoc4([c] + re + [c], repl, [c], flags);
  }

  lemma ParseBy(s: string, i: nat, k: nat, regcomp: Compiler)
    requires |s| >= 3 && s[0] != '\\' && FindSep(s, 1, s[0]) == i < |s| && FindEnd(s[i + 1..], s[0]) == Some(k)
    ensures Parse(s, regcomp) == Assemble(s[1..i], s[i + 1..][..k], s[i + 1..][k + 1..], regcomp)
  {
  }

  /** And nothing else is accepted: whatever is parsed is in that form, with these parts. */
  lemma ParsedIsWritten(s: string, regcomp: Compiler) returns (flags: string)
    requires Parse(s, regcomp).Some?
    ensures var se := Parse(s, regcomp).value;
            s == Written(s[0], se.re, se.replacement, flags) && s[0] != '\\'
            && Fenced(se.re, s[0]) && Enclosed(se.replacement, s[0])
            && Some(se) == Assemble(se.re, se.replacement, flags, regcomp)
            && ValidExpr(se)
  {
    var c, i := s[0], FindSep(s, 1, s[0]);
    var rest := s[i + 1..];
    var k := FindEnd(rest, c).value;
    flags := rest[k + 1..];
    EndEncloses(rest, c);
    FencedUpto(s, c, i);
    Rejoin(s, c, i, rest, k);
  }

  lemma FencedUpto(s: string, c: char, i: nat)
    requires |s| > 0 && s[0] == c != '\\' && 1 <= i < |s| && i == FindSep(s, 1, c)
    ensures Fenced(s[1..i], c)
  {
    var re := s[1..i];
    forall j | 0 <= j < |re| && re[j] == c ensures j > 0 && re[j - 1] == '\\' {
      assert re[j] == s[j + 1];
      assert j > 0 ==> re[j - 1] == s[j];
    }
  }

  lemma Rejoin(s: string, c: char, i: nat, rest: string, k: nat)
    requires 1 <= i < |s| && s[0] == s[i] == c && rest == s[i + 1..] && k < |rest| && rest[k] == c
    ensures s == Written(c, s[1..i], rest[..k], rest[k + 1..])
  {
    assert rest == rest[..k] + [c] + rest[k + 1..];
    assert s == [c] + s[1..i] + [c] + rest;
    Assoc4([c] + s[1..i] + [c], rest[..k], [c], rest[k + 1..]);
  }
}
