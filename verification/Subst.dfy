/** Regular expression substitution: the replacement text and the splice, for any matcher. */
module Subst {
  import opened Options
  import opened SeqFacts
  import opened Buffers

  /** A part of a text to be replaced by another text. */
  datatype Edit = Edit(offset: nat, size: nat, text: string)

  /** regmatch_t: one group of a match, from the place the matcher began at. */
  datatype Group = Unset | Range(so: nat, eo: nat)

  datatype Escape = NMatch(n: nat) | Chr(c: char) | Uri

  datatype ReplaceWith = ReplaceWith(offset: nat, size: nat, esc: Escape)

  datatype SubstExpr = SubstExpr(
    re: string, ignoreCase: bool, newline: bool,
    replacement: string, replaceAll: bool, maxPmatch: nat, replace: seq<ReplaceWith>)

  datatype Msg = Request(uri: string, newUri: Option<string>) | Reply

  // ----- Splicing edits into a text

  function EndOf(es: seq<Edit>): nat {
    if es == [] then 0 else es[|es| - 1].offset + es[|es| - 1].size
  }

  /** The edits are in order, do not overlap and stay inside a text of this length. */
  predicate Ordered(es: seq<Edit>, n: nat)
    decreases |es|
  {
    es == [] || (Ordered(es[..|es| - 1], n) && EndOf(es[..|es| - 1]) <= es[|es| - 1].offset && EndOf(es) <= n)
  }

  /** The text with the edits made, up to the end of the last one. */
  function Upto(s: string, es: seq<Edit>): string
    requires Ordered(es, |s|)
    decreases |es|
  {
    if es == [] then []
    else
      var init, last := es[..|es| - 1], es[|es| - 1];
      Upto(s, init) + s[EndOf(init)..last.offset] + last.text
  }

  function Spliced(s: string, es: seq<Edit>): string
    requires Ordered(es, |s|)
  {
    OrderedEnd(es, |s|);
    Upto(s, es) + s[EndOf(es)..]
  }

  lemma OrderedEnd(es: seq<Edit>, n: nat)
    requires Ordered(es, n)
    ensures EndOf(es) <= n
  {
  }

  /** What the edits add to the length. */
  function Growth(es: seq<Edit>): int
    decreases |es|
  {
    if es == [] then 0 else Growth(es[..|es| - 1]) + |es[|es| - 1].text| - es[|es| - 1].size
  }

  lemma {:induction false} UptoLength(s: string, es: seq<Edit>)
    requires Ordered(es, |s|)
    ensures |Upto(s, es)| == EndOf(es) + Growth(es)
    decreases |es|
  {
    if es != [] { UptoLength(s, es[..|es| - 1]); }
  }

  /** The length computed before writing is the length of what is written. */
  lemma SplicedLength(s: string, es: seq<Edit>)
    requires Ordered(es, |s|)
    ensures |Spliced(s, es)| == |s| + Growth(es)
  {
    UptoLength(s, es);
    OrderedEnd(es, |s|);
  }

  lemma {:induction false} OrderedPrefix(es: seq<Edit>, n: nat, k: nat)
    requires Ordered(es, n) && k <= |es|
    ensures Ordered(es[..k], n)
    decreases |es|
  {
    if k < |es| {
      OrderedPrefix(es[..|es| - 1], n, k);
      assert es[..|es| - 1][..k] == es[..k];
    } else {
      assert es[..k] == es;
    }
  }

  /** One edit more. */
  lemma PrefixStep(s: string, es: seq<Edit>, k: nat)
    requires Ordered(es, |s|) && k < |es|
    ensures Ordered(es[..k], |s|) && Ordered(es[..k + 1], |s|)
    ensures EndOf(es[..k]) <= es[k].offset && EndOf(es[..k + 1]) == es[k].offset + es[k].size <= |s|
    ensures Upto(s, es[..k + 1]) == Upto(s, es[..k]) + s[EndOf(es[..k])..es[k].offset] + es[k].text
    ensures Growth(es[..k + 1]) == Growth(es[..k]) + |es[k].text| - es[k].size
  {
    OrderedPrefix(es, |s|, k);
    OrderedPrefix(es, |s|, k + 1);
    assert es[..k + 1][..k] == es[..k];
  }

  /** What is written for the first edits fits into what is written for all of them. */
  lemma {:induction false} UptoFits(s: string, es: seq<Edit>, k: nat)
    requires Ordered(es, |s|) && k <= |es|
    ensures Ordered(es[..k], |s|) && |Upto(s, es[..k])| <= |Upto(s, es)|
    decreases |es|
  {
    if k < |es| {
      UptoFits(s, es[..|es| - 1], k);
      assert es[..|es| - 1][..k] == es[..k];
    } else {
      assert es[..k] == es;
    }
  }

  // ----- The replacement text

  /** What a backslash and a character stand for. */
  function EscapeOf(c: char): Escape {
    if c == 'n' then Chr('\n')
    else if c == 'r' then Chr('\r')
    else if c == 't' then Chr('\t')
    else if c == 'u' then Uri
    else if '0' <= c <= '9' then NMatch((c - '0') as nat)
    else Chr(c)
  }

  /** The escapes of a replacement, with their places. */
  function Escapes(t: string, at: nat): seq<ReplaceWith> {
    if t == "" then []
    else if t[0] != '\\' then Escapes(t[1..], at + 1)
    else if |t| < 2 then []
    else [ReplaceWith(at, 2, EscapeOf(t[1]))] + Escapes(t[2..], at + 2)
  }

  /** No escape is left open. */
  predicate Closed(t: string) {
    t == "" || (if t[0] != '\\' then Closed(t[1..]) else |t| >= 2 && Closed(t[2..]))
  }

  /** The replacement read from left to right: every escape stands for its meaning,
      every other character for itself. */
  function Expanded(t: string, groups: seq<Group>, text: string, msg: Msg): string
    requires InRange(groups, |text|)
  {
    if t == "" then ""
    else if t[0] == '\\'
        && |t| >= 2 then Meaning(EscapeOf(t[1]), groups, text, msg) + Expanded(t[2..], groups, text, msg)
    else [t[0]] + Expanded(t[1..], groups, text, msg)
  }

  /** The groups lie in a text of this length. */
  predicate InRange(groups: seq<Group>, n: nat) {
    forall i :: 0 <= i < |groups| && groups[i].Range? ==> groups[i].so <= groups[i].eo <= n
  }

  /** What an escape stands for, given the groups of a match in a text. */
  function Meaning(esc: Escape, groups: seq<Group>, text: string, msg: Msg): string
    requires InRange(groups, |text|)
  {
    match esc
    case NMatch(n) => if n < |groups| && groups[n].Range? then text[groups[n].so..groups[n].eo] else ""
    case Chr(c) => [c]
    case Uri => UriOf(msg)
  }

  /** The new URI when there is one; a reply has none. */
  function UriOf(msg: Msg): string {
    match msg
    case Request(uri, new_) => if new_.Some? then new_.value else uri
    case Reply => ""
  }

  function EditOf(rw: ReplaceWith, groups: seq<Group>, text: string, msg: Msg): Edit
    requires InRange(groups, |text|)
  {
    Edit(rw.offset, rw.size, Meaning(rw.esc, groups, text, msg))
  }

  function Edits(rws: seq<ReplaceWith>, groups: seq<Group>, text: string, msg: Msg): (es: seq<Edit>)
    requires InRange(groups, |text|)
    ensures |es| == |rws| && forall i :: 0 <= i < |rws| ==> es[i] == EditOf(rws[i], groups, text, msg)
  {
    seq(|rws|, i requires 0 <= i < |rws| => EditOf(rws[i], groups, text, msg))
  }

  /** replace_len */
  method ReplaceLen(text: string, groups: seq<Group>, se: SubstExpr, msg: Msg) returns (len: int)
    requires InRange(groups, |text|)
    requires forall rw :: rw in se.replace ==> rw.size == 2
    ensures len == |se.replacement| + Growth(Edits(se.replace, groups, text, msg))
  {
    ghost var es := Edits(se.replace, groups, text, msg);
    len := |se.replacement|;
    var r := 0;
    while r < |se.replace|
      invariant 0 <= r <= |se.replace|
      invariant len == |se.replacement| + Growth(es[..r])
    {
      assert es[..r + 1][..r] == es[..r];
      var rw := se.replace[r];
      match rw.esc {
        case NMatch(n) =>
          len := len - rw.size;
          if n < |groups| && groups[n].Range? { len := len + (groups[n].eo - groups[n].so); }
        case Chr(_) => len := len - (rw.size - 1);
        case Uri =>
          len := len - rw.size;
          if msg.Request? {
            len := len + if msg.newUri.Some? then |msg.newUri.value| else |msg.uri|;
          }
      }
      r := r + 1;
    }
    assert es[..|es|] == es;
  }

  /** The cases of replace_build. */
  method CopyMeaning(dst: array<char>, dest: nat, esc: Escape, groups: seq<Group>, text: string, msg: Msg)
    returns (next: nat)
    requires InRange(groups, |text|) && dest + |Meaning(esc, groups, text, msg)| <= dst.Length
    modifies dst
    ensures next == dest + |Meaning(esc, groups, text, msg)|
    ensures dst[..next] == old(dst[..dest]) + Meaning(esc, groups, text, msg)
  {
    next := dest;
    match esc {
      case NMatch(n) =>
        if n < |groups| && groups[n].Range? { next := Copy(dst, dest, text[groups[n].so..groups[n].eo]); }
      case Chr(c) =>
        dst[dest] := c;
        next := dest + 1;
      case Uri =>
        if msg.Request? { next := Copy(dst, dest, if msg.newUri.Some? then msg.newUri.value else msg.uri); }
    }
  }

  /** One round of replace_build: what stands in front of an escape, and its meaning. */
  method CopyRound(dst: array<char>, dest: nat, kept: string, esc: Escape, groups: seq<Group>, text: string, msg: Msg)
    returns (next: nat)
    requires InRange(groups, |text|) && dest + |kept| + |Meaning(esc, groups, text, msg)| <= dst.Length
    modifies dst
    ensures next == dest + |kept| + |Meaning(esc, groups, text, msg)|
    ensures dst[..next] == old(dst[..dest]) + kept + Meaning(esc, groups, text, msg)
  {
    next := Copy(dst, dest, kept);
    next := CopyMeaning(dst, next, esc, groups, text, msg);
  }

  /** replace_build: writes exactly as many characters as replace_len has found, and
      they are the replacement with every escape replaced by what it stands for. */
  method ReplaceBuild(text: string, groups: seq<Group>, se: SubstExpr, msg: Msg) returns (rpl: string)
    requires InRange(groups, |text|)
    requires forall rw :: rw in se.replace ==> rw.size == 2
    requires Ordered(Edits(se.replace, groups, text, msg), |se.replacement|)
    ensures rpl == Spliced(se.replacement, Edits(se.replace, groups, text, msg))
  {
    ghost var es := Edits(se.replace, groups, text, msg);
    SplicedLength(se.replacement, es);
    var len := ReplaceLen(text, groups, se, msg);
    if len == 0 { return ""; }
    var dst := new char[len];
    var p: nat, dest: nat, r := 0, 0, 0;
    while r < |se.replace|
      invariant 0 <= r <= |se.replace| && dest <= len && CopiedUpto(se.replacement, es, r, p, dst[..dest])
    {
      CopiedNext(se.replacement, es, r, p, dst[..dest]);
      var rw := se.replace[r];
      dest := CopyRound(dst, dest, se.replacement[p..rw.offset], rw.esc, groups, text, msg);
      p := rw.offset + rw.size;
      r := r + 1;
    }
    CopiedAll(se.replacement, es, p, dst[..dest]);
    dest := Copy(dst, dest, se.replacement[p..]);
    rpl := dst[..];
  }

  /** How far a splicing loop has come: `done` is written, and the text is read up to `p`. */
  ghost predicate CopiedUpto(t: string, es: seq<Edit>, r: nat, p: nat, done: string) {
    r <= |es| && p <= |t| && Ordered(es[..r], |t|) && p == EndOf(es[..r]) && done == Upto(t, es[..r])
  }

  lemma CopiedNext(t: string, es: seq<Edit>, r: nat, p: nat, done: string)
    requires Ordered(es, |t|) && r < |es| && CopiedUpto(t, es, r, p, done)
    ensures p <= es[r].offset && es[r].offset + es[r].size <= |t|
    ensures |done| + (es[r].offset - p) + |es[r].text| <= |Spliced(t, es)|
    ensures CopiedUpto(t, es, r + 1, es[r].offset + es[r].size, done + t[p..es[r].offset] + es[r].text)
  {
    PrefixStep(t, es, r);
    UptoFits(t, es, r + 1);
  }

  lemma CopiedAll(t: string, es: seq<Edit>, p: nat, done: string)
    requires Ordered(es, |t|) && CopiedUpto(t, es, |es|, p, done)
    ensures done + t[p..] == Spliced(t, es)
  {
    assert es[..|es|] == es;
  }

  lemma OneMore(t: string, es: seq<Edit>, e: Edit)
    requires Ordered(es, |t|) && EndOf(es) <= e.offset && e.offset + e.size <= |t|
    ensures Ordered(es + [e], |t|) && EndOf(es + [e]) == e.offset + e.size
    ensures Upto(t, es + [e]) == Upto(t, es) + t[EndOf(es)..e.offset] + e.text
  {
    assert (es + [e])[..|es|] == es;
  }

  lemma EscapesFirst(t: string, k: nat, groups: seq<Group>, text: string, msg: Msg)
    requires InRange(groups, |text|) && k < |t| && Closed(t[k..])
    ensures if t[k] != '\\' then
              Closed(t[k + 1..]) && Escapes(t[k..], k) == Escapes(t[k + 1..], k + 1)
              && Expanded(t[k..], groups, text, msg) == [t[k]] + Expanded(t[k + 1..], groups, text, msg)
            else
              k + 2 <= |t| && Closed(t[k + 2..])
              && Escapes(t[k..], k) == [ReplaceWith(k, 2, EscapeOf(t[k + 1]))] + Escapes(t[k + 2..], k + 2)
              && Expanded(t[k..], groups, text, msg)
                  == Meaning(EscapeOf(t[k + 1]), groups, text, msg) + Expanded(t[k + 2..], groups, text, msg)
  {
    if t[k] != '\\' {
      assert t[k..][1..] == t[k + 1..];
    } else {
      assert t[k..][1] == t[k + 1] && t[k..][2..] == t[k + 2..];
    }
  }

  lemma EditsCons(rw: ReplaceWith, rest: seq<ReplaceWith>, groups: seq<Group>, text: string, msg: Msg)
    requires InRange(groups, |text|)
    ensures Edits([rw] + rest, groups, text, msg) == [EditOf(rw, groups, text, msg)] + Edits(rest, groups, text, msg)
  {
  }

  /** With the escapes from here on put after edits made so far, the rest is expanded. */
  ghost predicate SplicesTo(t: string, k: nat, es: seq<Edit>, rest: seq<Edit>, expanded: string)
    requires k <= |t| && Ordered(es, |t|) && EndOf(es) <= k
  {
    Ordered(es + rest, |t|) && Spliced(t, es + rest) == Upto(t, es) + t[EndOf(es)..k] + expanded
  }

  lemma SplicesChar(t: string, k: nat, es: seq<Edit>, rest: seq<Edit>, expanded: string)
    requires k < |t| && Ordered(es, |t|) && EndOf(es) <= k && SplicesTo(t, k + 1, es, rest, expanded)
    ensures SplicesTo(t, k, es, rest, [t[k]] + expanded)
  {
    SplitSlice(t, EndOf(es), k);
    MoveChar(Upto(t, es), t[EndOf(es)..k], t[k], expanded);
  }

  lemma SplitSlice(t: string, i: nat, k: nat)
    requires i <= k < |t|
    ensures t[i..k + 1] == t[i..k] + [t[k]]
  {
  }

  lemma MoveChar(u: string, gap: string, c: char, expanded: string)
    ensures u + (gap + [c]) + expanded == u + gap + ([c] + expanded)
  {
  }

  lemma SplicesEdit(t: string, k: nat, es: seq<Edit>, e: Edit, rest: seq<Edit>, expanded: string)
    requires Ordered(es, |t|) && EndOf(es) <= k <= e.offset && e.offset + e.size <= |t|
    requires Ordered(es + [e], |t|) && EndOf(es + [e]) == e.offset + e.size
    requires Upto(t, es + [e]) == Upto(t, es) + t[EndOf(es)..e.offset] + e.text
    requires SplicesTo(t, e.offset + e.size, es + [e], rest, expanded)
    ensures SplicesTo(t, k, es, [e] + rest, t[k..e.offset] + e.text + expanded)
  {
    var u, end := Upto(t, es), e.offset + e.size;
    Assoc(es, [e], rest);
    assert Upto(t, es + [e]) + t[end..end] == Upto(t, es + [e]);
    assert t[EndOf(es)..e.offset] == t[EndOf(es)..k] + t[k..e.offset];
    Regroup(u, t[EndOf(es)..k], t[k..e.offset], e.text, expanded);
  }

  lemma SplicesEscape(t: string, k: nat, es: seq<Edit>, e: Edit, rest: seq<Edit>, expanded: string)
    requires k + 2 <= |t| && Ordered(es, |t|) && EndOf(es) <= k && e.offset == k && e.size == 2
    requires Ordered(es + [e], |t|) && EndOf(es + [e]) == k + 2
    requires Upto(t, es + [e]) == Upto(t, es) + t[EndOf(es)..k] + e.text
    requires SplicesTo(t, k + 2, es + [e], rest, expanded)
    ensures SplicesTo(t, k, es, [e] + rest, e.text + expanded)
  {
    SplicesEdit(t, k, es, e, rest, expanded);
    assert t[k..k] + e.text == e.text;
  }

  lemma Regroup(a: string, b: string, c: string, d: string, e: string)
    ensures a + (b + c) + d + e == a + b + (c + d + e)
  {
  }

  lemma {:induction false} SplicesRest(t: string, k: nat, es: seq<Edit>, groups: seq<Group>, text: string, msg: Msg)
    requires InRange(groups, |text|) && k <= |t| && Closed(t[k..])
    requires Ordered(es, |t|) && EndOf(es) <= k
    ensures SplicesTo(t, k, es, Edits(Escapes(t[k..], k), groups, text, msg), Expanded(t[k..], groups, text, msg))
    decreases |t| - k
  {
    if k == |t| {
      assert es + [] == es && Upto(t, es) + t[EndOf(es)..k] + "" == Upto(t, es) + t[EndOf(es)..k];
    } else {
      EscapesFirst(t, k, groups, text, msg);
      if t[k] != '\\' {
        SplicesRest(t, k + 1, es, groups, text, msg);
        SplicesChar(t, k, es, Edits(Escapes(t[k + 1..], k + 1), groups, text, msg),
                    Expanded(t[k + 1..], groups, text, msg));
      } else {
        var rw, rws := ReplaceWith(k, 2, EscapeOf(t[k + 1])), Escapes(t[k + 2..], k + 2);
        var e := EditOf(rw, groups, text, msg);
        OneMore(t, es, e);
        SplicesRest(t, k + 2, es + [e], groups, text, msg);
        SplicesEscape(t, k, es, e, Edits(rws, groups, text, msg), Expanded(t[k + 2..], groups, text, msg));
        EditsCons(rw, rws, groups, text, msg);
      }
    }
  }

  /** Splicing the meanings of the escapes into the replacement expands it. */
  lemma EscapesExpand(t: string, groups: seq<Group>, text: string, msg: Msg)
    requires InRange(groups, |text|) && Closed(t)
    ensures Ordered(Edits(Escapes(t, 0), groups, text, msg), |t|)
    ensures Spliced(t, Edits(Escapes(t, 0), groups, text, msg)) == Expanded(t, groups, text, msg)
  {
    SplicesRest(t, 0, [], groups, text, msg);
    assert t[0..] == t;
    assert [] + Edits(Escapes(t, 0), groups, text, msg) == Edits(Escapes(t, 0), groups, text, msg);
  }

  // ----- Matching and substituting

  /** regexec on the text from some place on; the flag is REG_NOTBOL. */
  type Matcher = (string, bool) -> Option<seq<Group>>

  /** What regexec promises: the groups of a match lie in the text. */
  ghost predicate InText(m: Matcher) {
    forall t, notBol :: m(t, notBol).Some? ==> |m(t, notBol).value| > 0 && InRange(m(t, notBol).value, |t|)
  }

  // ----- When the loop that replaces all matches ends

  /** What is left behind a match; none without a match that has a place. */
  function Behind(m: Matcher, text: string, notBol: bool): Option<string>
    requires InText(m)
  {
    match m(text, notBol)
    case None => None
    case Some(groups) => if groups[0].Unset? then None else Some(text[groups[0].eo..])
  }

  /** What is searched after this many matches, and whether as the beginning of a line; none
      once the loop has ended. */
  function Visit(m: Matcher, text: string, notBol: bool, k: nat): Option<(string, bool)>
    requires InText(m)
    decreases k
  {
    if k == 0 then Some((text, notBol))
    else match Behind(m, text, notBol) case None => None case Some(rest) => Visit(m, rest, true, k - 1)
  }

  /** The match found there, which is not the first one of all, ends where its search began. */
  predicate Stuck(m: Matcher, text: string, notBol: bool, k: nat)
    requires InText(m)
  {
    var v := Visit(m, text, notBol, k);
    v.Some? && v.value.1 && var r := m(v.value.0, true); r.Some? && r.value[0].Range? && r.value[0].eo == 0
  }

  ghost predicate NeverStuck(m: Matcher, text: string, notBol: bool)
    requires InText(m)
  {
    forall k: nat :: !Stuck(m, text, notBol, k)
  }

  ghost predicate LoopEnds(m: Matcher, text: string, notBol: bool)
    requires InText(m)
  {
    exists k: nat :: Visit(m, text, notBol, k) == None
  }

  /** One match further the loop is stuck no more than before, and the next match has moved on
      unless it was the first. */
  lemma NextNeverStuck(m: Matcher, text: string, notBol: bool)
    requires InText(m) && NeverStuck(m, text, notBol) && Behind(m, text, notBol).Some?
    ensures NeverStuck(m, Behind(m, text, notBol).value, true)
    ensures |Behind(m, text, notBol).value| <= |text| && (notBol ==> |Behind(m, text, notBol).value| < |text|)
  {
    var rest := Behind(m, text, notBol).value;
    forall k: nat ensures !Stuck(m, rest, true, k) { assert !Stuck(m, text, notBol, k + 1); }
    assert !Stuck(m, text, notBol, 0);
  }

  lemma {:induction false} NeverStuckEnds(m: Matcher, text: string, notBol: bool, n: nat)
    requires InText(m) && NeverStuck(m, text, notBol) && n >= |text| + (if notBol then 1 else 2)
    ensures Visit(m, text, notBol, n) == None
    decreases n
  {
    if Behind(m, text, notBol).Some? {
      NextNeverStuck(m, text, notBol);
      NeverStuckEnds(m, Behind(m, text, notBol).value, true, n - 1);
    }
  }

  lemma {:induction false} StuckRunsOn(m: Matcher, text: string, notBol: bool, k: nat, n: nat)
    requires InText(m) && Stuck(m, text, notBol, k)
    ensures Visit(m, text, notBol, n).Some?
    decreases n
  {
    if n > 0 {
      if k == 0 {
        assert text[0..] == text && Behind(m, text, notBol) == Some(text);
        StuckRunsOn(m, text, true, 0, n - 1);
      } else {
        StuckRunsOn(m, Behind(m, text, notBol).value, true, k - 1, n - 1);
      }
    }
  }

  /** The loop ends if and only if no match but the first ends where its search began;
      when it ends, it does so after at most two matches more than the input is long. */
  lemma LoopEndsIff(m: Matcher, input: string)
    requires InText(m)
    ensures LoopEnds(m, input, false) <==> NeverStuck(m, input, false)
    ensures LoopEnds(m, input, false) ==> Visit(m, input, false, |input| + 2) == None
  {
    if NeverStuck(m, input, false) {
      NeverStuckEnds(m, input, false, |input| + 2);
    } else {
      var k: nat :| Stuck(m, input, false, k);
      if LoopEnds(m, input, false) {
        var i: nat :| Visit(m, input, false, i) == None;
        StuckRunsOn(m, input, false, k, i);
      }
    }
  }

  /** A matcher whose matches are not empty is never stuck. */
  lemma NonEmptyNeverStuck(m: Matcher, input: string)
    requires InText(m)
    requires forall t, bol :: m(t, bol).Some? && m(t, bol).value[0].Range? ==>
             m(t, bol).value[0].so < m(t, bol).value[0].eo
    ensures NeverStuck(m, input, false)
  {
  }

  /** The matcher of the empty expression: it matches nothing, everywhere. */
  function EmptyMatch(text: string, notBol: bool): Option<seq<Group>> { Some([Range(0, 0)]) }

  /** With it, and flag g, the loop never ends, on any input. */
  lemma EmptyMatchNeverEnds(input: string)
    ensures InText(EmptyMatch) && !LoopEnds(EmptyMatch, input, false)
  {
    assert input[0..] == input && Behind(EmptyMatch, input, false) == Some(input);
    assert Visit(EmptyMatch, input, false, 1) == Visit(EmptyMatch, input, true, 0) == Some((input, true));
    assert Stuck(EmptyMatch, input, false, 1);
    LoopEndsIff(EmptyMatch, input);
  }

  ghost predicate ValidExpr(se: SubstExpr) {
    Closed(se.replacement) && se.replace == Escapes(se.replacement, 0)
  }

  /** The substitution of the text from some place on: what is before the match, the
      expanded replacement, and what is after it, again substituted when all are wanted. */
  function Substituted(m: Matcher, se: SubstExpr, msg: Msg, text: string, notBol: bool): Option<string>
    requires InText(m) && (se.replaceAll ==> NeverStuck(m, text, notBol))
    decreases |text|, !notBol
  {
    match m(text, notBol)
    case None => Some(text)
    case Some(groups) =>
      if groups[0].Unset? then None
      else
        assert Behind(m, text, notBol) == Some(text[groups[0].eo..]);
        var before := text[..groups[0].so] + Expanded(se.replacement, groups, text, msg);
        var after := text[groups[0].eo..];
        if !se.replaceAll then Some(before + after)
        else
          NextNeverStuck(m, text, notBol);
          Joined(before, Substituted(m, se, msg, after, true))
  }

  function Joined(before: string, after: Option<string>): Option<string> {
    match after case None => None case Some(rest) => Some(before + rest)
  }

  function Listed(e: Edit, after: Option<seq<Edit>>): Option<seq<Edit>> {
    match after case None => None case Some(rest) => Some([e] + rest)
  }

  /** The list of replacements of subst_run for the text from place `p` on; none when a match
      has no place. */
  function Replacements(m: Matcher, se: SubstExpr, msg: Msg, text: string, p: nat, notBol: bool): Option<seq<Edit>>
    requires InText(m) && (se.replaceAll ==> NeverStuck(m, text, notBol))
    decreases |text|, !notBol
  {
    match m(text, notBol)
    case None => Some([])
    case Some(groups) =>
      if groups[0].Unset? then None
      else
        assert Behind(m, text, notBol) == Some(text[groups[0].eo..]);
        var e := Edit(p + groups[0].so, groups[0].eo - groups[0].so, Expanded(se.replacement, groups, text, msg));
        if !se.replaceAll then Some([e])
        else
          NextNeverStuck(m, text, notBol);
          Listed(e, Replacements(m, se, msg, text[groups[0].eo..], p + groups[0].eo, true))
  }

  lemma {:induction false} EscapeSizes(t: string, at: nat)
    ensures forall rw :: rw in Escapes(t, at) ==> rw.size == 2
  {
    if t != "" {
      if t[0] != '\\' {
        EscapeSizes(t[1..], at + 1);
      } else if |t| >= 2 {
        EscapeSizes(t[2..], at + 2);
      }
    }
  }

  /** One match more. */
  lemma MatchSplices(t: string, p: nat, es: seq<Edit>, e: Edit, rest: seq<Edit>, expanded: string)
    requires Ordered(es, |t|) && EndOf(es) <= p <= e.offset && e.offset + e.size <= |t|
    ensures Ordered(es + [e], |t|) && EndOf(es + [e]) == e.offset + e.size
    ensures SplicesTo(t, e.offset + e.size, es + [e], rest, expanded)
        ==> SplicesTo(t, p, es, [e] + rest, t[p..e.offset] + e.text + expanded)
  {
    OneMore(t, es, e);
    if SplicesTo(t, e.offset + e.size, es + [e], rest, expanded) { SplicesEdit(t, p, es, e, rest, expanded); }
  }

  lemma NothingMore(t: string, p: nat, es: seq<Edit>)
    requires Ordered(es, |t|) && EndOf(es) <= p <= |t|
    ensures SplicesTo(t, p, es, [], t[p..])
  {
    assert es + [] == es;
    assert t[EndOf(es)..] == t[EndOf(es)..p] + t[p..];
    Assoc(Upto(t, es), t[EndOf(es)..p], t[p..]);
  }

  /** The edit of a match. */
  function EditAt(se: SubstExpr, msg: Msg, groups: seq<Group>, text: string, p: nat): Edit
    requires |groups| > 0 && InRange(groups, |text|) && groups[0].Range?
  {
    Edit(p + groups[0].so, groups[0].eo - groups[0].so, Expanded(se.replacement, groups, text, msg))
  }

  /** What a match contributes to both, given what comes after it. */
  lemma BothStep(m: Matcher, se: SubstExpr, msg: Msg, input: string, p: nat, notBol: bool)
    requires InText(m) && p <= |input| && (se.replaceAll ==> NeverStuck(m, input[p..], notBol))
    requires m(input[p..], notBol).Some? && m(input[p..], notBol).value[0].Range?
    ensures Behind(m, input[p..], notBol) == Some(input[p + m(input[p..], notBol).value[0].eo..])
    ensures se.replaceAll ==> NeverStuck(m, input[p + m(input[p..], notBol).value[0].eo..], true)
    ensures se.replaceAll && notBol ==> m(input[p..], notBol).value[0].eo > 0
    ensures var groups := m(input[p..], notBol).value;
            var e, end := EditAt(se, msg, groups, input[p..], p), p + groups[0].eo;
            var rest := if se.replaceAll then Replacements(m, se, msg, input[end..], end, true) else Some([]);
            var after := if se.replaceAll then Substituted(m, se, msg, input[end..], true) else Some(input[end..]);
            Replacements(m, se, msg, input[p..], p, notBol) == Listed(e, rest)
            && Substituted(m, se, msg, input[p..], notBol) == Joined(input[p..e.offset] + e.text, after)
  {
    var groups := m(input[p..], notBol).value;
    assert input[p..][..groups[0].so] == input[p..p + groups[0].so];
    assert input[p..][groups[0].eo..] == input[p + groups[0].eo..];
    if se.replaceAll { NextNeverStuck(m, input[p..], notBol); }
    if !se.replaceAll {
      var e := EditAt(se, msg, groups, input[p..], p);
      assert [e] + [] == [e];
    }
  }

  /** The list and the substitution, from some place on. */
  ghost predicate ListSplices(input: string, p: nat, es: seq<Edit>, lst: Option<seq<Edit>>, out: Option<string>)
    requires p <= |input| && Ordered(es, |input|) && EndOf(es) <= p
  {
    (lst.Some? <==> out.Some?) && (lst.Some? ==> SplicesTo(input, p, es, lst.value, out.value))
  }

  lemma ListEnds(input: string, p: nat, es: seq<Edit>)
    requires p <= |input| && Ordered(es, |input|) && EndOf(es) <= p
    ensures ListSplices(input, p, es, Some([]), Some(input[p..]))
  {
    NothingMore(input, p, es);
  }

  lemma {:induction false} ReplacementsSplice(m: Matcher, se: SubstExpr, msg: Msg, input: string, p: nat,
                                              notBol: bool, es: seq<Edit>)
    requires InText(m) && p <= |input| && (se.replaceAll ==> NeverStuck(m, input[p..], notBol))
    requires Ordered(es, |input|) && EndOf(es) <= p
    ensures ListSplices(input, p, es, Replacements(m, se, msg, input[p..], p, notBol),
                        Substituted(m, se, msg, input[p..], notBol))
    decreases |input| - p, !notBol
  {
    var r := m(input[p..], notBol);
    if r.None? {
      ListEnds(input, p, es);
    } else if r.value[0].Range? {
      var e := EditAt(se, msg, r.value, input[p..], p);
      var end := p + r.value[0].eo;
      OneMore(input, es, e);
      BothStep(m, se, msg, input, p, notBol);
      if se.replaceAll {
        ReplacementsSplice(m, se, msg, input, end, true, es + [e]);
      } else {
        ListEnds(input, end, es + [e]);
      }
      MatchCase(m, se, msg, input, p, notBol, es, e, end);
    }
  }

  lemma MatchCase(m: Matcher, se: SubstExpr, msg: Msg, input: string, p: nat, notBol: bool, es: seq<Edit>,
                  e: Edit, end: nat)
    requires InText(m) && p <= |input| && (se.replaceAll ==> NeverStuck(m, input[p..], notBol))
    requires Ordered(es, |input|) && EndOf(es) <= p
    requires m(input[p..], notBol).Some? && m(input[p..], notBol).value[0].Range?
    requires e == EditAt(se, msg, m(input[p..], notBol).value, input[p..], p) && end == e.offset + e.size <= |input|
    requires se.replaceAll ==> NeverStuck(m, input[end..], true)
    requires Ordered(es + [e], |input|) && EndOf(es + [e]) == end
    requires ListSplices(input, end, es + [e],
                         if se.replaceAll then Replacements(m, se, msg, input[end..], end, true) else Some([]),
                         if se.replaceAll then Substituted(m, se, msg, input[end..], true) else Some(input[end..]))
    ensures ListSplices(input, p, es, Replacements(m, se, msg, input[p..], p, notBol),
                        Substituted(m, se, msg, input[p..], notBol))
  {
    var rest := if se.replaceAll then Replacements(m, se, msg, input[end..], end, true) else Some([]);
    var after := if se.replaceAll then Substituted(m, se, msg, input[end..], true) else Some(input[end..]);
    BothStep(m, se, msg, input, p, notBol);
    ListStep(input, p, es, e, rest, after, Replacements(m, se, msg, input[p..], p, notBol),
             Substituted(m, se, msg, input[p..], notBol));
  }

  lemma ListStep(input: string, p: nat, es: seq<Edit>, e: Edit, rest: Option<seq<Edit>>, after: Option<string>,
                 lst: Option<seq<Edit>>, out: Option<string>)
    requires Ordered(es, |input|) && EndOf(es) <= p <= e.offset && e.offset + e.size <= |input|
    requires Ordered(es + [e], |input|) && EndOf(es + [e]) == e.offset + e.size
    requires ListSplices(input, e.offset + e.size, es + [e], rest, after)
    requires lst == Listed(e, rest) && out == Joined(input[p..e.offset] + e.text, after)
    ensures ListSplices(input, p, es, lst, out)
  {
    if rest.Some? { MatchSplices(input, p, es, e, rest.value, after.value); }
  }

  /** The list of replacements is in order, without overlap and inside the input, and
      splicing it in is the substitution. */
  lemma ListIsSubstitution(m: Matcher, se: SubstExpr, msg: Msg, input: string)
    requires InText(m) && (se.replaceAll ==> NeverStuck(m, input, false))
    ensures var lst, out := Replacements(m, se, msg, input, 0, false), Substituted(m, se, msg, input, false);
            (lst.Some? <==> out.Some?)
            && (lst.Some? ==> Ordered(lst.value, |input|) && Spliced(input, lst.value) == out.value)
  {
    assert input[0..] == input;
    ReplacementsSplice(m, se, msg, input, 0, false, []);
    var lst := Replacements(m, se, msg, input, 0, false);
    if lst.Some? { assert [] + lst.value == lst.value; }
  }

  /** subst_run */
  method SubstRun(m: Matcher, se: SubstExpr, msg: Msg, input: string) returns (lst: seq<Edit>, count: int)
    requires ValidExpr(se) && InText(m) && (se.replaceAll ==> NeverStuck(m, input, false))
    ensures match Replacements(m, se, msg, input, 0, false)
            case None => lst == [] && count == -1
            case Some(l) => lst == l && count == |l|
  {
    assert input[0..] == input;
    ghost var all := Replacements(m, se, msg, input, 0, false);
    lst, count := [], 0;
    var p, notBol, again := 0, false, true;
    ghost var rest := all;
    RunningStart(all);
    while again
      invariant p <= |input| && count == |lst|
      invariant again && se.replaceAll ==> NeverStuck(m, input[p..], notBol)
      invariant again ==> rest == Replacements(m, se, msg, input[p..], p, notBol)
      invariant (!again ==> rest == Some([])) && Running(all, lst, rest)
      decreases again, |input| - p, !notBol
    {
      var text := input[p..];
      var r := m(text, notBol);
      again := false;
      if r.Some? {
        if r.value[0].Unset? { return [], -1; }
        BothStep(m, se, msg, input, p, notBol);
        if se.replaceAll { NextNeverStuck(m, text, notBol); }
        var e := ReplaceOne(se, msg, input, p, r.value);
        rest := if se.replaceAll then Replacements(m, se, msg, input[p + r.value[0].eo..], p + r.value[0].eo, true)
            else Some([]);
        RunningNext(all, lst, e, rest);
        notBol := true;
        lst := lst + [e];
        p := p + r.value[0].eo;
        count := count + 1;
        again := se.replaceAll;
      }
    }
  }

  /** How far subst_run has come: what it has listed, and what is still to be found. */
  ghost predicate Running(all: Option<seq<Edit>>, lst: seq<Edit>, rest: Option<seq<Edit>>) {
    all == if rest.Some? then Some(lst + rest.value) else None
  }

  lemma RunningStart(all: Option<seq<Edit>>)
    ensures Running(all, [], all)
  {
    assert all.Some? ==> [] + all.value == all.value;
  }

  lemma RunningNext(all: Option<seq<Edit>>, lst: seq<Edit>, e: Edit, rest: Option<seq<Edit>>)
    requires Running(all, lst, Listed(e, rest))
    ensures Running(all, lst + [e], rest)
  {
    if rest.Some? { Assoc(lst, [e], rest.value); }
  }

  /** The replacement of one match. */
  method ReplaceOne(se: SubstExpr, msg: Msg, input: string, p: nat, groups: seq<Group>) returns (e: Edit)
    requires ValidExpr(se) && p <= |input| && |groups| > 0 && InRange(groups, |input[p..]|) && groups[0].Range?
    ensures e == EditAt(se, msg, groups, input[p..], p)
  {
    EscapeSizes(se.replacement, 0);
    EscapesExpand(se.replacement, groups, input[p..], msg);
    var rpl := ReplaceBuild(input[p..], groups, se, msg);
    e := Edit(p + groups[0].so, groups[0].eo - groups[0].so, rpl);
  }

  /** subst_str: no result without a match; otherwise the substitution, in a buffer whose
      size was computed before. */
  method SubstStr(m: Matcher, se: SubstExpr, msg: Msg, input: string) returns (res: Option<string>, count: int)
    requires ValidExpr(se) && InText(m) && (se.replaceAll ==> NeverStuck(m, input, false))
    ensures match Replacements(m, se, msg, input, 0, false)
            case None => res == None && count == -1
            case Some(lst) => count == |lst| && res == if lst == [] then None else Substituted(m, se, msg, input, false)
  {
    assert input[0..] == input;
    var lst;
    lst, count := SubstRun(m, se, msg, input);
    if lst == [] { return None, count; }
    ListIsSubstitution(m, se, msg, input);
    SplicedLength(input, lst);
    var len: int := |input|;
    var i := 0;
    while i < |lst|
      invariant 0 <= i <= |lst| && len == |input| + Growth(lst[..i])
    {
      PrefixStep(input, lst, i);
      len := len + |lst[i].text| - lst[i].size;
      i := i + 1;
    }
    assert lst[..|lst|] == lst;
    var out := WriteSpliced(input, lst, len);
    res := Some(out);
  }

  /** The writing loop of subst_str. */
  method WriteSpliced(input: string, lst: seq<Edit>, len: nat) returns (out: string)
    requires Ordered(lst, |input|) && len == |Spliced(input, lst)|
    ensures out == Spliced(input, lst)
  {
    var dst := new char[len];
    var p: nat, dest: nat, i := 0, 0, 0;
    while i < |lst|
      invariant 0 <= i <= |lst| && dest <= len && CopiedUpto(input, lst, i, p, dst[..dest])
    {
      CopiedNext(input, lst, i, p, dst[..dest]);
      dest := Copy(dst, dest, input[p..lst[i].offset]);
      p := lst[i].offset + lst[i].size;
      if lst[i].text != "" { dest := Copy(dst, dest, lst[i].text); }
      i := i + 1;
    }
    CopiedAll(input, lst, p, dst[..dest]);
    dest := Copy(dst, dest, input[p..]);
    assert dst[..dest] == dst[..];
    out := dst[..];
  }
}
