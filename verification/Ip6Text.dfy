/** Printing and parsing IPv6 addresses. */
module Ip6Text {
  import opened Options
  import opened SeqFacts
  import opened IpText

  // ----- Groups of hexadecimal digits

  /** HEX2I: -1 for any other character. */
  function Hex2I(c: char): int {
    if '0' <= c <= '9' then (c - '0') as int
    else if 'A' <= c <= 'F' then (c - 'A') as int + 10
    else if 'a' <= c <= 'f' then (c - 'a') as int + 10
    else -1
  }

  function HexVal(c: char): nat {
    if Hex2I(c) < 0 then 0 else Hex2I(c)
  }

  /** HEXDIG */
  function HexDig(d: nat): (c: char)
    requires d < 16
    ensures Hex2I(c) == d && c != ':'
  {
    if d >= 10 then 'A' + (d - 10) as char else '0' + d as char
  }

  /** Cut to an unsigned short. */
  function Short(n: nat): (g: nat)
    ensures g < 65536 && (n < 65536 ==> g == n)
  {
    n % 65536
  }

  /** The number of a group: it wraps around. */
  function Group(s: string): (n: nat)
    ensures n < 65536
    decreases |s|
  {
    if s == "" then 0 else Short(Group(s[..|s| - 1]) * 16 + HexVal(s[|s| - 1]))
  }

  function Groups(f: seq<string>): seq<nat> {
    seq(|f|, i requires 0 <= i < |f| => Group(f[i]))
  }

  function Zeros(n: nat): seq<nat> {
    seq(n, _ => 0)
  }

  // ----- What is accepted, and what it means

  predicate HexColons(s: string) {
    forall i :: 0 <= i < |s| ==> s[i] == ':' || Hex2I(s[i]) >= 0
  }

  /** No field but the last is empty, from the one given on. */
  predicate Single(f: seq<string>, from: nat)
    decreases |f| - from
  {
    from + 1 >= |f| || (f[from] != "" && Single(f, from + 1))
  }

  /** The first empty field but the last, from the one given on; the last when there is none. */
  function FirstGap(f: seq<string>, from: nat): (j: nat)
    ensures from <= j
    decreases |f| - from
  {
    if from + 1 >= |f| || f[from] == "" then from else FirstGap(f, from + 1)
  }

  /** The fields after the gap; an empty last one does not count. */
  function AfterGap(f: seq<string>, j: nat): seq<string>
    requires j + 1 < |f|
  {
    if f[|f| - 1] == "" then f[j + 1..|f| - 1] else f[j + 1..]
  }

  function ParseFields(f: seq<string>): Option<seq<nat>>
    requires f != []
  {
    if |f| > 8 then None
    else
      var j := FirstGap(f, 1);
      if j >= |f| - 1 then if |f| == 8 then Some(Groups(f)) else None
      else if !Single(f, j + 1) then None
      else
        var right := AfterGap(f, j);
        Some(Groups(f[..j]) + Zeros(8 - j - |right|) + Groups(right))
  }

  /** The text of an address, without the brackets it may stand in. */
  function Inner(s: string): Option<string> {
    if s == "" || s[0] != '[' then Some(s)
    else if s[|s| - 1] != ']' then None
    else Some(s[1..|s| - 1])
  }

  function Parse6(s: string): Option<seq<nat>> {
    match Inner(s)
    case None => None
    case Some(t) => if HexColons(t) then ParseFields(Fields(t, ':')) else None
  }

  // ----- The parser

  /** The variables of str2ip6: before the gap the numbers go to `start`, after it to `end`;
      `i` is the place of the current one, `idx1` how many stand before the gap. */
  datatype Scan = Bad | At(start: seq<nat>, end: seq<nat>, inEnd: bool, i: nat, idx1: nat, doubleColon: bool,
                           colons: nat)

  predicate Shaped(st: Scan) {
    st.At? ==> |st.start| == 8 && |st.end| == 8 && st.i <= st.colons <= 7
  }

  /** What one character does. */
  function Next(st: Scan, c: char): (r: Scan)
    requires Shaped(st)
    ensures Shaped(r)
  {
    if st.Bad? then Bad
    else if c == ':' then
      if st.colons == 7 || (st.doubleColon && st.inEnd) then Bad
      else if st.doubleColon then st.(colons := st.colons + 1, idx1 := st.i, i := 0, inEnd := true)
      else st.(colons := st.colons + 1, doubleColon := true, i := st.i + 1)
    else if Hex2I(c) < 0 then Bad
    else if st.inEnd then st.(end := st.end[st.i := Short(st.end[st.i] * 16 + HexVal(c))], doubleColon := false)
    else st.(start := st.start[st.i := Short(st.start[st.i] * 16 + HexVal(c))], doubleColon := false)
  }

  function Scanned(t: string): (r: Scan)
    ensures Shaped(r)
    decreases |t|
  {
    if t == "" then At(Zeros(8), Zeros(8), false, 0, 0, false, 0) else Next(Scanned(t[..|t| - 1]), t[|t| - 1])
  }

  /** How far the loop of str2ip6 has come. Before the gap the numbers go to `start`, after it
      to `end`; `i` is the place of the current one, `idx1` how many stand before the gap. */
  ghost predicate Scanning(f: seq<string>, start: seq<nat>, end: seq<nat>, inEnd: bool, i: nat, idx1: nat, dc: bool) {
    0 < |f| <= 8 && i < 8 && (dc <==> |f| > 1 && f[|f| - 1] == "")
    && (if !inEnd then
          Single(f, 1) && i == |f| - 1 && idx1 == 0 && start == Padded(f) && end == Zeros(8)
        else
          1 <= idx1 < |f| - 1 && i == |f| - 2 - idx1 && FirstGap(f, 1) == idx1 && f[idx1] == "" && Single(f, idx1 + 1)
          && start == Padded(f[..idx1]) && end == Padded(f[idx1 + 1..]))
  }

  /** The numbers of the groups, and zeros up to eight. */
  function Padded(f: seq<string>): (r: seq<nat>)
    requires |f| <= 8
    ensures |r| == 8
  {
    Groups(f) + Zeros(8 - |f|)
  }

  lemma PaddedColon(f: seq<string>)
    requires |f| < 8
    ensures Padded(f + [""]) == Padded(f)
  {
    assert Group("") == 0;
  }

  lemma GroupSnoc(s: string, c: char)
    ensures Group(s + [c]) == Short(Group(s) * 16 + HexVal(c))
  {
    assert (s + [c])[..|s|] == s;
  }

  lemma PaddedHex(f: seq<string>, c: char)
    requires 0 < |f| <= 8 && Hex2I(c) >= 0
    ensures var i := |f| - 1;
            Padded(f[..i] + [f[i] + [c]]) == Padded(f)[i := Short(Padded(f)[i] * 16 + HexVal(c))]
  {
    var i := |f| - 1;
    GroupSnoc(f[i], c);
  }

  /** Adding a field makes the last one count. */
  lemma {:induction false} SingleSnoc(f: seq<string>, from: nat, x: string)
    requires Single(f, from) && f != [] && (from < |f| ==> f[|f| - 1] != "")
    ensures Single(f + [x], from)
    decreases |f| - from
  {
    if from + 1 < |f| { SingleSnoc(f, from + 1, x); }
  }

  /** Only the fields before the last count. */
  lemma {:induction false} SingleLast(f: seq<string>, g: seq<string>, from: nat)
    requires |f| == |g| && Single(f, from) && forall k :: from <= k < |f| - 1 ==> f[k] == g[k]
    ensures Single(g, from)
    decreases |f| - from
  {
    if from + 1 < |f| { SingleLast(f, g, from + 1); }
  }

  lemma {:induction false} FirstGapIs(f: seq<string>, from: nat, j: nat)
    requires from <= j < |f| - 1 && f[j] == "" && forall k :: from <= k < j ==> f[k] != ""
    ensures FirstGap(f, from) == j
    decreases j - from
  {
    if from < j { FirstGapIs(f, from + 1, j); }
  }

  lemma {:induction false} FirstGapFull(f: seq<string>, from: nat, j: nat)
    requires FirstGap(f, from) == j < |f| - 1
    ensures f[j] == "" && forall k :: from <= k < j ==> f[k] != ""
    decreases |f| - from
  {
    if f[from] != "" { FirstGapFull(f, from + 1, j); }
  }

  lemma {:induction false} SingleFull(f: seq<string>, from: nat)
    requires Single(f, from)
    ensures (forall k :: from <= k < |f| - 1 ==> f[k] != "") && (from < |f| ==> FirstGap(f, from) >= |f| - 1)
    decreases |f| - from
  {
    if from + 1 < |f| { SingleFull(f, from + 1); }
  }

  lemma {:induction false} NotSingle(f: seq<string>, from: nat, k: nat)
    requires from <= k < |f| - 1 && f[k] == ""
    ensures !Single(f, from)
    decreases |f| - from
  {
    if from < k { NotSingle(f, from + 1, k); }
  }

  lemma ScanColon(f: seq<string>, start: seq<nat>, end: seq<nat>, inEnd: bool, i: nat, idx1: nat)
    requires Scanning(f, start, end, inEnd, i, idx1, false) && |f| < 8
    ensures Scanning(f + [""], start, end, inEnd, i + 1, idx1, true)
  {
    var f' := f + [""];
    if !inEnd {
      SingleSnoc(f, 1, "");
      PaddedColon(f);
    } else {
      SingleSnoc(f, idx1 + 1, "");
      FirstGapFull(f, 1, idx1);
      FirstGapIs(f', 1, idx1);
      PaddedColon(f[idx1 + 1..]);
      assert f'[..idx1] == f[..idx1] && f'[idx1 + 1..] == f[idx1 + 1..] + [""];
    }
  }

  lemma ScanGap(f: seq<string>, start: seq<nat>, end: seq<nat>, i: nat)
    requires Scanning(f, start, end, false, i, 0, true) && |f| < 8
    ensures Scanning(f + [""], start, end, true, 0, i, true)
  {
    var f' := f + [""];
    SingleFull(f, 1);
    FirstGapIs(f', 1, i);
    assert f'[..i] == f[..i] && f[..i] + [""] == f && f'[i + 1..] == [""];
    PaddedColon(f[..i]);
    PaddedColon([]);
    assert [] + [""] == [""] && Padded([]) == Zeros(8);
  }

  lemma ScanHex(f: seq<string>, start: seq<nat>, end: seq<nat>, inEnd: bool, i: nat, idx1: nat, dc: bool, c: char)
    requires Scanning(f, start, end, inEnd, i, idx1, dc) && Hex2I(c) >= 0
    ensures var f' := f[..|f| - 1] + [f[|f| - 1] + [c]];
            if inEnd then Scanning(f', start, end[i := Short(end[i] * 16 + HexVal(c))], inEnd, i, idx1, false)
            else Scanning(f', start[i := Short(start[i] * 16 + HexVal(c))], end, inEnd, i, idx1, false)
  {
    var f' := f[..|f| - 1] + [f[|f| - 1] + [c]];
    if !inEnd {
      SingleLast(f, f', 1);
      PaddedHex(f, c);
    } else {
      SingleLast(f, f', idx1 + 1);
      FirstGapFull(f, 1, idx1);
      FirstGapIs(f', 1, idx1);
      var r := f[idx1 + 1..];
      PaddedHex(r, c);
      assert f'[..idx1] == f[..idx1] && f'[idx1 + 1..] == r[..|r| - 1] + [r[|r| - 1] + [c]];
    }
  }

  /** Too many fields, or a second gap: no text that goes on like this is accepted. */
  predicate Doomed(f: seq<string>) {
    |f| > 8 || (FirstGap(f, 1) < |f| - 1 && !Single(f, FirstGap(f, 1) + 1))
  }

  lemma {:induction false} SecondGap(f: seq<string>, from: nat) returns (k: nat)
    requires !Single(f, from)
    ensures from <= k < |f| - 1 && f[k] == ""
    decreases |f| - from
  {
    if f[from] == "" { k := from; } else { k := SecondGap(f, from + 1); }
  }

  /** The fields after one character more. */
  function NextFields(f: seq<string>, c: char): seq<string>
    requires f != []
  {
    if c == ':' then f + [""] else f[..|f| - 1] + [f[|f| - 1] + [c]]
  }

  lemma DoomedStays(f: seq<string>, c: char)
    requires f != [] && Doomed(f)
    ensures Doomed(NextFields(f, c))
  {
    if |f| <= 8 {
      var g, j := NextFields(f, c), FirstGap(f, 1);
      var k := SecondGap(f, j + 1);
      FirstGapFull(f, 1, j);
      FirstGapIs(g, 1, j);
      NotSingle(g, j + 1, k);
    }
  }

  /** A second gap, or a ninth field. */
  lemma Refused(f: seq<string>, start: seq<nat>, end: seq<nat>, inEnd: bool, i: nat, idx1: nat, dc: bool)
    requires Scanning(f, start, end, inEnd, i, idx1, dc) && (|f| == 8 || (dc && inEnd))
    ensures Doomed(NextFields(f, ':'))
  {
    if |f| < 8 {
      var g := NextFields(f, ':');
      FirstGapFull(f, 1, idx1);
      FirstGapIs(g, 1, idx1);
      NotSingle(g, idx1 + 1, |f| - 1);
    }
  }

  lemma PaddedPrefix(f: seq<string>, n: nat)
    requires n <= |f| <= 8
    ensures Padded(f)[..n] == Groups(f[..n])
  {
  }

  /** What the loop leaves is what the fields mean. */
  lemma ScanEnds(f: seq<string>, start: seq<nat>, end: seq<nat>, inEnd: bool, i: nat, idx1: nat, dc: bool)
    requires Scanning(f, start, end, inEnd, i, idx1, dc)
    ensures var n := if dc then i else i + 1;
            if inEnd then
              n + idx1 < 8 && |start| == |end| == 8 && ParseFields(f) == Some(start[..8 - n] + end[..n])
            else ParseFields(f) == if |f| == 8 then Some(start) else None
  {
    if !inEnd {
      if |f| > 1 { SingleFull(f, 1); }
      if |f| == 8 { assert start == Groups(f); }
    } else {
      var n := if dc then i else i + 1;
      var right := AfterGap(f, idx1);
      assert |right| == n && right == f[idx1 + 1..][..n];
      PaddedPrefix(f[idx1 + 1..], n);
      assert start[..8 - n] == Groups(f[..idx1]) + Zeros(8 - idx1 - n);
      assert end[..n] == Groups(right);
    }
  }

  /** What the scan of a text tells: how its fields are placed, or that it is refused. */
  ghost predicate Placed(st: Scan, t: string, f: seq<string>)
    requires f != []
  {
    if st.Bad? then !HexColons(t) || Doomed(f)
    else HexColons(t) && st.colons == |f| - 1 && Scanning(f, st.start, st.end, st.inEnd, st.i, st.idx1, st.doubleColon)
  }

  lemma PlacedNext(st: Scan, t: string, f: seq<string>, c: char)
    requires Shaped(st) && f != [] && Placed(st, t, f)
    ensures Placed(Next(st, c), t + [c], NextFields(f, c))
  {
    HexColonsSnoc(t, c);
    if st.Bad? {
      if Doomed(f) { DoomedStays(f, c); }
    } else if c == ':' {
      if st.colons == 7 || (st.doubleColon && st.inEnd) {
        Refused(f, st.start, st.end, st.inEnd, st.i, st.idx1, st.doubleColon);
      } else if st.doubleColon {
        ScanGap(f, st.start, st.end, st.i);
      } else {
        ScanColon(f, st.start, st.end, st.inEnd, st.i, st.idx1);
      }
    } else if Hex2I(c) >= 0 {
      ScanHex(f, st.start, st.end, st.inEnd, st.i, st.idx1, st.doubleColon, c);
    }
  }

  lemma HexColonsSnoc(t: string, c: char)
    ensures HexColons(t + [c]) <==> HexColons(t) && (c == ':' || Hex2I(c) >= 0)
  {
    assert (t + [c])[|t|] == c && forall i :: 0 <= i < |t| ==> (t + [c])[i] == t[i];
  }

  lemma {:induction false} ScanPlaces(t: string)
    ensures Placed(Scanned(t), t, Fields(t, ':'))
    decreases |t|
  {
    if t == "" {
      ScanStart(Zeros(8), Zeros(8));
    } else {
      var init, c := t[..|t| - 1], t[|t| - 1];
      ScanPlaces(init);
      PlacedNext(Scanned(init), init, Fields(init, ':'), c);
      assert t == init + [c];
    }
  }

  lemma ScanStart(start: seq<nat>, end: seq<nat>)
    requires start == Zeros(8) && end == Zeros(8)
    ensures Scanning([""], start, end, false, 0, 0, false)
  {
    PaddedColon([]);
    assert [] + [""] == [""] && Padded([]) == Zeros(8);
  }

  /** The numbers after the gap go to the end of the address. */
  method MoveEnd(start: array<nat>, end: array<nat>, n: nat, ghost st: seq<nat>, ghost en: seq<nat>)
    requires start.Length == 8 && end.Length == 8 && start != end && n <= 8 && start[..] == st && end[..] == en
    modifies start
    ensures start[..] == st[..8 - n] + en[..n]
  {
    var k := 0;
    while k < n
      invariant 0 <= k <= n && end[..] == en
      invariant forall g :: 0 <= g < 8 ==> start[g] == if 8 - n <= g < 8 - n + k then en[g - (8 - n)] else st[g]
    {
      start[8 - n + k] := end[k];
      k := k + 1;
    }
  }

  lemma {:induction false} BadStays(t: string, k: nat)
    requires k <= |t| && Scanned(t[..k]).Bad?
    ensures Scanned(t).Bad?
    decreases |t|
  {
    if k < |t| {
      assert t[..|t| - 1][..k] == t[..k];
      BadStays(t[..|t| - 1], k);
    } else {
      assert t[..k] == t;
    }
  }

  /** The loop of str2ip6. */
  method ScanText(t: string, start: array<nat>, end: array<nat>)
    returns (ok: bool, inEnd: bool, i: nat, idx1: nat, doubleColon: bool, colons: nat)
    requires start.Length == 8 && end.Length == 8 && start != end && start[..] == Zeros(8) && end[..] == Zeros(8)
    modifies start, end
    ensures Scanned(t) == if ok then At(start[..], end[..], inEnd, i, idx1, doubleColon, colons) else Bad
  {
    var p := 0;
    ok, inEnd, i, idx1, doubleColon, colons := true, false, 0, 0, false, 0;
    while p < |t|
      invariant 0 <= p <= |t| && ok
      invariant Scanned(t[..p]) == At(start[..], end[..], inEnd, i, idx1, doubleColon, colons)
    {
      assert t[..p + 1][..p] == t[..p];
      if t[p] == ':' {
        colons := colons + 1;
        if colons > 7 || (doubleColon && inEnd) {
          BadStays(t, p + 1);
          ok := false;
          return;
        }
        if doubleColon {
          idx1, i, inEnd := i, 0, true;
        } else {
          doubleColon := true;
          i := i + 1;
        }
      } else if Hex2I(t[p]) >= 0 {
        if inEnd {
          end[i] := Short(end[i] * 16 + HexVal(t[p]));
        } else {
          start[i] := Short(start[i] * 16 + HexVal(t[p]));
        }
        doubleColon := false;
      } else {
        BadStays(t, p + 1);
        ok := false;
        return;
      }
      p := p + 1;
    }
    assert t[..p] == t;
  }

  /** What str2ip6 makes of its variables. */
  function Finished(st: Scan): Option<seq<nat>>
    requires Shaped(st)
  {
    if st.Bad? then None
    else
      var n := if st.doubleColon then st.i else st.i + 1;
      if st.inEnd then Some(st.start[..8 - n] + st.end[..n]) else if st.colons < 7 then None else Some(st.start)
  }

  lemma FinishedIsParsed(t: string)
    ensures Finished(Scanned(t)) == if HexColons(t) then ParseFields(Fields(t, ':')) else None
  {
    ScanPlaces(t);
    FinishedPlaced(Scanned(t), t, Fields(t, ':'));
  }

  lemma FinishedPlaced(st: Scan, t: string, f: seq<string>)
    requires Shaped(st) && f != [] && Placed(st, t, f)
    ensures Finished(st) == if HexColons(t) then ParseFields(f) else None
  {
    if st.At? { ScanEnds(f, st.start, st.end, st.inEnd, st.i, st.idx1, st.doubleColon); }
  }

  /** str2ip6 without the brackets. */
  method ParseText(t: string) returns (r: Option<seq<nat>>)
    ensures r == Finished(Scanned(t))
  {
    var start, end := new nat[8](_ => 0), new nat[8](_ => 0);
    var ok, inEnd, i, idx1, doubleColon, colons := ScanText(t, start, end);
    if !ok { return None; }
    r := FinishText(start, end, inEnd, i, idx1, doubleColon, colons);
  }

  /** Its end, behind the loop. */
  method FinishText(start: array<nat>, end: array<nat>, inEnd: bool, i: nat, ghost idx1: nat, doubleColon: bool,
                    colons: nat)
    returns (r: Option<seq<nat>>)
    requires start.Length == 8 && end.Length == 8 && start != end && i <= colons <= 7
    modifies start
    ensures r == Finished(At(old(start[..]), old(end[..]), inEnd, i, idx1, doubleColon, colons))
  {
    var n := if doubleColon then i else i + 1;
    if inEnd {
      MoveEnd(start, end, n, start[..], end[..]);
    } else if colons < 7 {
      return None;
    }
    r := Some(start[..]);
  }

  /** str2ip6: every place it writes to is one of eight; an accepted text has eight groups. */
  method Str2Ip6(s: string) returns (r: Option<seq<nat>>)
    ensures r == Parse6(s)
  {
    if s != "" && s[0] == '[' {
      if s[|s| - 1] != ']' { return None; }
      FinishedIsParsed(s[1..|s| - 1]);
      r := ParseText(s[1..|s| - 1]);
    } else {
      FinishedIsParsed(s);
      r := ParseText(s);
    }
  }

  // ----- Printing

  /** The characters of one printed group: no leading zeros. */
  function GroupText(g: nat): (s: string)
    requires g < 65536
    ensures 1 <= |s| <= 4 && forall i :: 0 <= i < |s| ==> Hex2I(s[i]) >= 0
  {
    var a, b, c, d := HexDig(g / 4096), HexDig(g / 256 % 16), HexDig(g / 16 % 16), HexDig(g % 16);
    if g / 4096 != 0 then [a, b, c, d] else if g / 256 % 16 != 0 then [b, c, d] else if g / 16 % 16 != 0 then [c, d]
        else [d]
  }

  /** An IPv6 address: eight groups. */
  predicate Ip6(g: seq<nat>) {
    |g| == 8 && forall i :: 0 <= i < 8 ==> g[i] < 65536
  }

  function GroupTexts(g: seq<nat>): (r: seq<string>)
    requires forall i :: 0 <= i < |g| ==> g[i] < 65536
    ensures |r| == |g| && forall i :: 0 <= i < |g| ==> r[i] == GroupText(g[i])
  {
    seq(|g|, i requires 0 <= i < |g| => GroupText(g[i]))
  }

  function Print6(g: seq<nat>): string
    requires Ip6(g)
  {
    Join(GroupTexts(g), ':')
  }

  /** One group of ip_addr2a, and the character after it. */
  method PutGroup(buff: array<char>, offset: nat, g: nat, last: char) returns (next: nat)
    requires g < 65536 && offset + |GroupText(g)| + 1 <= buff.Length
    modifies buff
    ensures next == offset + |GroupText(g)| + 1 && buff[..next] == old(buff[..offset]) + GroupText(g) + [last]
  {
    var a, b, c, d := g / 4096, g / 256 % 16, g / 16 % 16, g % 16;
    if a != 0 {
      buff[offset], buff[offset + 1], buff[offset + 2], buff[offset + 3] := HexDig(a), HexDig(b), HexDig(c), HexDig(d);
      buff[offset + 4] := last;
      next := offset + 5;
    } else if b != 0 {
      buff[offset], buff[offset + 1], buff[offset + 2], buff[offset + 3] := HexDig(b), HexDig(c), HexDig(d), last;
      next := offset + 4;
    } else if c != 0 {
      buff[offset], buff[offset + 1], buff[offset + 2] := HexDig(c), HexDig(d), last;
      next := offset + 3;
    } else {
      buff[offset], buff[offset + 1] := HexDig(d), last;
      next := offset + 2;
    }
  }

  /** ip_addr2a for AF_INET6: the text and its end fit into the buffer of forty. */
  method PrintIp6(g: seq<nat>, buff: array<char>) returns (len: nat)
    requires Ip6(g) && buff.Length == IP_ADDR_MAX_STR_SIZE
    modifies buff
    ensures len < buff.Length && buff[..len + 1] == Print6(g) + ['\0']
  {
    var offset := PutGroups(g, buff);
    var next := PutGroup(buff, offset, g[7], '\0');
    JoinTerminates(GroupTexts(g), ':');
    len := next - 1;
  }

  /** All groups but the last, each with a colon behind. */
  method PutGroups(g: seq<nat>, buff: array<char>) returns (offset: nat)
    requires Ip6(g) && buff.Length == IP_ADDR_MAX_STR_SIZE
    modifies buff
    ensures offset <= 35 && buff[..offset] == Terminated(GroupTexts(g)[..7], ':')
  {
    offset := 0;
    var r: nat := 0;
    while r < 7
      invariant r <= 7 && offset <= 5 * r && buff[..offset] == Terminated(GroupTexts(g)[..r], ':')
    {
      TerminatedNext(GroupTexts(g), r, ':');
      offset := PutGroup(buff, offset, g[r], ':');
      r := r + 1;
    }
  }

  // ----- What is parsed

  lemma GroupNext(s: string, c: char)
    requires Group(s) < 4096 && Hex2I(c) >= 0
    ensures Group(s + [c]) == Group(s) * 16 + HexVal(c)
  {
    GroupSnoc(s, c);
  }

  lemma GroupOfOne(a: char)
    requires Hex2I(a) >= 0
    ensures Group([a]) == HexVal(a)
  {
    GroupNext("", a);
    assert "" + [a] == [a];
  }

  lemma GroupOfTwo(a: char, b: char)
    requires Hex2I(a) >= 0 && Hex2I(b) >= 0
    ensures Group([a, b]) == HexVal(a) * 16 + HexVal(b)
  {
    GroupOfOne(a);
    GroupNext([a], b);
    assert [a] + [b] == [a, b];
  }

  lemma GroupOfThree(a: char, b: char, c: char)
    requires Hex2I(a) >= 0 && Hex2I(b) >= 0 && Hex2I(c) >= 0
    ensures Group([a, b, c]) == HexVal(a) * 256 + HexVal(b) * 16 + HexVal(c)
  {
    GroupOfTwo(a, b);
    GroupNext([a, b], c);
    assert [a, b] + [c] == [a, b, c];
  }

  lemma GroupOfFour(a: char, b: char, c: char, d: char)
    requires Hex2I(a) >= 0 && Hex2I(b) >= 0 && Hex2I(c) >= 0 && Hex2I(d) >= 0
    ensures Group([a, b, c, d]) == HexVal(a) * 4096 + HexVal(b) * 256 + HexVal(c) * 16 + HexVal(d)
  {
    GroupOfThree(a, b, c);
    GroupNext([a, b, c], d);
    assert [a, b, c] + [d] == [a, b, c, d];
  }

  lemma Nibbles(g: nat)
    requires g < 65536
    ensures g / 4096 < 16 && g / 4096 * 4096 + g / 256 % 16 * 256 + g / 16 % 16 * 16 + g % 16 == g
  {
    var h := g / 16;
    var k := h / 16;
    assert g == 16 * h + g % 16 && h == 16 * k + h % 16 && k == 16 * (k / 16) + k % 16;
    assert g / 256 == k && g / 4096 == k / 16;
  }

  lemma GroupReadsBack(g: nat)
    requires g < 65536
    ensures Group(GroupText(g)) == g
  {
    Nibbles(g);
    var a, b, c, d := HexDig(g / 4096), HexDig(g / 256 % 16), HexDig(g / 16 % 16), HexDig(g % 16);
    GroupOfFour(a, b, c, d);
    GroupOfThree(b, c, d);
    GroupOfTwo(c, d);
    GroupOfOne(d);
  }

  predicate HexText(s: string) {
    s != "" && forall i :: 0 <= i < |s| ==> Hex2I(s[i]) >= 0
  }

  lemma {:induction false} NoGap(f: seq<string>, from: nat)
    requires forall k :: from <= k < |f| - 1 ==> f[k] != ""
    ensures Single(f, from) && (from < |f| ==> FirstGap(f, from) >= |f| - 1)
    decreases |f| - from
  {
    if from + 1 < |f| { NoGap(f, from + 1); }
  }

  lemma HexColonsOfJoin(f: seq<string>)
    requires forall i :: 0 <= i < |f| ==> f[i] == "" || HexText(f[i])
    ensures HexColons(Join(f, ':'))
  {
    JoinChars(f, ':', c => c == ':' || Hex2I(c) >= 0);
  }

  lemma ParseJoined(f: seq<string>)
    requires f != [] && forall i :: 0 <= i < |f| ==> f[i] == "" || HexText(f[i])
    ensures Parse6(Join(f, ':')) == ParseFields(f)
  {
    HexColonsOfJoin(f);
    NoColons(f);
    FieldsOfJoin(f, ':');
    Unbracketed(Join(f, ':'));
  }

  lemma NoColons(f: seq<string>)
    requires forall i :: 0 <= i < |f| ==> f[i] == "" || HexText(f[i])
    ensures forall i :: 0 <= i < |f| ==> Free(f[i], ':')
  {
  }

  lemma Unbracketed(s: string)
    requires HexColons(s)
    ensures Parse6(s) == ParseFields(Fields(s, ':'))
  {
    assert s != "" ==> s[0] != '[';
  }

  /** A printed IPv6 address is parsed back. */
  lemma Ip6ReadsBack(g: seq<nat>)
    requires Ip6(g)
    ensures Parse6(Print6(g)) == Some(g)
  {
    var f := GroupTexts(g);
    NoGap(f, 1);
    ParseJoined(f);
    forall i | 0 <= i < 8 ensures Group(f[i]) == g[i] { GroupReadsBack(g[i]); }
    assert Groups(f) == g;
  }

  /** Eight fields are accepted when none but the first or the last is empty: so is a text
      that begins or ends with a single colon. */
  lemma EightFields(f: seq<string>)
    requires |f| == 8 && (f[0] == "" || HexText(f[0])) && (f[7] == "" || HexText(f[7])) && forall k :: 1 <= k < 7 ==>
             HexText(f[k])
    ensures Parse6(Join(f, ':')) == Some(Groups(f))
  {
    NoGap(f, 1);
    ParseJoined(f);
  }

  /** The groups before and after `::`. */
  function Compressed(l: seq<string>, r: seq<string>): string {
    Join(l, ':') + "::" + Join(r, ':')
  }

  function OrEmpty(f: seq<string>): (g: seq<string>)
    ensures g != []
  {
    if f == [] then [""] else f
  }

  lemma {:induction false} JoinConcat(a: seq<string>, b: seq<string>)
    requires a != [] && b != []
    ensures Join(a + b, ':') == Join(a, ':') + ":" + Join(b, ':')
    decreases |b|
  {
    var init, last := b[..|b| - 1], b[|b| - 1];
    assert (a + b)[..|a + b| - 1] == a + init && (a + b)[|a + b| - 1] == last;
    if |b| == 1 {
      assert a + init == a;
    } else {
      JoinConcat(a, init);
      Assoc4(Join(a, ':') + ":", Join(init, ':'), ":", last);
    }
  }

  lemma CompressedIsJoin(l: seq<string>, r: seq<string>)
    ensures Compressed(l, r) == Join(OrEmpty(l) + [""] + OrEmpty(r), ':')
  {
    var a, b := OrEmpty(l), OrEmpty(r);
    assert Join([""], ':') == "";
    JoinConcat(a, [""]);
    JoinConcat(a + [""], b);
    assert Join(l, ':') == Join(a, ':') && Join(r, ':') == Join(b, ':');
    assert Join(a, ':') + ":" + "" + ":" == Join(a, ':') + "::";
  }

  lemma ParseGap(a: seq<string>, b: seq<string>, r: seq<string>)
    requires a != [] && |a| + |b| <= 7 && b == OrEmpty(r)
    requires (forall k :: 1 <= k < |a| ==> a[k] != "") && forall k :: 0 <= k < |r| ==> r[k] != ""
    ensures ParseFields(a + [""] + b) == Some(Groups(a) + Zeros(8 - |a| - |r|) + Groups(r))
  {
    var f := a + [""] + b;
    FirstGapIs(f, 1, |a|);
    NoGap(f, |a| + 1);
    assert f[..|a|] == a;
    assert AfterGap(f, |a|) == r;
  }

  lemma LeadingZero(l: seq<string>, n: nat)
    requires |OrEmpty(l)| + n <= 8
    ensures Groups(OrEmpty(l)) + Zeros(8 - |OrEmpty(l)| - n) == Groups(l) + Zeros(8 - |l| - n)
  {
    if l == [] {
      assert Groups([""]) == [0] && Groups(l) == [];
      assert [0] + Zeros(7 - n) == Zeros(8 - n);
    }
  }

  /** `::` stands for as many zero groups as are missing to eight. It is accepted exactly
      when the text has at most seven colons: a text with seven groups on one side of it,
      which RFC 4291 allows, is refused. */
  lemma GapExpands(l: seq<string>, r: seq<string>)
    requires (forall i :: 0 <= i < |l| ==> HexText(l[i])) && (forall i :: 0 <= i < |r| ==> HexText(r[i]))
    ensures Parse6(Compressed(l, r))
         == if |OrEmpty(l)| + |OrEmpty(r)| <= 7 then Some(Groups(l) + Zeros(8 - |l| - |r|) + Groups(r)) else None
  {
    CompressedIsJoin(l, r);
    AroundGap(l, r);
    ParseJoined(OrEmpty(l) + [""] + OrEmpty(r));
    GapFields(l, r);
  }

  lemma GapFields(l: seq<string>, r: seq<string>)
    requires (forall k :: 1 <= k < |OrEmpty(l)| ==> OrEmpty(l)[k] != "") && forall k :: 0 <= k < |r| ==> r[k] != ""
    ensures ParseFields(OrEmpty(l) + [""] + OrEmpty(r))
         == if |OrEmpty(l)| + |OrEmpty(r)| <= 7 then Some(Groups(l) + Zeros(8 - |l| - |r|) + Groups(r)) else None
  {
    if |OrEmpty(l)| + |OrEmpty(r)| <= 7 {
      ParseGap(OrEmpty(l), OrEmpty(r), r);
      LeadingZero(l, |r|);
    }
  }

  lemma AroundGap(l: seq<string>, r: seq<string>)
    requires (forall i :: 0 <= i < |l| ==> HexText(l[i])) && (forall i :: 0 <= i < |r| ==> HexText(r[i]))
    ensures var a, b := OrEmpty(l), OrEmpty(r);
            var f := a + [""] + b;
            (forall i :: 0 <= i < |f| ==> f[i] == "" || HexText(f[i])) && forall k :: 1 <= k < |a| ==> a[k] != ""
  {
  }

  /** The sixteen digits, in either case, and nothing else. */
  lemma DigitsOfHex(d: nat, c: char)
    requires d < 16
    ensures Hex2I("0123456789abcdef"[d]) == d && Hex2I("0123456789ABCDEF"[d]) == d && HexDig(d) == "0123456789ABCDEF"[d]
    ensures Hex2I(c) < 0 || c == "0123456789abcdef"[Hex2I(c)] || c == "0123456789ABCDEF"[Hex2I(c)]
  {
  }

  /** A group reads with its highest digit first; the groups are printed in their order. */
  lemma GroupIs(a: nat, b: nat, c: nat, d: nat)
    requires a < 16 && b < 16 && c < 16 && d < 16
    ensures Group([HexDig(a), HexDig(b), HexDig(c), HexDig(d)]) == 4096 * a + 256 * b + 16 * c + d
  {
    GroupOfFour(HexDig(a), HexDig(b), HexDig(c), HexDig(d));
  }

  lemma Print6Is(g: seq<nat>)
    requires Ip6(g)
    ensures Print6(g)
         == GroupText(g[0]) + ":" + GroupText(g[1]) + ":" + GroupText(g[2]) + ":" + GroupText(g[3]) + ":"
            + GroupText(g[4]) + ":" + GroupText(g[5]) + ":" + GroupText(g[6]) + ":" + GroupText(g[7])
  {
    var t := GroupTexts(g);
    assert t[..8] == t && t[..1] == [t[0]];
    JoinFour(t, 1);
    JoinSnoc(t, 5);
    JoinSnoc(t, 6);
    JoinSnoc(t, 7);
  }

  lemma JoinFour(t: seq<string>, k: nat)
    requires 0 < k <= |t| - 4
    ensures Join(t[..k + 4], ':')
         == Join(t[..k], ':') + ":" + t[k] + ":" + t[k + 1] + ":" + t[k + 2] + ":" + t[k + 3]
  {
    JoinSnoc(t, k);
    JoinSnoc(t, k + 1);
    JoinSnoc(t, k + 2);
    JoinSnoc(t, k + 3);
  }

  lemma JoinSnoc(t: seq<string>, k: nat)
    requires 0 < k < |t|
    ensures Join(t[..k + 1], ':') == Join(t[..k], ':') + ":" + t[k]
  {
    assert t[..k + 1][..k] == t[..k];
  }
}
