/** What stands in a reply: its first line, what becomes of each header of the request, and
    its end. */
module ReplyLaws {
  import opened Options
  import opened SeqFacts
  import opened Decimal
  import opened ReplyBuild

  // ----- The first line

  lemma ThreeDigits(n: nat)
    ensures n / 100 % 10 * 100 + n / 10 % 10 * 10 + n % 10 == n % 1000
  {
    var h := n / 10;
    var k := h / 10;
    assert n == 10 * h + n % 10 && h == 10 * k + h % 10 && k == 10 * (k / 10) + k % 10;
    Hundreds(n, k, 10 * (h % 10) + n % 10);
    Thousands(n, k / 10, 100 * (k % 10) + 10 * (h % 10) + n % 10);
  }

  lemma Hundreds(n: nat, q: nat, r: nat)
    requires n == 100 * q + r && r < 100
    ensures n / 100 == q
  {
  }

  lemma Thousands(n: nat, q: nat, r: nat)
    requires n == 1000 * q + r && r < 1000
    ensures n % 1000 == r
  {
  }

  lemma CodeReadsBack(code: nat)
    ensures var t := CodeText(code);
            |t| == 3 && (forall c :: c in t ==> IsDigit(c)) && Value(t) == code % 1000
  {
    var t := CodeText(code);
    assert t[..2][..1] == t[..1] && t[..1][..0] == "";
    assert Value(t[..1]) == code / 100 % 10 && Value(t[..2]) == 10 * Value(t[..1]) + code / 10 % 10;
    ThreeDigits(code);
  }

  /** A reply begins with the version, the code in three digits and the reason. */
  lemma StatusLine(m: Reply) returns (code: string)
    requires Wellformed(m) && Writable(m)
    ensures m.version + " " + code + " " + m.reason + "\r\n" <= ReplyText(m)
    ensures |code| == 3 && Spells(code, m.code % 1000)
  {
    code := CodeText(m.code);
    CodeReadsBack(m.code);
    ReplySplit(m);
  }

  /** Decimal digits that read back as the number. */
  predicate Spells(s: string, n: nat) {
    (forall c :: c in s ==> IsDigit(c)) && Value(s) == n
  }

  // ----- The headers

  lemma {:induction false} ConcatAt(ts: seq<string>, i: nat)
    requires i < |ts|
    ensures |Concat(ts[..i])| + |ts[i]| <= |Concat(ts)|
    ensures Concat(ts)[|Concat(ts[..i])|..|Concat(ts[..i])| + |ts[i]|] == ts[i]
    decreases |ts|
  {
    var n := |ts| - 1;
    if i < n {
      ConcatAt(ts[..n], i);
      assert ts[..n][..i] == ts[..i];
    }
  }

  /** Where what is written of a header of the request stands in the reply: behind what is
      written of those in front of it. */
  function PlaceOf(m: Reply, i: nat): nat
    requires i < |m.headers|
  {
    |FirstLine(m)| + |HeadersText(m.headers[..i], m)|
  }

  predicate StandsAt(r: string, at: nat, t: string) {
    at + |t| <= |r| && r[at..at + |t|] == t
  }

  lemma StandsInside(r: string, a: string, b: string, c: string, at: nat, t: string)
    requires r == a + (b + c) && StandsAt(b, at, t)
    ensures StandsAt(r, |a| + at, t)
  {
    assert r[|a| + at..|a| + at + |t|] == b[at..at + |t|];
  }

  lemma ReplySplit(m: Reply)
    requires Wellformed(m) && Writable(m)
    ensures ReplyText(m) == FirstLine(m) + (HeadersText(m.headers, m) + (LumpsText(m.lumps) + Rest(m)))
  {
    Assoc4(FirstLine(m), HeadersText(m.headers, m), LumpsText(m.lumps), Rest(m));
  }

  lemma StandsInHeaders(hs: seq<Header>, m: Reply, i: nat)
    requires i < |hs|
    ensures StandsAt(HeadersText(hs, m), |HeadersText(hs[..i], m)|, HeaderText(hs[i], m))
  {
    assert Texts(hs[..i], m) == Texts(hs, m)[..i];
    ConcatAt(Texts(hs, m), i);
  }

  /** What is written of each header stands there. */
  lemma HeaderStands(m: Reply, i: nat)
    requires Wellformed(m) && Writable(m) && i < |m.headers|
    ensures StandsAt(ReplyText(m), PlaceOf(m, i), HeaderText(m.headers[i], m))
  {
    StandsInHeaders(m.headers, m, i);
    ReplySplit(m);
    StandsInside(ReplyText(m), FirstLine(m), HeadersText(m.headers, m), LumpsText(m.lumps) + Rest(m),
                 |HeadersText(m.headers[..i], m)|, HeaderText(m.headers[i], m));
  }

  /** From, Call-ID and CSeq stand in the reply as they stand in the request, and so does
      Record-Route in a reply from 180 to 299. */
  lemma CopiedHeaders(m: Reply, i: nat)
    requires Wellformed(m) && Writable(m) && i < |m.headers|
    ensures var h, at := m.headers[i], PlaceOf(m, i);
            h.kind == FromHdr || h.kind == CallIdHdr || h.kind == CSeqHdr
            || (h.kind == RecordRouteHdr && 180 <= m.code < 300) ==>
              StandsAt(ReplyText(m), at, m.message[h.at..h.at + h.len])
  {
    HeaderStands(m, i);
    assert Parsed(m.headers[i], m);
  }

  /** Nothing else of the request but Via and To does: the next header stands at once behind. */
  lemma OmittedHeaders(m: Reply, i: nat)
    requires i + 1 < |m.headers|
    ensures var h := m.headers[i];
            h.kind == OtherHdr || (h.kind == RecordRouteHdr && !(180 <= m.code < 300)) ==>
              PlaceOf(m, i + 1) == PlaceOf(m, i)
  {
    var ts := Texts(m.headers[..i + 1], m);
    assert ts[..i] == Texts(m.headers[..i], m) && ts[i] == HeaderText(m.headers[i], m);
  }

  /** The first Via has what was received and the new rport parameter in place of the old one,
      every other one stands as it is. */
  lemma ViaIs(h: Header, m: Reply)
    requires Parsed(h, m) && h.kind == ViaHdr
    ensures var received := if m.received.Some? then m.received.value else "";
            HeaderText(h, m)
            == if !h.via1 then m.message[h.at..h.upTo] + "\r\n"
               else if !m.forceRport && m.rport.None? then m.message[h.at..h.upTo] + received + "\r\n"
               else match m.rport
                    case None => m.message[h.at..h.upTo] + m.rportText + received + "\r\n"
                    case Some(Rport(start, size)) =>
                      m.message[h.at..start - 1] + m.rportText + m.message[start + size..h.upTo] + received + "\r\n"
  {
  }

  lemma PartIs(m: Reply, from: nat, to: nat)
    requires from <= to <= |m.message|
    ensures Part(m, from, to) == m.message[from..to]
  {
  }

  /** A To header stands as it is if no tag is given; else with the new tag in place of the old
      one, or behind its body if there is none. */
  lemma ToIs(h: Header, m: Reply)
    requires Parsed(h, m) && Copyable(h, m) && h.kind == ToHdr
    ensures var end := h.at + h.len;
            HeaderText(h, m)
            == if m.newTag == "" then m.message[h.at..end]
               else match m.toTag.at
                    case None => m.message[h.at..h.upTo] + ";tag=" + m.newTag + m.message[h.upTo..end]
                    case Some(t) => m.message[h.at..t] + m.newTag + m.message[t + m.toTag.len..end]
  {
    var end := h.at + h.len;
    PartIs(m, h.at, end);
    if m.newTag != "" {
      match m.toTag.at
      case None =>
        PartIs(m, h.at, h.upTo);
        PartIs(m, h.upTo, end);
      case Some(t) =>
        PartIs(m, h.at, t);
        PartIs(m, t + m.toTag.len, end);
    }
  }

  // ----- The end

  lemma {:induction false} BodyOf(l: seq<ReplyLump>, i: nat)
    requires LumpsOk(l) && i < |l| && l[i].body
    ensures BodyText(l) == Some(l[i].text)
    decreases |l|
  {
    var n := |l| - 1;
    if i < n {
      assert forall j :: 0 <= j < n ==> l[..n][j] == l[j];
      BodyOf(l[..n], i);
    }
  }

  lemma LumpsSnoc(l: seq<ReplyLump>, x: ReplyLump)
    ensures LumpsText(l + [x]) == LumpsText(l) + if x.hdr then x.text else ""
  {
    assert (l + [x])[..|l|] == l;
  }

  /** The header lumps are written one behind the other, in the order in which they were queued. */
  lemma {:induction false} LumpsInOrder(a: seq<ReplyLump>, b: seq<ReplyLump>)
    ensures LumpsText(a + b) == LumpsText(a) + LumpsText(b)
    decreases |b|
  {
    if b == [] {
      assert a + b == a;
    } else {
      var init, x := b[..|b| - 1], b[|b| - 1];
      LumpsInOrder(a, init);
      assert a + b == (a + init) + [x] && b == init + [x];
      LumpsSnoc(a + init, x);
      LumpsSnoc(init, x);
      Assoc(LumpsText(a), LumpsText(init), if x.hdr then x.text else "");
    }
  }

  /** Behind first line, headers and lumps come the server line, the Content-Length, which spells
      a number that reads back as the length of the body, the warning and, behind an empty line,
      the body that was queued; without one the number is 0. */
  lemma ReplyEnds(m: Reply, i: nat) returns (body: string)
    requires Wellformed(m) && Writable(m)
    ensures (forall k :: 0 <= k < |m.lumps| ==> !m.lumps[k].body) ==> body == ""
    ensures i < |m.lumps| && m.lumps[i].body ==> body == m.lumps[i].text
    ensures var front := FirstLine(m) + HeadersText(m.headers, m) + LumpsText(m.lumps);
            var server := if m.server.Some? then m.server.value + "\r\n" else "";
            var warning := if m.warning.Some? then m.warning.value + "\r\n" else "";
            ReplyText(m) == front + server + "Content-Length: " + Digits(|body|) + "\r\n" + warning + "\r\n" + body
    ensures Spells(Digits(|body|), |body|)
  {
    body := if BodyText(m.lumps).Some? then BodyText(m.lumps).value else "";
    if forall k :: 0 <= k < |m.lumps| ==> !m.lumps[k].body { NoBody(m.lumps); }
    if i < |m.lumps| && m.lumps[i].body { BodyOf(m.lumps, i); }
    DigitsReadBack(|body|);
    EndRegroups(FirstLine(m) + HeadersText(m.headers, m) + LumpsText(m.lumps), Line(m.server), "Content-Length: ",
                Digits(|body|), "\r\n", Line(m.warning), body);
  }

  lemma EndRegroups(h: string, s: string, c: string, d: string, e: string, w: string, b: string)
    ensures h + (s + (c + d + e) + w + e + b) == (h + s) + c + d + e + w + e + b
  {
    Assoc4(h, s, c + d + e, w + e + b);
    Assoc4(h + s, c, d, e);
  }
}
