/** Printing and parsing addresses. Numbers are in host order: the two byte swaps of
    a printed or parsed group undo each other. */
module IpText {
  import opened Options
  import opened Decimal

  const IP_ADDR_MAX_STR_SIZE := 40

  // ----- Fields between separators

  /** The parts of a text between separators; there is always one at least. */
  function Fields(s: string, sep: char): (r: seq<string>)
    ensures |r| > 0
    decreases |s|
  {
    if s == "" then [""]
    else
      var init, c := Fields(s[..|s| - 1], sep), s[|s| - 1];
      if c == sep then init + [""] else init[..|init| - 1] + [init[|init| - 1] + [c]]
  }

  predicate Free(s: string, sep: char) {
    forall i :: 0 <= i < |s| ==> s[i] != sep
  }

  function Join(parts: seq<string>, sep: char): string
    decreases |parts|
  {
    if parts == [] then ""
    else if |parts| == 1 then parts[0]
    else Join(parts[..|parts| - 1], sep) + [sep] + parts[|parts| - 1]
  }

  /** One character more. */
  lemma FieldsNext(s: string, k: nat, sep: char)
    requires k < |s|
    ensures var f := Fields(s[..k], sep);
            Fields(s[..k + 1], sep) == if s[k] == sep then f + [""] else f[..|f| - 1] + [f[|f| - 1] + [s[k]]]
  {
    assert s[..k + 1][..k] == s[..k];
  }

  lemma {:induction false} FieldsSep(a: string, b: string, sep: char)
    requires Free(b, sep)
    ensures Fields(a + [sep] + b, sep) == Fields(a, sep) + [b]
    decreases |b|
  {
    var s := a + [sep] + b;
    if b == "" {
      assert s[..|s| - 1] == a;
    } else {
      var init := b[..|b| - 1];
      FieldsSep(a, init, sep);
      assert s[..|s| - 1] == a + [sep] + init;
      assert init + [b[|b| - 1]] == b;
    }
  }

  lemma {:induction false} FieldsFree(b: string, sep: char)
    requires Free(b, sep)
    ensures Fields(b, sep) == [b]
    decreases |b|
  {
    if b != "" {
      FieldsFree(b[..|b| - 1], sep);
      assert b[..|b| - 1] + [b[|b| - 1]] == b;
    }
  }

  /** Each part with a separator after it. */
  function Terminated(parts: seq<string>, sep: char): string
    decreases |parts|
  {
    if parts == [] then "" else Terminated(parts[..|parts| - 1], sep) + parts[|parts| - 1] + [sep]
  }

  lemma TerminatedNext(parts: seq<string>, k: nat, sep: char)
    requires k < |parts|
    ensures Terminated(parts[..k + 1], sep) == Terminated(parts[..k], sep) + parts[k] + [sep]
  {
    assert parts[..k + 1][..k] == parts[..k];
  }

  lemma {:induction false} JoinTerminates(parts: seq<string>, sep: char)
    requires parts != []
    ensures Join(parts, sep) == Terminated(parts[..|parts| - 1], sep) + parts[|parts| - 1]
    decreases |parts|
  {
    if |parts| > 1 { JoinTerminates(parts[..|parts| - 1], sep); }
  }

  lemma {:induction false} FieldsGrow(s: string, k: nat, sep: char)
    requires k <= |s|
    ensures |Fields(s[..k], sep)| <= |Fields(s, sep)|
    decreases |s|
  {
    if k < |s| {
      FieldsGrow(s[..|s| - 1], k, sep);
      assert s[..|s| - 1][..k] == s[..k];
    } else {
      assert s[..k] == s;
    }
  }

  /** Splitting undoes joining. */
  lemma {:induction false} FieldsOfJoin(parts: seq<string>, sep: char)
    requires parts != [] && forall i :: 0 <= i < |parts| ==> Free(parts[i], sep)
    ensures Fields(Join(parts, sep), sep) == parts
    decreases |parts|
  {
    var init, last := parts[..|parts| - 1], parts[|parts| - 1];
    if |parts| == 1 {
      FieldsFree(last, sep);
    } else {
      FieldsOfJoin(init, sep);
      FieldsSep(Join(init, sep), last, sep);
    }
  }

  // ----- IPv4

  predicate AllDigits(s: string) {
    forall i :: 0 <= i < |s| ==> IsDigit(s[i])
  }

  /** Cut to an unsigned char. */
  function Byte(n: nat): (b: nat)
    ensures b < 256 && (n < 256 ==> b == n)
  {
    n % 256
  }

  /** The number in a byte: it wraps around. */
  function Octet(s: string): (n: nat)
    ensures n < 256
    decreases |s|
  {
    if s == "" then 0 else Byte(Octet(s[..|s| - 1]) * 10 + DigitValue(s[|s| - 1]))
  }

  /** The characters of one printed byte. */
  function OctetText(x: nat): (s: string)
    requires x < 256
    ensures AllDigits(s) && 1 <= |s| <= 3
  {
    var a, b, c := Digit(x / 100), Digit(x % 100 / 10), Digit(x % 10);
    if x / 100 != 0 then [a, b, c] else if x % 100 / 10 != 0 then [b, c] else [c]
  }

  lemma OctetNext(s: string, c: char)
    ensures Octet(s + [c]) == Byte(Octet(s) * 10 + DigitValue(c))
  {
    assert (s + [c])[..|s|] == s;
  }

  lemma OctetOne(a: char)
    requires IsDigit(a)
    ensures Octet([a]) == DigitValue(a)
  {
    assert [a][..0] == "";
  }

  lemma OctetTwo(a: char, b: char)
    requires IsDigit(a) && IsDigit(b)
    ensures Octet([a, b]) == DigitValue(a) * 10 + DigitValue(b)
  {
    OctetOne(a);
    assert [a, b][..1] == [a];
  }

  lemma OctetReadsBack(x: nat)
    requires x < 256
    ensures Octet(OctetText(x)) == x
  {
    var a, b, c := Digit(x / 100), Digit(x % 100 / 10), Digit(x % 10);
    OctetOne(c);
    OctetTwo(b, c);
    OctetTwo(a, b);
    assert [a, b, c][..2] == [a, b];
    Decimals(x);
  }

  lemma Decimals(x: nat)
    ensures x / 100 * 100 + x % 100 / 10 * 10 + x % 10 == x
    ensures x < 100 ==> x % 100 / 10 * 10 + x % 10 == x
    ensures x < 10 ==> x % 10 == x
  {
    var t := x / 10;
    assert x == 10 * t + x % 10 && t == 10 * (t / 10) + t % 10;
    assert x / 100 == t / 10 && x % 100 == 10 * (t % 10) + x % 10;
    assert x % 100 / 10 == t % 10;
  }

  predicate DotDigits(s: string) {
    forall i :: 0 <= i < |s| ==> s[i] == '.' || IsDigit(s[i])
  }

  function Octets(f: seq<string>): seq<nat> {
    seq(|f|, i requires 0 <= i < |f| => Octet(f[i]))
  }

  /** Four fields of digits, even none at all; each is cut to a byte. */
  function Parse4(s: string): Option<seq<nat>> {
    if DotDigits(s) && |Fields(s, '.')| == 4 then Some(Octets(Fields(s, '.'))) else None
  }

  /** The numbers of the fields, and zeros up to four. */
  function Padded4(f: seq<string>): (r: seq<nat>)
    requires |f| <= 4
    ensures |r| == 4
  {
    Octets(f) + seq(4 - |f|, _ => 0)
  }

  lemma PaddedDot(f: seq<string>)
    requires |f| < 4
    ensures Padded4(f + [""]) == Padded4(f)
  {
    assert Octet("") == 0;
  }

  lemma PaddedDigit(f: seq<string>, c: char)
    requires 0 < |f| <= 4
    ensures var i := |f| - 1;
            Padded4(f[..i] + [f[i] + [c]]) == Padded4(f)[i := Byte(Padded4(f)[i] * 10 + DigitValue(c))]
  {
    OctetNext(f[|f| - 1], c);
  }

  /** How far str2ip has come: the fields so far, the current one included. */
  ghost predicate Reading4(s: string, p: nat, ip: seq<nat>, i: nat) {
    p <= |s| && DotDigits(s[..p]) && i < 4 && i == |Fields(s[..p], '.')| - 1 && ip == Padded4(Fields(s[..p], '.'))
  }

  lemma DotDigitsNext(s: string, p: nat)
    requires p < |s|
    ensures DotDigits(s[..p + 1]) <==> DotDigits(s[..p]) && (s[p] == '.' || IsDigit(s[p]))
  {
    assert s[..p + 1] == s[..p] + [s[p]];
  }

  lemma TooManyDots(s: string, p: nat)
    requires p < |s| && s[p] == '.' && |Fields(s[..p], '.')| == 4
    ensures Parse4(s) == None
  {
    FieldsNext(s, p, '.');
    FieldsGrow(s, p + 1, '.');
  }

  lemma ReadDot(s: string, p: nat, ip: seq<nat>, i: nat)
    requires Reading4(s, p, ip, i) && p < |s| && s[p] == '.'
    ensures if i == 3 then Parse4(s) == None else Reading4(s, p + 1, ip, i + 1)
  {
    if i == 3 {
      TooManyDots(s, p);
    } else {
      FieldsNext(s, p, '.');
      DotDigitsNext(s, p);
      PaddedDot(Fields(s[..p], '.'));
    }
  }

  lemma ReadDigit(s: string, p: nat, ip: seq<nat>, i: nat)
    requires Reading4(s, p, ip, i) && p < |s| && IsDigit(s[p])
    ensures Reading4(s, p + 1, ip[i := Byte(ip[i] * 10 + DigitValue(s[p]))], i)
  {
    FieldsNext(s, p, '.');
    DotDigitsNext(s, p);
    PaddedDigit(Fields(s[..p], '.'), s[p]);
  }

  /** str2ip */
  method Str2Ip(s: string) returns (r: Option<seq<nat>>)
    ensures r == Parse4(s)
  {
    var ip := new nat[4](_ => 0);
    var i: nat, p: nat := 0, 0;
    assert s[..0] == "" && ip[..] == Padded4([""]);
    while p < |s|
      invariant Reading4(s, p, ip[..], i)
      decreases |s| - p
    {
      if s[p] == '.' {
        ReadDot(s, p, ip[..], i);
        i := i + 1;
        if i > 3 { return None; }
      } else if IsDigit(s[p]) {
        ReadDigit(s, p, ip[..], i);
        ip[i] := Byte(ip[i] * 10 + DigitValue(s[p]));
      } else {
        return None;
      }
      p := p + 1;
    }
    assert s[..p] == s;
    if i < 3 { return None; }
    assert ip[..] == Octets(Fields(s, '.'));
    r := Some(ip[..]);
  }

  /** An IPv4 address: four numbers below 256. */
  predicate Ip4(o: seq<nat>) {
    |o| == 4 && forall i :: 0 <= i < 4 ==> o[i] < 256
  }

  function OctetTexts(o: seq<nat>): (r: seq<string>)
    requires forall i :: 0 <= i < |o| ==> o[i] < 256
    ensures |r| == |o| && forall i :: 0 <= i < |o| ==> r[i] == OctetText(o[i])
  {
    seq(|o|, i requires 0 <= i < |o| => OctetText(o[i]))
  }

  function Print4(o: seq<nat>): string
    requires Ip4(o)
  {
    Join(OctetTexts(o), '.')
  }

  /** One byte of ip_addr2a, and the character after it. */
  method PutOctet(buff: array<char>, offset: nat, x: nat, end: char) returns (next: nat)
    requires x < 256 && offset + |OctetText(x)| + 1 <= buff.Length
    modifies buff
    ensures next == offset + |OctetText(x)| + 1 && buff[..next] == old(buff[..offset]) + OctetText(x) + [end]
  {
    var a, c, b := x / 100, x % 10, x % 100 / 10;
    if a != 0 {
      buff[offset], buff[offset + 1], buff[offset + 2], buff[offset + 3] := Digit(a), Digit(b), Digit(c), end;
      next := offset + 4;
    } else if b != 0 {
      buff[offset], buff[offset + 1], buff[offset + 2] := Digit(b), Digit(c), end;
      next := offset + 3;
    } else {
      buff[offset], buff[offset + 1] := Digit(c), end;
      next := offset + 2;
    }
  }

  /** ip_addr2a for AF_INET */
  method PrintIp4(o: seq<nat>, buff: array<char>) returns (len: nat)
    requires Ip4(o) && buff.Length == IP_ADDR_MAX_STR_SIZE
    modifies buff
    ensures len < buff.Length && buff[..len + 1] == Print4(o) + ['\0']
  {
    var offset: nat, r: nat := 0, 0;
    ghost var texts := OctetTexts(o);
    while r < 3
      invariant r <= 3 && offset <= 4 * r && buff[..offset] == Terminated(texts[..r], '.')
    {
      TerminatedNext(texts, r, '.');
      offset := PutOctet(buff, offset, o[r], '.');
      r := r + 1;
    }
    var next := PutOctet(buff, offset, o[r], '\0');
    JoinTerminates(texts, '.');
    len := next - 1;
  }

  lemma OctetsReadBack(o: seq<nat>)
    requires forall i :: 0 <= i < |o| ==> o[i] < 256
    ensures Octets(OctetTexts(o)) == o
  {
    forall i | 0 <= i < |o| ensures Octet(OctetTexts(o)[i]) == o[i] { OctetReadsBack(o[i]); }
  }

  lemma {:induction false} JoinChars(parts: seq<string>, sep: char, ok: char -> bool)
    requires ok(sep) && forall i, j :: 0 <= i < |parts| && 0 <= j < |parts[i]| ==> ok(parts[i][j])
    ensures forall i :: 0 <= i < |Join(parts, sep)| ==> ok(Join(parts, sep)[i])
    decreases |parts|
  {
    if |parts| > 1 { JoinChars(parts[..|parts| - 1], sep, ok); }
  }

  /** A printed IPv4 address is parsed back. */
  lemma Ip4ReadsBack(o: seq<nat>)
    requires Ip4(o)
    ensures Parse4(Print4(o)) == Some(o)
  {
    var texts := OctetTexts(o);
    FieldsOfJoin(texts, '.');
    OctetsReadBack(o);
    JoinChars(texts, '.', c => c == '.' || IsDigit(c));
  }

  lemma OctetIsDigits(x: nat)
    requires x < 256
    ensures OctetText(x) == Digits(x)
  {
    var t := x / 10;
    assert x == 10 * t + x % 10;
    if x >= 10 { assert x % 100 / 10 == t % 10 && x / 100 == t / 10; }
  }

  /** The printed form is the four numbers in decimal, the first one first. */
  lemma Print4Is(a: nat, b: nat, c: nat, d: nat)
    requires a < 256 && b < 256 && c < 256 && d < 256
    ensures Print4([a, b, c, d]) == Digits(a) + "." + Digits(b) + "." + Digits(c) + "." + Digits(d)
  {
    var t := OctetTexts([a, b, c, d]);
    assert t[..3][..2] == t[..2] && t[..2][..1] == t[..1] && t[..1] == [t[0]];
    assert Join(t[..2], '.') == t[0] + ['.'] + t[1] && Join(t[..3], '.') == Join(t[..2], '.') + ['.'] + t[2];
    OctetIsDigits(a);
    OctetIsDigits(b);
    OctetIsDigits(c);
    OctetIsDigits(d);
  }
}
