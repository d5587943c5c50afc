/** What a lookup answers, said of the entries alone, and what does not change it. */
module DnsAnswers {
  import opened Options
  import opened CaseHash
  import opened DnsBasics
  import opened DnsTable
  import opened DnsState
  import opened SeqFacts

  // ----- What a lookup answers

  /** Every entry of the list has expired, is of neither the type nor a CNAME, or is for
      another name; the case of letters makes no other name. */
  ghost predicate NothingFor(l: seq<Id>, entries: map<Id, Entry>, name: Name, type_: nat, now: Ticks)
    requires forall x :: x in l ==> x in entries
  {
    forall x :: x in l ==>
      ExpiredAt(entries[x].expire, now) || (entries[x].type_ != type_ && entries[x].type_ != T_CNAME)
      || !EqualFold(entries[x].name, name)
  }

  /** The first entry of the list that is none of these. */
  ghost predicate FirstFor(l: seq<Id>, entries: map<Id, Entry>, name: Name, type_: nat, now: Ticks, x: Id)
    requires forall y :: y in l ==> y in entries
  {
    exists i ::
      0 <= i < |l| && l[i] == x && NothingFor(l[..i], entries, name, type_, now)
      && !ExpiredAt(entries[x].expire, now) && (entries[x].type_ == type_ || entries[x].type_ == T_CNAME)
      && EqualFold(entries[x].name, name)
  }

  lemma FirstOfTail(l: seq<Id>, entries: map<Id, Entry>, name: Name, type_: nat, now: Ticks, x: Id)
    requires l != [] && (forall y :: y in l ==> y in entries) && NothingFor(l[..1], entries, name, type_, now)
    requires FirstFor(l[1..], entries, name, type_, now, x)
    ensures FirstFor(l, entries, name, type_, now, x)
  {
    var i :| 0 <= i < |l[1..]| && l[1..][i] == x && NothingFor(l[1..][..i], entries, name, type_, now);
    assert l[i + 1] == x && l[..i + 1] == l[..1] + l[1..][..i];
    assert NothingFor(l[..i + 1], entries, name, type_, now);
  }

  /** The search of the list finds the first one, or there is none. */
  lemma {:induction false} FirstMatchIsFirst(l: seq<Id>, entries: map<Id, Entry>, name: Name, type_: nat, now: Ticks)
    requires forall x :: x in l ==> x in entries
    ensures match FirstMatch(l, entries, name, type_, now)
            case None => NothingFor(l, entries, name, type_, now)
            case Some(x) => FirstFor(l, entries, name, type_, now, x)
  {
    if l != [] {
      var r := FirstMatch(l, entries, name, type_, now);
      if NothingFor(l[..1], entries, name, type_, now) {
        assert l[..1] == [l[0]] && l == [l[0]] + l[1..];
        FirstMatchIsFirst(l[1..], entries, name, type_, now);
        if r.Some? { FirstOfTail(l, entries, name, type_, now, r.value); }
      } else {
        assert l[0] in l[..1] && l[..0] == [];
        assert NothingFor(l[..0], entries, name, type_, now) && r == Some(l[0]);
      }
    }
  }

  lemma NoneInFront(l: seq<Id>, entries: map<Id, Entry>, name: Name, type_: nat, now: Ticks, j: nat)
    requires (forall z :: z in l ==> z in entries) && j <= |l| && NothingFor(l[..j], entries, name, type_, now)
    ensures forall k :: 0 <= k < j ==> NothingFor([l[k]], entries, name, type_, now)
  {
    forall k | 0 <= k < j ensures NothingFor([l[k]], entries, name, type_, now) { assert l[k] in l[..j]; }
  }

  lemma FirstIsOne(l: seq<Id>, entries: map<Id, Entry>, name: Name, type_: nat, now: Ticks, x: Id, y: Id)
    requires (forall z :: z in l ==> z in entries) && FirstFor(l, entries, name, type_, now, x)
    ensures !NothingFor(l, entries, name, type_, now)
    ensures FirstFor(l, entries, name, type_, now, y) ==> x == y
  {
    var i :| 0 <= i < |l| && l[i] == x && NothingFor(l[..i], entries, name, type_, now)
             && x in [x] && !NothingFor([x], entries, name, type_, now);
    NoneInFront(l, entries, name, type_, now, i);
    if FirstFor(l, entries, name, type_, now, y) {
      var j :| 0 <= j < |l| && l[j] == y && NothingFor(l[..j], entries, name, type_, now)
               && y in [y] && !NothingFor([y], entries, name, type_, now);
      NoneInFront(l, entries, name, type_, now, j);
    }
  }

  /** The name asked for behind the first `k` of these entries. */
  function Asked(entries: map<Id, Entry>, name: Name, used: seq<Id>, k: nat): Name
    requires k <= |used| && forall x :: x in used ==> x in entries
  {
    if k == 0 then name else entries[used[k - 1]].cname
  }

  /** Entry number k is the first for the name that the one before it leads to, and unless it
      is the last one it is a CNAME where something else was asked for. */
  ghost predicate StepTo(l: seq<Id>, entries: map<Id, Entry>, name: Name, type_: nat, now: Ticks, used: seq<Id>, k: nat)
    requires (forall x :: x in l ==> x in entries) && (forall x :: x in used ==> x in entries) && k < |used|
  {
    FirstFor(l, entries, Asked(entries, name, used, k), type_, now, used[k])
    && (k + 1 < |used| ==> entries[used[k]].type_ == T_CNAME != type_)
  }

  ghost predicate Followed(l: seq<Id>, entries: map<Id, Entry>, name: Name, type_: nat, now: Ticks, used: seq<Id>)
    requires forall x :: x in l ==> x in entries
  {
    (forall x :: x in used ==> x in entries)
    && forall k :: 0 <= k < |used| ==> StepTo(l, entries, name, type_, now, used, k)
  }

  /** What an answer says of the entries. */
  ghost predicate Serves(l: seq<Id>, entries: map<Id, Entry>, name: Name, type_: nat, now: Ticks, a: Answer)
    requires forall x :: x in l ==> x in entries
  {
    var used := Uses(a);
    Followed(l, entries, name, type_, now, used) && |used| <= 12
    && match a
       case Hit(x, _) => entries[x].type_ == type_
       case Dangling(x, _) =>
         used != [] && x == used[|used| - 1] && entries[x].type_ == T_CNAME != type_ && |used| < 12
         && NothingFor(l, entries, entries[x].cname, type_, now)
       case Miss => NothingFor(l, entries, name, type_, now)
       case TooLong(_) => |used| == 12 && entries[used[11]].type_ == T_CNAME != type_
  }

  lemma FollowedNext(l: seq<Id>, entries: map<Id, Entry>, name: Name, type_: nat, now: Ticks, used: seq<Id>, x: Id)
    requires (forall y :: y in l ==> y in entries) && Followed(l, entries, name, type_, now, used)
    requires used != [] ==> entries[used[|used| - 1]].type_ == T_CNAME != type_
    requires FirstFor(l, entries, Asked(entries, name, used, |used|), type_, now, x)
    ensures Followed(l, entries, name, type_, now, used + [x])
  {
    var more := used + [x];
    forall k | 0 <= k < |more| ensures StepTo(l, entries, name, type_, now, more, k) {
      assert Asked(entries, name, more, k) == Asked(entries, name, used, k);
      if k < |used| { assert StepTo(l, entries, name, type_, now, used, k); }
    }
  }

  lemma ServesAtEnd(l: seq<Id>, entries: map<Id, Entry>, name: Name, type_: nat, now: Ticks, chain: seq<Id>)
    requires (forall x :: x in l ==> x in entries) && Followed(l, entries, name, type_, now, chain) && |chain| <= 11
    requires chain != [] ==> entries[chain[|chain| - 1]].type_ == T_CNAME != type_
    requires NothingFor(l, entries, Asked(entries, name, chain, |chain|), type_, now)
    ensures Serves(l, entries, name, type_, now, if chain == [] then Miss else Dangling(chain[|chain| - 1], chain))
  {
  }

  lemma ServesAtHit(l: seq<Id>, entries: map<Id, Entry>, name: Name, type_: nat, now: Ticks, chain: seq<Id>, x: Id)
    requires (forall x :: x in l ==> x in entries) && |chain| <= 11
    requires Followed(l, entries, name, type_, now, chain + [x])
    ensures entries[x].type_ == type_ ==> Serves(l, entries, name, type_, now, Hit(x, chain))
    ensures |chain| == 11 && entries[x].type_ == T_CNAME != type_ ==>
              Serves(l, entries, name, type_, now, TooLong(chain + [x]))
  {
    assert (chain + [x])[|chain|] == x && x in chain + [x];
  }

  lemma {:induction false} ServesFrom(l: seq<Id>, entries: map<Id, Entry>, name: Name, type_: nat, now: Ticks,
                                      chain: seq<Id>)
    requires (forall x :: x in l ==> x in entries) && Followed(l, entries, name, type_, now, chain) && |chain| <= 11
    requires chain != [] ==> entries[chain[|chain| - 1]].type_ == T_CNAME != type_
    ensures Serves(l, entries, name, type_, now,
                   Lookup(l, entries, Asked(entries, name, chain, |chain|), type_, now, chain))
    decreases 11 - |chain|
  {
    var asked := Asked(entries, name, chain, |chain|);
    var r := FirstMatch(l, entries, asked, type_, now);
    FirstMatchIsFirst(l, entries, asked, type_, now);
    if r.None? {
      ServesAtEnd(l, entries, name, type_, now, chain);
    } else {
      var x := r.value;
      FollowedNext(l, entries, name, type_, now, chain, x);
      if entries[x].type_ == type_ || |chain| == 11 {
        ServesAtHit(l, entries, name, type_, now, chain, x);
      } else {
        ServesFrom(l, entries, name, type_, now, chain + [x]);
      }
    }
  }

  lemma {:induction false} SameSteps(l: seq<Id>, entries: map<Id, Entry>, name: Name, type_: nat, now: Ticks,
                                     a: seq<Id>, b: seq<Id>, k: nat)
    requires forall x :: x in l ==> x in entries
    requires Followed(l, entries, name, type_, now, a) && Followed(l, entries, name, type_, now, b)
    requires k <= |a| && k <= |b|
    ensures a[..k] == b[..k]
  {
    if k > 0 {
      var i := k - 1;
      SameSteps(l, entries, name, type_, now, a, b, i);
      SameAsked(entries, name, a, b, i);
      assert StepTo(l, entries, name, type_, now, a, i) && StepTo(l, entries, name, type_, now, b, i);
      FirstIsOne(l, entries, Asked(entries, name, a, i), type_, now, a[i], b[i]);
      assert a[..k] == a[..i] + [a[i]] && b[..k] == b[..i] + [b[i]];
    }
  }

  lemma SameAsked(entries: map<Id, Entry>, name: Name, a: seq<Id>, b: seq<Id>, i: nat)
    requires (forall x :: x in a ==> x in entries) && (forall x :: x in b ==> x in entries)
    requires i <= |a| && i <= |b| && a[..i] == b[..i]
    ensures Asked(entries, name, a, i) == Asked(entries, name, b, i)
  {
    assert i > 0 ==> a[i - 1] == a[..i][i - 1] && b[i - 1] == b[..i][i - 1];
  }

  /** Where a way along the entries goes on, there is something for the name asked. */
  lemma GoesOn(l: seq<Id>, entries: map<Id, Entry>, name: Name, type_: nat, now: Ticks, u: seq<Id>, v: seq<Id>)
    requires (forall x :: x in l ==> x in entries) && |u| < |v|
    requires Followed(l, entries, name, type_, now, u) && Followed(l, entries, name, type_, now, v)
    ensures !NothingFor(l, entries, Asked(entries, name, u, |u|), type_, now)
    ensures u != [] ==> entries[u[|u| - 1]].type_ == T_CNAME != type_
  {
    SameSteps(l, entries, name, type_, now, u, v, |u|);
    SameAsked(entries, name, u, v, |u|);
    assert StepTo(l, entries, name, type_, now, v, |u|);
    FirstIsOne(l, entries, Asked(entries, name, v, |u|), type_, now, v[|u|], v[|u|]);
    if |u| > 0 {
      assert StepTo(l, entries, name, type_, now, v, |u| - 1) && u[..|u|][|u| - 1] == v[..|u|][|u| - 1];
    }
  }

  /** An answer that goes further says something else of where the other one ends. */
  lemma NoShorter(l: seq<Id>, entries: map<Id, Entry>, name: Name, type_: nat, now: Ticks, a: Answer, b: Answer)
    requires forall x :: x in l ==> x in entries
    requires Serves(l, entries, name, type_, now, a) && Serves(l, entries, name, type_, now, b)
    ensures |Uses(a)| >= |Uses(b)|
  {
    if |Uses(a)| < |Uses(b)| { GoesOn(l, entries, name, type_, now, Uses(a), Uses(b)); }
  }

  /** The answer of a lookup is the only one of which this can be said. */
  lemma LookupServesIff(l: seq<Id>, entries: map<Id, Entry>, name: Name, type_: nat, now: Ticks, a: Answer)
    requires forall x :: x in l ==> x in entries
    ensures Serves(l, entries, name, type_, now, a) <==> a == Lookup(l, entries, name, type_, now, [])
  {
    ServesFrom(l, entries, name, type_, now, []);
    if Serves(l, entries, name, type_, now, a) {
      OneServes(l, entries, name, type_, now, a, Lookup(l, entries, name, type_, now, []));
    }
  }

  lemma OneServes(l: seq<Id>, entries: map<Id, Entry>, name: Name, type_: nat, now: Ticks, a: Answer, b: Answer)
    requires forall x :: x in l ==> x in entries
    requires Serves(l, entries, name, type_, now, a) && Serves(l, entries, name, type_, now, b)
    ensures a == b
  {
    NoShorter(l, entries, name, type_, now, a, b);
    NoShorter(l, entries, name, type_, now, b, a);
    SameSteps(l, entries, name, type_, now, Uses(a), Uses(b), |Uses(a)|);
    assert Uses(a)[..|Uses(a)|] == Uses(a) && Uses(b)[..|Uses(a)|] == Uses(b);
    SameEnds(l, entries, name, type_, now, a, b);
  }

  lemma SameEnds(l: seq<Id>, entries: map<Id, Entry>, name: Name, type_: nat, now: Ticks, a: Answer, b: Answer)
    requires forall x :: x in l ==> x in entries
    requires Serves(l, entries, name, type_, now, a) && Serves(l, entries, name, type_, now, b)
    requires Uses(a) == Uses(b)
    ensures a == b
  {
    if a.Hit? && b.Hit? { assert Uses(a)[..|a.chain|] == a.chain && Uses(b)[..|b.chain|] == b.chain; }
    assert a.Hit? ==> Uses(a)[|a.chain|] == a.id;
    assert b.Hit? ==> Uses(b)[|b.chain|] == b.id;
  }

  /** There is no answer if and only if there is nothing for the name itself. */
  lemma MissIff(l: seq<Id>, entries: map<Id, Entry>, name: Name, type_: nat, now: Ticks)
    requires forall x :: x in l ==> x in entries
    ensures Lookup(l, entries, name, type_, now, []) == Miss <==> NothingFor(l, entries, name, type_, now)
  {
    LookupServesIff(l, entries, name, type_, now, Miss);
  }

  // ----- What does not change an answer

  lemma {:induction false} SearchFolds(l: seq<Id>, entries: map<Id, Entry>, a: Name, b: Name, type_: nat, now: Ticks)
    requires (forall x :: x in l ==> x in entries) && EqualFold(a, b)
    ensures FirstMatch(l, entries, a, type_, now) == FirstMatch(l, entries, b, type_, now)
  {
    if l != [] {
      FoldsAlike(entries[l[0]].name, a, b);
      SearchFolds(l[1..], entries, a, b, type_, now);
    }
  }

  /** Names that differ in the case of letters only have the same answer. */
  lemma LookupFolds(l: seq<Id>, entries: map<Id, Entry>, a: Name, b: Name, type_: nat, now: Ticks)
    requires (forall x :: x in l ==> x in entries) && EqualFold(a, b)
    ensures Lookup(l, entries, a, type_, now, []) == Lookup(l, entries, b, type_, now, [])
  {
    SearchFolds(l, entries, a, b, type_, now);
  }

  lemma {:induction false} LookupGone(l: seq<Id>, entries: map<Id, Entry>, gone: seq<Id>, name: Name, type_: nat,
                                      now: Ticks, chain: seq<Id>)
    requires (forall x :: x in l ==> x in entries) && Unique(l) && |chain| <= MAX_CNAME_CHAIN + 1
    requires forall x :: x in gone && x in entries ==> ExpiredAt(entries[x].expire, now)
    ensures forall x :: x in WithoutAll(l, gone) ==> x in entries - Ids(gone)
    ensures Lookup(WithoutAll(l, gone), entries - Ids(gone), name, type_, now, chain)
         == Lookup(l, entries, name, type_, now, chain)
    decreases MAX_CNAME_CHAIN + 1 - |chain|
  {
    GoneIsInvisible(l, entries, gone, name, type_, now);
    var r := FirstMatch(l, entries, name, type_, now);
    if r.Some? && entries[r.value].type_ != type_ && |chain| <= MAX_CNAME_CHAIN {
      LookupGone(l, entries, gone, entries[r.value].cname, type_, now, chain + [r.value]);
    }
  }

  /** Every name has the same answer in both tables at this time. */
  ghost predicate SameAnswers(t: Table, was: Table, now: Ticks) {
    (forall x :: x in t.order ==> x in t.entries) && (forall x :: x in was.order ==> x in was.entries)
    && forall name, type_ ::
         Lookup(t.order, t.entries, name, type_, now, []) == Lookup(was.order, was.entries, name, type_, now, [])
  }

  /** As long as only expired entries go, no answer changes. */
  lemma GoneUnseen(was: Table, gone: seq<Id>, now: Ticks)
    requires (forall x :: x in was.order ==> x in was.entries) && Unique(was.order)
    requires forall x :: x in gone && x in was.entries ==> ExpiredAt(was.entries[x].expire, now)
    ensures SameAnswers(Minus(was, gone), was, now)
  {
    LookupGone(was.order, was.entries, gone, [], 0, now, []);
    forall name, type_
      ensures Lookup(WithoutAll(was.order, gone), was.entries - Ids(gone), name, type_, now, [])
           == Lookup(was.order, was.entries, name, type_, now, [])
    {
      LookupGone(was.order, was.entries, gone, name, type_, now, []);
    }
  }

  /** A lookup changes no answer: what it takes out has expired, and what it uses only moves
      in the list of last used. */
  lemma LookedUpUnseen(t: Table, was: Table, gone: seq<Id>, used: seq<Id>, now: Ticks)
    requires (forall x :: x in was.order ==> x in was.entries) && Unique(was.order)
    requires LookedUp(t, was, gone, used, now)
    ensures SameAnswers(t, was, now)
  {
    GoneUnseen(was, gone, now);
  }

  /** Nor does a walk over the list of last used that is told to spare what has not expired. */
  lemma EvictedUnseen(was: Table, memUsed: int, target: nat, now: Ticks, expiredOnly: bool, gone: seq<Id>)
    requires (forall x :: x in was.order ==> x in was.entries) && Unique(was.order)
    requires forall x :: x in was.lru ==> x in was.entries
    requires gone == Evicted(was.lru, was.entries, memUsed, target, now, expiredOnly)
    ensures expiredOnly ==> SameAnswers(Minus(was, gone), was, now)
  {
    EvictionMeaning(was.lru, was.entries, memUsed, target, now, expiredOnly);
    if expiredOnly { GoneUnseen(was, gone, now); }
  }

  lemma CleanedUnseen(was: Table, no: nat, now: Ticks, expiredOnly: bool, gone: seq<Id>)
    requires (forall x :: x in was.order ==> x in was.entries) && Unique(was.order)
    requires forall x :: x in was.lru ==> x in was.entries
    requires gone == Cleaned(was.lru, was.entries, no, now, expiredOnly)
    ensures expiredOnly ==> SameAnswers(Minus(was, gone), was, now)
  {
    if expiredOnly {
      forall x | x in gone && x in was.entries ensures ExpiredAt(was.entries[x].expire, now) {
        CleanedExactly(was.lru, was.entries, no, now, true, x);
      }
      GoneUnseen(was, gone, now);
    }
  }

  /** The answer for a name, in whatever case it is written. */
  ghost predicate AnswerFor(l: seq<Id>, entries: map<Id, Entry>, name: Name, type_: nat, now: Ticks, a: Answer)
    requires forall x :: x in l ==> x in entries
  {
    forall n :: EqualFold(n, name) ==> Serves(l, entries, n, type_, now, a)
  }

  lemma LookupAnswers(l: seq<Id>, entries: map<Id, Entry>, name: Name, type_: nat, now: Ticks)
    requires forall x :: x in l ==> x in entries
    ensures AnswerFor(l, entries, name, type_, now, Lookup(l, entries, name, type_, now, []))
  {
    var a := Lookup(l, entries, name, type_, now, []);
    forall n | EqualFold(n, name) ensures Serves(l, entries, n, type_, now, a) {
      LookupFolds(l, entries, n, name, type_, now);
      LookupServesIff(l, entries, n, type_, now, a);
    }
  }
}
