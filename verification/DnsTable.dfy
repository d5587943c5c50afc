/** The DNS cache table on values: lookup, removal and eviction as functions of the
    order in which entries were added, and the facts the cache operations rest on. */
module DnsTable {
  import opened Options
  import opened CaseHash
  import opened DnsBasics
  import opened SeqFacts

  type Id = nat

  const MAX_CNAME_CHAIN := 10

  /** A cached entry; `cname` is the target when the type is T_CNAME. */
  datatype Entry = Entry(name: Name, type_: nat, expire: Ticks, totalSize: nat, cname: Name)

  type Hash = Name -> nat

  /** What the table needs from its hash. */
  ghost predicate GoodHash(hash: Hash) {
    (forall n :: hash(n) < DNS_HASH_SIZE) && (forall a, b :: EqualFold(a, b) ==> hash(a) == hash(b))
  }

  lemma SerHashIsGood()
    ensures GoodHash(HashNo)
  {
    forall a, b | EqualFold(a, b) ensures HashNo(a) == HashNo(b) { HashIgnoresCase(a, b); }
  }

  predicate Expired(e: Entry, now: Ticks) {
    ExpiredAt(e.expire, now)
  }

  // ----- Lists of entries

  predicate Unique(l: seq<Id>) {
    l == [] || (l[0] !in l[1..] && Unique(l[1..]))
  }

  lemma {:induction false} UniqueSnoc(l: seq<Id>, x: Id)
    requires Unique(l) && x !in l
    ensures Unique(l + [x])
  {
    if l == [] {
      assert l + [x] == [x] && [x][1..] == [];
    } else {
      assert (l + [x])[0] == l[0] && (l + [x])[1..] == l[1..] + [x];
      UniqueSnoc(l[1..], x);
    }
  }

  /** No entry stands in two places. */
  lemma {:induction false} UniquePlaces(l: seq<Id>, i: nat, j: nat)
    requires Unique(l) && i < j < |l|
    ensures l[i] != l[j]
  {
    if i > 0 { UniquePlaces(l[1..], i - 1, j - 1); }
  }

  function Without(l: seq<Id>, x: Id): seq<Id> {
    if l == [] then [] else if l[0] == x then l[1..] else [l[0]] + Without(l[1..], x)
  }

  function WithoutAll(l: seq<Id>, xs: seq<Id>): seq<Id>
    decreases |xs|
  {
    if xs == [] then l else WithoutAll(Without(l, xs[0]), xs[1..])
  }

  /** The entries of one bucket, in the order of addition. */
  function InBucket(l: seq<Id>, entries: map<Id, Entry>, hash: Hash, h: nat): seq<Id>
    requires forall x :: x in l ==> x in entries
  {
    if l == [] then []
    else (if hash(entries[l[0]].name) == h then [l[0]] else []) + InBucket(l[1..], entries, hash, h)
  }

  function Size(l: seq<Id>, entries: map<Id, Entry>): nat
    requires forall x :: x in l ==> x in entries
  {
    if l == [] then 0 else entries[l[0]].totalSize + Size(l[1..], entries)
  }

  // ----- Lookup in the plain list

  predicate Matches(e: Entry, name: Name, type_: nat, now: Ticks) {
    !Expired(e, now) && (e.type_ == type_ || e.type_ == T_CNAME) && EqualFold(e.name, name)
  }

  /** The first unexpired entry for the name, of the type or a CNAME. */
  function FirstMatch(l: seq<Id>, entries: map<Id, Entry>, name: Name, type_: nat, now: Ticks): (r: Option<Id>)
    requires forall x :: x in l ==> x in entries
    ensures r.Some? ==> r.value in l && Matches(entries[r.value], name, type_, now)
  {
    if l == [] then None
    else if Matches(entries[l[0]], name, type_, now) then Some(l[0])
    else FirstMatch(l[1..], entries, name, type_, now)
  }

  datatype Answer =
    | Hit(id: Id, chain: seq<Id>)         // an entry of the wanted type, through these CNAMEs
    | Dangling(id: Id, chain: seq<Id>)    // the last CNAME of a chain that leads nowhere
    | Miss
    | TooLong(chain: seq<Id>)             // one CNAME too many

  function AnswerChain(a: Answer): seq<Id> {
    match a
    case Hit(_, c) => c
    case Dangling(_, c) => c
    case Miss => []
    case TooLong(c) => c
  }

  /** The entry an answer gives, if any. */
  function Found(a: Answer): Option<Id> {
    match a
    case Hit(x, _) => Some(x)
    case Dangling(x, _) => Some(x)
    case Miss | TooLong(_) => None
  }

  /** The entries used on the way, in order. */
  function Uses(a: Answer): seq<Id> {
    if a.Hit? then a.chain + [a.id] else AnswerChain(a)
  }

  /** Follow CNAMEs in the plain list; `chain` are those followed so far. */
  function Lookup(l: seq<Id>, entries: map<Id, Entry>, name: Name, type_: nat, now: Ticks, chain: seq<Id>): Answer
    requires forall x :: x in l ==> x in entries
    requires |chain| <= MAX_CNAME_CHAIN + 1
    decreases MAX_CNAME_CHAIN + 1 - |chain|
  {
    match FirstMatch(l, entries, name, type_, now)
    case None => if chain == [] then Miss else Dangling(chain[|chain| - 1], chain)
    case Some(x) =>
      if entries[x].type_ == type_ then Hit(x, chain)
      else if |chain| > MAX_CNAME_CHAIN then TooLong(chain + [x])
      else Lookup(l, entries, entries[x].cname, type_, now, chain + [x])
  }

  // ----- Eviction

  predicate Evictable(e: Entry, now: Ticks, expiredOnly: bool) {
    !expiredOnly || Expired(e, now)
  }

  /** The entries evicted when walking the list from its least recently used end
      until the target is met. */
  function Evicted(l: seq<Id>, entries: map<Id, Entry>, mem: int, target: nat, now: Ticks,
                   expiredOnly: bool): (r: seq<Id>)
    requires forall x :: x in l ==> x in entries
    ensures forall x :: x in r ==> x in l
  {
    if l == [] || mem <= target then []
    else if Evictable(entries[l[0]], now, expiredOnly) then
      [l[0]] + Evicted(l[1..], entries, mem - entries[l[0]].totalSize, target, now, expiredOnly)
    else Evicted(l[1..], entries, mem, target, now, expiredOnly)
  }

  // ----- What the operations take out of the lists

  function Ids(xs: seq<Id>): set<Id> { set x | x in xs }

  /** Expired entries met before the first match. */
  function Swept(l: seq<Id>, entries: map<Id, Entry>, name: Name, type_: nat, now: Ticks): seq<Id>
    requires forall x :: x in l ==> x in entries
  {
    if l == [] || Matches(entries[l[0]], name, type_, now) then []
    else (if Expired(entries[l[0]], now) then [l[0]] else []) + Swept(l[1..], entries, name, type_, now)
  }

  /** The entries that a cleaning which looks at `no` entries, at one at least, takes out. */
  function Cleaned(l: seq<Id>, entries: map<Id, Entry>, no: nat, now: Ticks, expiredOnly: bool): (r: seq<Id>)
    requires forall x :: x in l ==> x in entries
    decreases |l|
  {
    if l == [] then []
    else (if Evictable(entries[l[0]], now, expiredOnly) then [l[0]] else [])
         + (if no <= 1 then [] else Cleaned(l[1..], entries, no - 1, now, expiredOnly))
  }

  /** Each entry in turn is moved to the end. */
  function Touched(l: seq<Id>, xs: seq<Id>): seq<Id>
    decreases |xs|
  {
    if xs == [] then l
    else var last := xs[|xs| - 1]; Without(Touched(l, xs[..|xs| - 1]), last) + [last]
  }

  // ----- Facts about lists

  lemma {:induction false} WithoutMembers(l: seq<Id>, x: Id, y: Id)
    requires Unique(l)
    ensures y in Without(l, x) <==> y in l && y != x
  {
    if l != [] {
      WithoutMembers(l[1..], x, y);
      if l[0] != x { assert Without(l, x) == [l[0]] + Without(l[1..], x); }
    }
  }

  lemma {:induction false} WithoutUnique(l: seq<Id>, x: Id)
    requires Unique(l)
    ensures Unique(Without(l, x))
  {
    if l != [] {
      WithoutUnique(l[1..], x);
      WithoutMembers(l[1..], x, l[0]);
      if l[0] != x { assert Without(l, x)[0] == l[0] && Without(l, x)[1..] == Without(l[1..], x); }
    }
  }

  lemma {:induction false} WithoutAbsent(l: seq<Id>, x: Id)
    requires x !in l
    ensures Without(l, x) == l
  {
    if l != [] { WithoutAbsent(l[1..], x); }
  }

  lemma {:induction false} WithoutAt(l: seq<Id>, i: nat)
    requires Unique(l) && i < |l|
    ensures Without(l, l[i]) == l[..i] + l[i + 1..]
  {
    if i == 0 {
      assert l[..0] + l[1..] == l[1..];
    } else {
      var x, r := l[i], l[1..];
      UniquePlaces(l, 0, i);
      WithoutAt(r, i - 1);
      Assoc([l[0]], r[..i - 1], r[i..]);
      assert Without(l, x) == [l[0]] + Without(r, x);
      assert l[..i] == [l[0]] + r[..i - 1] && r[i..] == l[i + 1..];
    }
  }

  lemma {:induction false} WithoutAllNext(l: seq<Id>, xs: seq<Id>, x: Id)
    ensures WithoutAll(l, xs + [x]) == Without(WithoutAll(l, xs), x)
    decreases |xs|
  {
    if xs == [] {
      assert [] + [x] == [x] && [x][1..] == [];
    } else {
      assert (xs + [x])[0] == xs[0] && (xs + [x])[1..] == xs[1..] + [x];
      WithoutAllNext(Without(l, xs[0]), xs[1..], x);
    }
  }

  lemma {:induction false} InBucketMembers(l: seq<Id>, entries: map<Id, Entry>, hash: Hash, h: nat, x: Id)
    requires forall x :: x in l ==> x in entries
    ensures x in InBucket(l, entries, hash, h) <==> x in l && hash(entries[x].name) == h
  {
    if l != [] {
      assert l == [l[0]] + l[1..];
      InBucketMembers(l[1..], entries, hash, h, x);
    }
  }

  lemma {:induction false} InBucketUnique(l: seq<Id>, entries: map<Id, Entry>, hash: Hash, h: nat)
    requires (forall x :: x in l ==> x in entries) && Unique(l)
    ensures Unique(InBucket(l, entries, hash, h))
  {
    if l != [] {
      var rest := InBucket(l[1..], entries, hash, h);
      InBucketUnique(l[1..], entries, hash, h);
      InBucketMembers(l[1..], entries, hash, h, l[0]);
      Tail(l[0], rest);
      assert [] + rest == rest;
    }
  }

  lemma {:induction false} InBucketWithout(l: seq<Id>, entries: map<Id, Entry>, hash: Hash, h: nat, x: Id)
    requires (forall y :: y in l ==> y in entries) && Unique(l) && x in l
    ensures forall y :: y in Without(l, x) ==> y in entries && y != x
    ensures InBucket(Without(l, x), entries - {x}, hash, h) == Without(InBucket(l, entries, hash, h), x)
  {
    forall y ensures y in Without(l, x) <==> y in l && y != x { WithoutMembers(l, x, y); }
    if l[0] == x {
      var rest := InBucket(l[1..], entries, hash, h);
      InBucketSub(l[1..], entries, hash, h, x);
      InBucketMembers(l[1..], entries, hash, h, x);
      WithoutAbsent(rest, x);
      assert ([x] + rest)[1..] == rest && [] + rest == rest;
    } else {
      InBucketWithout(l[1..], entries, hash, h, x);
      assert Without(l, x)[1..] == Without(l[1..], x);
      var head := if hash(entries[l[0]].name) == h then [l[0]] else [];
      assert InBucket(l, entries, hash, h) == head + InBucket(l[1..], entries, hash, h);
      assert Without(head + InBucket(l[1..], entries, hash, h), x)
          == head + Without(InBucket(l[1..], entries, hash, h), x) by {
        if head != [] {
          assert (head + InBucket(l[1..], entries, hash, h))[1..] == InBucket(l[1..], entries, hash, h);
        } else {
          assert head + InBucket(l[1..], entries, hash, h) == InBucket(l[1..], entries, hash, h);
        }
      }
    }
  }

  /** Entries that are not in the list do not matter. */
  lemma {:induction false} InBucketSub(l: seq<Id>, entries: map<Id, Entry>, hash: Hash, h: nat, x: Id)
    requires (forall y :: y in l ==> y in entries) && x !in l
    ensures InBucket(l, entries - {x}, hash, h) == InBucket(l, entries, hash, h)
    ensures Size(l, entries - {x}) == Size(l, entries)
  {
    if l != [] { InBucketSub(l[1..], entries, hash, h, x); }
  }

  lemma {:induction false} SizeWithout(l: seq<Id>, entries: map<Id, Entry>, x: Id)
    requires (forall y :: y in l ==> y in entries) && Unique(l) && x in l
    ensures forall y :: y in Without(l, x) ==> y in entries && y != x
    ensures Size(Without(l, x), entries - {x}) == Size(l, entries) - entries[x].totalSize
  {
    forall y ensures y in Without(l, x) <==> y in l && y != x { WithoutMembers(l, x, y); }
    if l[0] == x {
      InBucketSub(l[1..], entries, _ => 0, 0, x);
    } else {
      SizeWithout(l[1..], entries, x);
      assert Without(l, x)[1..] == Without(l[1..], x);
    }
  }

  lemma {:induction false} InBucketAppend(l: seq<Id>, entries: map<Id, Entry>, hash: Hash, h: nat, x: Id, e: Entry)
    requires (forall y :: y in l ==> y in entries) && x !in entries
    ensures InBucket(l + [x], entries[x := e], hash, h)
         == InBucket(l, entries, hash, h) + (if hash(e.name) == h then [x] else [])
    ensures Size(l + [x], entries[x := e]) == Size(l, entries) + e.totalSize
  {
    if l == [] {
      assert l + [x] == [x] && [x][1..] == [];
    } else {
      ConsConcat(l, [x]);
      InBucketAppend(l[1..], entries, hash, h, x, e);
      Assoc(if hash(entries[l[0]].name) == h then [l[0]] else [], InBucket(l[1..], entries, hash, h),
            if hash(e.name) == h then [x] else []);
    }
  }

  lemma {:induction false} SizeSnoc(l: seq<Id>, entries: map<Id, Entry>, x: Id)
    requires (forall y :: y in l ==> y in entries) && x in entries
    ensures Size(l + [x], entries) == Size(l, entries) + entries[x].totalSize
  {
    if l == [] {
      assert l + [x] == [x] && [x][1..] == [];
    } else {
      assert (l + [x])[0] == l[0] && (l + [x])[1..] == l[1..] + [x];
      SizeSnoc(l[1..], entries, x);
    }
  }

  // ----- Facts about lookup

  /** Searching the name's own bucket finds what searching everything finds. */
  lemma {:induction false} BucketSearch(l: seq<Id>, entries: map<Id, Entry>, hash: Hash, name: Name, type_: nat,
                                        now: Ticks)
    requires (forall x :: x in l ==> x in entries) && GoodHash(hash)
    ensures forall x :: x in InBucket(l, entries, hash, hash(name)) ==> x in entries
    ensures FirstMatch(InBucket(l, entries, hash, hash(name)), entries, name, type_, now)
            == FirstMatch(l, entries, name, type_, now)
  {
    forall x
      ensures x in InBucket(l, entries, hash, hash(name))
              ==> x in entries { InBucketMembers(l, entries, hash, hash(name), x); }
    if l != [] {
      BucketSearch(l[1..], entries, hash, name, type_, now);
      var head := if hash(entries[l[0]].name) == hash(name) then [l[0]] else [];
      var rest := InBucket(l[1..], entries, hash, hash(name));
      if head == [] {
        assert head + rest == rest;
      } else {
        assert (head + rest)[1..] == rest;
      }
    }
  }

  /** Taking an expired entry out changes no answer. */
  lemma {:induction false} ExpiredIsInvisible(l: seq<Id>, entries: map<Id, Entry>, x: Id, name: Name, type_: nat,
                                              now: Ticks)
    requires (forall y :: y in l ==> y in entries) && Unique(l) && x in l && Expired(entries[x], now)
    ensures forall y :: y in Without(l, x) ==> y in entries && y != x
    ensures FirstMatch(Without(l, x), entries - {x}, name, type_, now) == FirstMatch(l, entries, name, type_, now)
  {
    forall y ensures y in Without(l, x) <==> y in l && y != x { WithoutMembers(l, x, y); }
    if l[0] == x {
      FirstMatchSub(l[1..], entries, x, name, type_, now);
    } else {
      ExpiredIsInvisible(l[1..], entries, x, name, type_, now);
      assert Without(l, x)[1..] == Without(l[1..], x);
    }
  }

  lemma {:induction false} FirstMatchSub(l: seq<Id>, entries: map<Id, Entry>, x: Id, name: Name, type_: nat, now: Ticks)
    requires (forall y :: y in l ==> y in entries) && x !in l
    ensures FirstMatch(l, entries - {x}, name, type_, now) == FirstMatch(l, entries, name, type_, now)
  {
    if l != [] { FirstMatchSub(l[1..], entries, x, name, type_, now); }
  }

  /** Each entry of the chain is a CNAME and the first match for the target of the one before. */
  ghost predicate Linked(l: seq<Id>, entries: map<Id, Entry>, name: Name, type_: nat, now: Ticks, chain: seq<Id>)
    requires forall x :: x in l ==> x in entries
    decreases |chain|
  {
    chain == []
    || (FirstMatch(l, entries, name, type_, now) == Some(chain[0]) && entries[chain[0]].type_ == T_CNAME != type_
        && Linked(l, entries, entries[chain[0]].cname, type_, now, chain[1..]))
  }

  /** The name asked for at the end of a linked chain. */
  ghost function LastName(l: seq<Id>, entries: map<Id, Entry>, name: Name, type_: nat, now: Ticks, chain: seq<Id>): Name
    requires (forall x :: x in l ==> x in entries) && Linked(l, entries, name, type_, now, chain)
    decreases |chain|
  {
    if chain == [] then name else LastName(l, entries, entries[chain[0]].cname, type_, now, chain[1..])
  }

  /** Where a lookup that has followed `sofar` CNAMEs ends, and after which further ones. */
  ghost predicate Ends(l: seq<Id>, entries: map<Id, Entry>, name: Name, type_: nat, now: Ticks, sofar: nat,
                       more: seq<Id>, a: Answer)
    requires forall x :: x in l ==> x in entries
  {
    Linked(l, entries, name, type_, now, more)
    && (if a.TooLong? then sofar + |more| == MAX_CNAME_CHAIN + 2 else sofar + |more| <= MAX_CNAME_CHAIN + 1)
    && var last := FirstMatch(l, entries, LastName(l, entries, name, type_, now, more), type_, now);
       (a.Hit? ==> last == Some(a.id) && entries[a.id].type_ == type_)
       && (a.Dangling? || a.Miss? ==> last == None)
       && (a.Miss? ==> sofar + |more| == 0)
  }

  lemma {:induction false} LookupFrom(l: seq<Id>, entries: map<Id, Entry>, name: Name, type_: nat, now: Ticks,
                                      before: seq<Id>) returns (more: seq<Id>)
    requires (forall x :: x in l ==> x in entries) && |before| <= MAX_CNAME_CHAIN + 1
    ensures var a := Lookup(l, entries, name, type_, now, before);
            AnswerChain(a) == before + more && Ends(l, entries, name, type_, now, |before|, more, a)
            && (a.Dangling? ==> before + more != [] && a.id == (before + more)[|before + more| - 1])
    decreases MAX_CNAME_CHAIN + 1 - |before|
  {
    var r := FirstMatch(l, entries, name, type_, now);
    more := [];
    assert before + [] == before;
    if r.Some? && entries[r.value].type_ != type_ {
      more := [r.value];
      if |before| <= MAX_CNAME_CHAIN {
        var rest := LookupFrom(l, entries, entries[r.value].cname, type_, now, before + [r.value]);
        more := [r.value] + rest;
        Assoc(before, [r.value], rest);
        Tail(r.value, rest);
      }
    }
  }

  /** A lookup follows first matches among the unexpired entries for the name, its case
      ignored: it hits when the chain of CNAMEs that starts at the name ends at an entry
      of the wanted type, gives the last CNAME when the chain ends at no entry, and
      fails exactly when the chain has twelve CNAMEs. */
  lemma LookupMeaning(l: seq<Id>, entries: map<Id, Entry>, name: Name, type_: nat, now: Ticks)
    requires forall x :: x in l ==> x in entries
    ensures var a := Lookup(l, entries, name, type_, now, []);
            Ends(l, entries, name, type_, now, 0, AnswerChain(a), a)
            && (a.Dangling? ==> AnswerChain(a) != [] && a.id == AnswerChain(a)[|AnswerChain(a)| - 1])
  {
    var more := LookupFrom(l, entries, name, type_, now, []);
    assert [] + more == more;
  }

  /** Taking any number of expired entries out changes no answer. */
  lemma {:induction false} GoneIsInvisible(l: seq<Id>, entries: map<Id, Entry>, xs: seq<Id>, name: Name, type_: nat,
                                           now: Ticks)
    requires (forall y :: y in l ==> y in entries) && Unique(l)
    requires forall x :: x in xs && x in entries ==> Expired(entries[x], now)
    ensures forall y :: y in WithoutAll(l, xs) ==> y in entries - Ids(xs)
    ensures FirstMatch(WithoutAll(l, xs), entries - Ids(xs), name, type_, now)
            == FirstMatch(l, entries, name, type_, now)
    decreases |xs|
  {
    if xs == [] {
      assert entries - Ids(xs) == entries;
    } else {
      var x := xs[0];
      forall y ensures y in Without(l, x) <==> y in l && y != x { WithoutMembers(l, x, y); }
      WithoutUnique(l, x);
      if x in l {
        ExpiredIsInvisible(l, entries, x, name, type_, now);
      } else {
        WithoutAbsent(l, x);
        FirstMatchSub(l, entries, x, name, type_, now);
      }
      GoneIsInvisible(Without(l, x), entries - {x}, xs[1..], name, type_, now);
      assert xs == [x] + xs[1..];
      assert entries - {x} - Ids(xs[1..]) == entries - Ids(xs);
    }
  }

  lemma {:induction false} SweptExpired(l: seq<Id>, entries: map<Id, Entry>, name: Name, type_: nat, now: Ticks, x: Id)
    requires forall y :: y in l ==> y in entries
    requires x in Swept(l, entries, name, type_, now)
    ensures x in l && Expired(entries[x], now)
  {
    if l != [] && !Matches(entries[l[0]], name, type_, now) && x in Swept(l[1..], entries, name, type_, now) {
      SweptExpired(l[1..], entries, name, type_, now, x);
    }
  }

  // ----- Removing and touching

  lemma {:induction false} WithoutAllConcat(l: seq<Id>, xs: seq<Id>, ys: seq<Id>)
    ensures WithoutAll(WithoutAll(l, xs), ys) == WithoutAll(l, xs + ys)
    decreases |xs|
  {
    if xs == [] {
      assert xs + ys == ys;
    } else {
      assert (xs + ys)[0] == xs[0] && (xs + ys)[1..] == xs[1..] + ys;
      WithoutAllConcat(Without(l, xs[0]), xs[1..], ys);
    }
  }

  lemma {:induction false} WithoutCommutes(l: seq<Id>, x: Id, y: Id)
    requires x != y
    ensures Without(Without(l, x), y) == Without(Without(l, y), x)
  {
    if l != [] {
      WithoutCommutes(l[1..], x, y);
      assert forall a: Id, r: seq<Id> :: ([a] + r)[1..] == r;
    }
  }

  lemma {:induction false} WithoutLast(l: seq<Id>, x: Id, y: Id)
    requires x != y
    ensures Without(l + [y], x) == Without(l, x) + [y]
  {
    if l == [] {
      assert [] + [y] == [y];
      WithoutAbsent([y], x);
    } else {
      assert (l + [y])[0] == l[0] && (l + [y])[1..] == l[1..] + [y];
      WithoutLast(l[1..], x, y);
    }
  }

  /** Entries that were not touched may as well have been removed before. */
  lemma {:induction false} WithoutTouched(l: seq<Id>, touched: seq<Id>, x: Id)
    requires x !in touched
    ensures Without(Touched(l, touched), x) == Touched(Without(l, x), touched)
    decreases |touched|
  {
    if touched != [] {
      var last, init := touched[|touched| - 1], touched[..|touched| - 1];
      WithoutTouched(l, init, x);
      WithoutLast(Without(Touched(l, init), last), x, last);
      WithoutCommutes(Touched(l, init), last, x);
    }
  }

  lemma {:induction false} WithoutAllTouched(l: seq<Id>, touched: seq<Id>, gone: seq<Id>)
    requires forall x :: x in gone ==> x !in touched
    ensures WithoutAll(Touched(l, touched), gone) == Touched(WithoutAll(l, gone), touched)
    decreases |gone|
  {
    if gone != [] {
      WithoutTouched(l, touched, gone[0]);
      WithoutAllTouched(Without(l, gone[0]), touched, gone[1..]);
    }
  }

  lemma {:induction false} WithoutConcat(a: seq<Id>, b: seq<Id>, x: Id)
    ensures Without(a + b, x) == if x in a then Without(a, x) + b else a + Without(b, x)
  {
    if a == [] {
      assert a + b == b;
    } else {
      ConsConcat(a, b);
      WithoutConcat(a[1..], b, x);
      if a[0] != x {
        Assoc([a[0]], Without(a[1..], x), b);
        Assoc([a[0]], a[1..], Without(b, x));
        assert a == [a[0]] + a[1..];
      }
    }
  }

  lemma {:induction false} WithoutAllMembers(l: seq<Id>, xs: seq<Id>, y: Id)
    requires Unique(l)
    ensures Unique(WithoutAll(l, xs)) && (y in WithoutAll(l, xs) <==> y in l && y !in xs)
    decreases |xs|
  {
    if xs != [] {
      WithoutUnique(l, xs[0]);
      WithoutMembers(l, xs[0], y);
      WithoutAllMembers(Without(l, xs[0]), xs[1..], y);
    }
  }

  /** Least recently used first: entries that were not touched keep their order, and
      after them come the touched ones by their last use. */
  lemma {:induction false} TouchedOrder(l: seq<Id>, xs: seq<Id>)
    requires Unique(l)
    ensures Touched(l, xs) == WithoutAll(l, xs) + Touched([], xs)
    decreases |xs|
  {
    if xs != [] {
      var last, init := xs[|xs| - 1], xs[..|xs| - 1];
      TouchedOrder(l, init);
      WithoutAllNext(l, init, last);
      assert xs == init + [last];
      WithoutAllMembers(l, init, last);
      TouchedMembers(init, last);
      WithoutConcat(WithoutAll(l, init), Touched([], init), last);
      if last !in WithoutAll(l, init) { WithoutAbsent(WithoutAll(l, init), last); }
      if last in WithoutAll(l, init) { WithoutAbsent(Touched([], init), last); }
    }
  }

  lemma {:induction false} TouchedMembers(xs: seq<Id>, y: Id)
    ensures y in Touched([], xs) <==> y in xs
    ensures Unique(Touched([], xs))
    decreases |xs|
  {
    if xs != [] {
      var last, init := xs[|xs| - 1], xs[..|xs| - 1];
      assert xs == init + [last];
      TouchedMembers(init, y);
      TouchedMembers(init, last);
      WithoutMembers(Touched([], init), last, y);
      WithoutMembers(Touched([], init), last, last);
      WithoutUnique(Touched([], init), last);
      UniqueSnoc(Without(Touched([], init), last), last);
    }
  }

  // ----- Facts about eviction

  /** How many entries a cleaning looks at. */
  function Looks(no: nat, n: nat): (r: nat)
    ensures r <= n
  {
    if n == 0 then 0 else if no == 0 then 1 else if no < n then no else n
  }

  /** A cleaning takes out exactly the entries among the first it looks at that it may: all, or
      the expired ones. */
  lemma {:induction false} CleanedExactly(l: seq<Id>, entries: map<Id, Entry>, no: nat, now: Ticks,
                                          expiredOnly: bool, x: Id)
    requires (forall y :: y in l ==> y in entries) && x in entries
    ensures x in Cleaned(l, entries, no, now, expiredOnly)
       <==> x in l[..Looks(no, |l|)] && (expiredOnly ==> ExpiredAt(entries[x].expire, now))
    decreases |l|
  {
    if l != [] {
      var k := Looks(no, |l|);
      SplitFirst(l, k, x);
      if no > 1 { CleanedExactly(l[1..], entries, no - 1, now, expiredOnly, x); }
    }
  }

  lemma SplitFirst(l: seq<Id>, k: nat, x: Id)
    requires 0 < k <= |l|
    ensures x in l[..k] <==> x == l[0] || x in l[1..][..k - 1]
  {
    assert l[..k] == [l[0]] + l[1..][..k - 1];
  }

  /** Eviction takes entries in list order, expired ones only if told so, each while the memory
      in use was above the target, and stops only when the target is met or none is left that
      it may take. */
  lemma {:induction false} EvictionMeaning(l: seq<Id>, entries: map<Id, Entry>, mem: int, target: nat, now: Ticks,
                                           expiredOnly: bool)
    requires forall x :: x in l ==> x in entries
    ensures var ev := Evicted(l, entries, mem, target, now, expiredOnly);
            (forall x :: x in ev ==> x in l && (expiredOnly ==> ExpiredAt(entries[x].expire, now)))
            && (mem - Size(ev, entries) <= target
                || forall x :: x in l && (expiredOnly ==> ExpiredAt(entries[x].expire, now)) ==> x in ev)
            && (forall k :: 0 <= k < |ev| ==> ev[..k] <= ev && mem - Size(ev[..k], entries) > target)
  {
    if l != [] && mem > target {
      var ev := Evicted(l, entries, mem, target, now, expiredOnly);
      if Evictable(entries[l[0]], now, expiredOnly) {
        var rest := Evicted(l[1..], entries, mem - entries[l[0]].totalSize, target, now, expiredOnly);
        EvictionMeaning(l[1..], entries, mem - entries[l[0]].totalSize, target, now, expiredOnly);
        assert ev == [l[0]] + rest && ev[1..] == rest;
        forall k | 0 <= k < |ev| ensures ev[..k] <= ev && mem - Size(ev[..k], entries) > target {
          if k > 0 { assert ev[..k][1..] == rest[..k - 1] && ev[..k][0] == l[0]; }
        }
      } else {
        EvictionMeaning(l[1..], entries, mem, target, now, expiredOnly);
      }
    }
  }

  /** Evicted entries stand in the order of the list. */
  lemma {:induction false} EvictedInOrder(l: seq<Id>, entries: map<Id, Entry>, mem: int, target: nat, now: Ticks,
                                          expiredOnly: bool)
    requires (forall x :: x in l ==> x in entries) && Unique(l)
    ensures var ev := Evicted(l, entries, mem, target, now, expiredOnly);
            exists at: seq<nat> :: |at| == |ev| && (forall i :: 0 <= i < |at| ==> at[i] < |l| && l[at[i]] == ev[i])
                                   && forall i, j :: 0 <= i < j < |at| ==> at[i] < at[j]
  {
    var at := EvictedAt(l, entries, mem, target, now, expiredOnly);
  }

  lemma {:induction false} EvictedAt(l: seq<Id>, entries: map<Id, Entry>, mem: int, target: nat, now: Ticks,
                                     expiredOnly: bool) returns (at: seq<nat>)
    requires forall x :: x in l ==> x in entries
    ensures var ev := Evicted(l, entries, mem, target, now, expiredOnly);
            |at| == |ev| && (forall i :: 0 <= i < |at| ==> at[i] < |l| && l[at[i]] == ev[i])
            && forall i, j :: 0 <= i < j < |at| ==> at[i] < at[j]
  {
    if l == [] || mem <= target {
      at := [];
    } else {
      var took := Evictable(entries[l[0]], now, expiredOnly);
      var rest := EvictedAt(l[1..], entries, if took then mem - entries[l[0]].totalSize
                            else mem, target, now, expiredOnly);
      var shifted := seq(|rest|, i requires 0 <= i < |rest| => rest[i] + 1);
      at := if took then [0] + shifted else shifted;
    }
  }
}
