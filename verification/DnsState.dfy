/** The DNS cache as values: what the table, its lists and its counters hold together, and what
    taking entries out, using them and adding one makes of it. */
module DnsState {
  import opened Options
  import opened CaseHash
  import opened DnsBasics
  import opened DnsTable
  import opened SeqFacts

  /** The entries in the table, in the order of addition and by last use, and the reference
      counts of all entries in memory. */
  datatype Table = Table(entries: map<Id, Entry>, order: seq<Id>, lru: seq<Id>, refs: map<Id, nat>)

  /** The list has every entry of the table once. */
  ghost predicate Listed(l: seq<Id>, entries: map<Id, Entry>) {
    Unique(l) && forall x :: x in l <==> x in entries
  }

  /** Every entry is in the bucket of its name, in the order of addition. */
  ghost predicate Bucketed(order: seq<Id>, entries: map<Id, Entry>, hash: Hash, buckets: seq<seq<Id>>)
    requires forall x :: x in order ==> x in entries
  {
    |buckets| == DNS_HASH_SIZE && forall h :: 0 <= h < DNS_HASH_SIZE ==> buckets[h] == InBucket(order, entries, hash, h)
  }

  /** The table counts every entry. */
  ghost predicate Counted(entries: map<Id, Entry>, refs: map<Id, nat>) {
    forall x :: x in entries ==> x in refs && refs[x] >= 1
  }

  /** What the circles hold and the counters say. */
  ghost predicate Holding(t: Table, hash: Hash, buckets: seq<seq<Id>>, memUsed: int) {
    Listed(t.order, t.entries) && Listed(t.lru, t.entries) && Bucketed(t.order, t.entries, hash, buckets)
    && memUsed == Size(t.order, t.entries) && Counted(t.entries, t.refs)
  }

  // ----- Reference counts

  /** atomic_inc; an entry that nothing counts yet is at 0. */
  function AddRef(refs: map<Id, nat>, x: Id): map<Id, nat> {
    refs[x := 1 + if x in refs then refs[x] else 0]
  }

  /** dns_hash_put: the last reference frees the entry. */
  function PutRef(refs: map<Id, nat>, x: Id): map<Id, nat> {
    if x !in refs then refs else if refs[x] <= 1 then refs - {x} else refs[x := refs[x] - 1]
  }

  /** Taking a reference and putting it again changes no count; the last one put frees. */
  lemma HoldAndPut(refs: map<Id, nat>, x: Id)
    ensures x in refs && refs[x] >= 1 ==> PutRef(AddRef(refs, x), x) == refs
    ensures x !in refs ==> x in AddRef(refs, x) && AddRef(refs, x)[x] == 1 && PutRef(AddRef(refs, x), x) == refs
  {
  }

  function PutRefs(refs: map<Id, nat>, xs: seq<Id>): map<Id, nat>
    decreases |xs|
  {
    if xs == [] then refs else PutRef(PutRefs(refs, xs[..|xs| - 1]), xs[|xs| - 1])
  }

  lemma PutRefsNext(refs: map<Id, nat>, xs: seq<Id>, x: Id)
    ensures PutRefs(refs, xs + [x]) == PutRef(PutRefs(refs, xs), x)
  {
    assert (xs + [x])[..|xs|] == xs;
  }

  lemma {:induction false} PutRefsConcat(refs: map<Id, nat>, xs: seq<Id>, ys: seq<Id>)
    ensures PutRefs(PutRefs(refs, xs), ys) == PutRefs(refs, xs + ys)
    decreases |ys|
  {
    if ys == [] {
      assert xs + ys == xs;
    } else {
      var init, last := ys[..|ys| - 1], ys[|ys| - 1];
      PutRefsConcat(refs, xs, init);
      assert xs + ys == xs + init + [last];
      PutRefsNext(refs, xs + init, last);
    }
  }

  /** Entries that go are freed at once if only the table counts them; one that somebody
      holds stays in memory for as long as it is held. */
  lemma {:induction false} FreedUnlessHeld(refs: map<Id, nat>, xs: seq<Id>, x: Id)
    requires Unique(xs) && x in refs && refs[x] >= 1
    ensures var left := PutRefs(refs, xs);
            if x !in xs then x in left && left[x] == refs[x]
            else (x in left <==> refs[x] > 1) && (x in left ==> left[x] == refs[x] - 1)
    decreases |xs|
  {
    if xs != [] {
      var init, last := xs[..|xs| - 1], xs[|xs| - 1];
      assert xs == init + [last];
      UniqueInit(init, last);
      FreedUnlessHeld(refs, init, x);
    }
  }

  lemma {:induction false} UniqueInit(l: seq<Id>, x: Id)
    requires Unique(l + [x])
    ensures Unique(l) && x !in l
  {
    if l != [] {
      ConsConcat(l, [x]);
      assert x in l[1..] + [x];
      UniqueInit(l[1..], x);
    }
  }

  // ----- One entry less, used, or more

  function Without1(t: Table, x: Id): Table {
    Table(t.entries - {x}, Without(t.order, x), Without(t.lru, x), PutRef(t.refs, x))
  }

  function UsedLast(t: Table, x: Id): Table {
    t.(lru := Without(t.lru, x) + [x])
  }

  function Plus(t: Table, x: Id, e: Entry): Table {
    Table(t.entries[x := e], t.order + [x], t.lru + [x], AddRef(t.refs, x))
  }

  /** Where an entry stands. */
  lemma PlacesOf(t: Table, hash: Hash, buckets: seq<seq<Id>>, memUsed: int, x: Id) returns (i: nat, j: nat)
    requires Holding(t, hash, buckets, memUsed) && x in t.entries && hash(t.entries[x].name) < DNS_HASH_SIZE
    ensures i < |buckets[hash(t.entries[x].name)]| && buckets[hash(t.entries[x].name)][i] == x
    ensures j < |t.lru| && t.lru[j] == x
  {
    var h := hash(t.entries[x].name);
    InBucketMembers(t.order, t.entries, hash, h, x);
    i :| i < |buckets[h]| && buckets[h][i] == x;
    j :| j < |t.lru| && t.lru[j] == x;
  }

  lemma WithoutPlace(l: seq<Id>, x: Id, i: nat)
    requires Unique(l) && i < |l| && l[i] == x
    ensures Without(l, x) == l[..i] + l[i + 1..] && Unique(Without(l, x))
    ensures forall y :: y in Without(l, x) <==> y in l && y != x
  {
    WithoutAt(l, i);
    WithoutUnique(l, x);
    forall y ensures y in Without(l, x) <==> y in l && y != x { WithoutMembers(l, x, y); }
  }

  lemma ListedWithout(l: seq<Id>, entries: map<Id, Entry>, x: Id)
    requires Listed(l, entries) && x in entries
    ensures Listed(Without(l, x), entries - {x})
  {
    var i :| 0 <= i < |l| && l[i] == x;
    WithoutPlace(l, x, i);
  }

  lemma BucketedWithout(order: seq<Id>, entries: map<Id, Entry>, hash: Hash, buckets: seq<seq<Id>>, x: Id, h: nat)
    requires Listed(order, entries) && Bucketed(order, entries, hash, buckets)
    requires x in entries && h == hash(entries[x].name) < DNS_HASH_SIZE
    ensures forall y :: y in Without(order, x) ==> y in entries - {x}
    ensures Bucketed(Without(order, x), entries - {x}, hash, buckets[h := Without(buckets[h], x)])
  {
    ListedWithout(order, entries, x);
    forall g | 0 <= g < DNS_HASH_SIZE
      ensures InBucket(Without(order, x), entries - {x}, hash, g) == buckets[h := Without(buckets[h], x)][g]
    {
      InBucketWithout(order, entries, hash, g, x);
      InBucketMembers(order, entries, hash, g, x);
      if g != h { WithoutAbsent(buckets[g], x); }
    }
  }

  lemma CountedWithout(entries: map<Id, Entry>, refs: map<Id, nat>, x: Id)
    requires Counted(entries, refs)
    ensures Counted(entries - {x}, PutRef(refs, x))
  {
  }

  /** Taking one entry out of table, bucket, list and counters keeps them in step. */
  lemma HoldingWithout(t: Table, hash: Hash, buckets: seq<seq<Id>>, memUsed: int, x: Id, h: nat, i: nat, j: nat)
    requires Holding(t, hash, buckets, memUsed) && x in t.entries && h == hash(t.entries[x].name) < DNS_HASH_SIZE
    requires i < |buckets[h]| && buckets[h][i] == x && j < |t.lru| && t.lru[j] == x
    ensures memUsed >= t.entries[x].totalSize
    ensures Without(buckets[h], x) == buckets[h][..i] + buckets[h][i + 1..]
    ensures Without(t.lru, x) == t.lru[..j] + t.lru[j + 1..]
    ensures Holding(Without1(t, x), hash, buckets[h := Without(buckets[h], x)], memUsed - t.entries[x].totalSize)
  {
    ListedWithout(t.order, t.entries, x);
    ListedWithout(t.lru, t.entries, x);
    WithoutAt(t.lru, j);
    InBucketUnique(t.order, t.entries, hash, h);
    WithoutAt(buckets[h], i);
    BucketedWithout(t.order, t.entries, hash, buckets, x, h);
    SizeWithout(t.order, t.entries, x);
    CountedWithout(t.entries, t.refs, x);
  }

  lemma HoldingUsed(t: Table, hash: Hash, buckets: seq<seq<Id>>, memUsed: int, x: Id, j: nat)
    requires Holding(t, hash, buckets, memUsed) && j < |t.lru| && t.lru[j] == x
    ensures Without(t.lru, x) == t.lru[..j] + t.lru[j + 1..]
    ensures Holding(UsedLast(t, x), hash, buckets, memUsed)
  {
    WithoutPlace(t.lru, x, j);
    UniqueSnoc(Without(t.lru, x), x);
  }

  lemma ListedPlus(l: seq<Id>, entries: map<Id, Entry>, x: Id, e: Entry)
    requires Listed(l, entries) && x !in entries
    ensures Listed(l + [x], entries[x := e])
  {
    UniqueSnoc(l, x);
  }

  lemma BucketedPlus(order: seq<Id>, entries: map<Id, Entry>, hash: Hash, buckets: seq<seq<Id>>, x: Id, e: Entry)
    requires Listed(order, entries) && Bucketed(order, entries, hash, buckets)
    requires x !in entries && hash(e.name) < DNS_HASH_SIZE
    ensures var h := hash(e.name);
            (forall y :: y in order + [x] ==> y in entries[x := e])
            && Bucketed(order + [x], entries[x := e], hash, buckets[h := buckets[h] + [x]])
            && forall g :: 0 <= g < DNS_HASH_SIZE ==> x !in buckets[g]
  {
    var h := hash(e.name);
    forall g | 0 <= g < DNS_HASH_SIZE
      ensures x !in buckets[g] && InBucket(order + [x], entries[x := e], hash, g) == buckets[h := buckets[h] + [x]][g]
    {
      InBucketAppend(order, entries, hash, g, x, e);
      InBucketMembers(order, entries, hash, g, x);
      assert buckets[g] + [] == buckets[g];
    }
  }

  lemma HoldingPlus(t: Table, hash: Hash, buckets: seq<seq<Id>>, memUsed: int, x: Id, e: Entry)
    requires Holding(t, hash, buckets, memUsed) && x !in t.entries && hash(e.name) < DNS_HASH_SIZE
    ensures var h := hash(e.name); Holding(Plus(t, x, e), hash, buckets[h := buckets[h] + [x]], memUsed + e.totalSize)
    ensures forall g :: 0 <= g < DNS_HASH_SIZE ==> x !in buckets[g]
  {
    ListedPlus(t.order, t.entries, x, e);
    ListedPlus(t.lru, t.entries, x, e);
    BucketedPlus(t.order, t.entries, hash, buckets, x, e);
    InBucketAppend(t.order, t.entries, hash, 0, x, e);
    CountedPlus(t.entries, t.refs, x, e);
  }

  lemma CountedPlus(entries: map<Id, Entry>, refs: map<Id, nat>, x: Id, e: Entry)
    requires Counted(entries, refs)
    ensures Counted(entries[x := e], AddRef(refs, x))
  {
  }

  // ----- Several entries less, or used

  function Minus(t: Table, gone: seq<Id>): Table {
    Table(t.entries - Ids(gone), WithoutAll(t.order, gone), WithoutAll(t.lru, gone), PutRefs(t.refs, gone))
  }

  lemma MinusNone(t: Table)
    ensures Minus(t, []) == t
  {
    assert t.entries - Ids([]) == t.entries;
  }

  lemma EntriesNext(entries: map<Id, Entry>, gone: seq<Id>, x: Id)
    ensures entries - Ids(gone) - {x} == entries - Ids(gone + [x])
  {
    assert Ids(gone + [x]) == Ids(gone) + {x};
  }

  lemma MinusNext(t: Table, gone: seq<Id>, x: Id)
    ensures Minus(t, gone + [x]) == Without1(Minus(t, gone), x)
  {
    EntriesNext(t.entries, gone, x);
    WithoutAllNext(t.order, gone, x);
    WithoutAllNext(t.lru, gone, x);
    PutRefsNext(t.refs, gone, x);
  }

  lemma EntriesConcat(entries: map<Id, Entry>, a: seq<Id>, b: seq<Id>)
    ensures entries - Ids(a) - Ids(b) == entries - Ids(a + b)
  {
    assert Ids(a + b) == Ids(a) + Ids(b);
  }

  function UsedAll(t: Table, used: seq<Id>): Table {
    t.(lru := Touched(t.lru, used))
  }

  /** The table after a part of a lookup: expired entries gone, the others used in this order. */
  ghost predicate LookedUp(t: Table, was: Table, gone: seq<Id>, used: seq<Id>, now: Ticks) {
    (forall x :: x in gone ==> x in was.entries && Expired(was.entries[x], now))
    && (forall x :: x in used ==> x in was.entries && !Expired(was.entries[x], now))
    && t == UsedAll(Minus(was, gone), used)
  }

  /** More entries have expired. */
  lemma LookedUpNext(t: Table, was: Table, gone: seq<Id>, used: seq<Id>, now: Ticks, more: seq<Id>)
    requires LookedUp(t, was, gone, used, now) && forall x :: x in more ==> x in t.entries && Expired(t.entries[x], now)
    ensures LookedUp(Minus(t, more), was, gone + more, used, now)
  {
    EntriesConcat(was.entries, gone, more);
    WithoutAllConcat(was.order, gone, more);
    WithoutAllConcat(was.lru, gone, more);
    WithoutAllTouched(WithoutAll(was.lru, gone), used, more);
    PutRefsConcat(was.refs, gone, more);
  }

  /** One more is used. */
  lemma LookedUpUsed(t: Table, was: Table, gone: seq<Id>, used: seq<Id>, now: Ticks, x: Id)
    requires LookedUp(t, was, gone, used, now) && x in t.entries && !Expired(t.entries[x], now)
    ensures LookedUp(UsedLast(t, x), was, gone, used + [x], now)
  {
    assert (used + [x])[..|used|] == used;
  }

  // ----- How far a walk has come

  /** How far a lookup has come: what is asked now, the CNAMEs followed, and the last of them. */
  ghost predicate Following(l: seq<Id>, was: map<Id, Entry>, asked: Name, type_: nat, now: Ticks, chain: seq<Id>,
                            found: Option<Id>, a: Answer)
  {
    (forall x :: x in l ==> x in was) && |chain| <= MAX_CNAME_CHAIN + 1
    && found == (if chain == [] then None else Some(chain[|chain| - 1]))
    && Lookup(l, was, asked, type_, now, chain) == a
  }

  /** One CNAME more, or its end. */
  lemma FollowingNext(l: seq<Id>, was: map<Id, Entry>, asked: Name, type_: nat, now: Ticks, chain: seq<Id>,
                      found: Option<Id>, a: Answer)
    requires Following(l, was, asked, type_, now, chain, found, a)
    ensures match FirstMatch(l, was, asked, type_, now)
            case None => Found(a) == found && !a.TooLong? && Uses(a) == chain
            case Some(x) =>
              x in was
              && if was[x].type_ == type_ then Found(a) == Some(x) && !a.TooLong? && Uses(a) == chain + [x]
                 else if |chain| > MAX_CNAME_CHAIN then Found(a) == None && a.TooLong? && Uses(a) == chain + [x]
                 else Following(l, was, was[x].cname, type_, now, chain + [x], Some(x), a)
  {
  }

  ghost predicate Known(l: seq<Id>, was: map<Id, Entry>) {
    forall x :: x in l ==> x in was
  }

  /** How far a pass over a bucket has come: what is still to be met, and what is gone. */
  ghost predicate Met(bucket: seq<Id>, todo: seq<Id>, was: map<Id, Entry>, name: Name, type_: nat, now: Ticks,
                      gone: seq<Id>)
  {
    Known(bucket, was) && Known(todo, was)
    && gone + Swept(todo, was, name, type_, now) == Swept(bucket, was, name, type_, now)
    && FirstMatch(todo, was, name, type_, now) == FirstMatch(bucket, was, name, type_, now)
  }

  lemma MetStart(bucket: seq<Id>, was: map<Id, Entry>, name: Name, type_: nat, now: Ticks)
    requires forall x :: x in bucket ==> x in was
    ensures Met(bucket, bucket, was, name, type_, now, [])
  {
    assert [] + Swept(bucket, was, name, type_, now) == Swept(bucket, was, name, type_, now);
  }

  lemma MetNext(bucket: seq<Id>, todo: seq<Id>, was: map<Id, Entry>, name: Name, type_: nat, now: Ticks, gone: seq<Id>)
    requires todo != [] && Met(bucket, todo, was, name, type_, now, gone)
    ensures todo[0] in was
            && if Matches(was[todo[0]], name, type_, now) then
                 gone == Swept(bucket, was, name, type_, now)
                 && FirstMatch(bucket, was, name, type_, now) == Some(todo[0])
               else Met(bucket, todo[1..], was, name, type_, now,
                        if Expired(was[todo[0]], now) then gone + [todo[0]] else gone)
  {
    var rest := Swept(todo[1..], was, name, type_, now);
    assert gone + ([todo[0]] + rest) == gone + [todo[0]] + rest;
    assert [] + rest == rest && gone + [] == gone;
  }

  lemma MetDone(bucket: seq<Id>, was: map<Id, Entry>, name: Name, type_: nat, now: Ticks, gone: seq<Id>)
    requires Met(bucket, [], was, name, type_, now, gone)
    ensures gone == Swept(bucket, was, name, type_, now) && FirstMatch(bucket, was, name, type_, now) == None
  {
    assert gone + [] == gone;
  }

  /** How far an eviction has come: what is still to be looked at, and what is gone. */
  ghost predicate Evicting(l: seq<Id>, todo: seq<Id>, was: map<Id, Entry>, mem0: int, mem: int, target: nat,
                           now: Ticks, expiredOnly: bool, gone: seq<Id>)
  {
    Known(l, was) && Known(todo, was) && Known(gone, was) && mem + Size(gone, was) == mem0
    && gone + Evicted(todo, was, mem, target, now, expiredOnly) == Evicted(l, was, mem0, target, now, expiredOnly)
  }

  lemma EvictedFirst(todo: seq<Id>, was: map<Id, Entry>, mem: int, target: nat, now: Ticks, expiredOnly: bool)
    requires todo != [] && (forall x :: x in todo ==> x in was) && mem > target
    ensures forall x :: x in todo[1..] ==> x in was
    ensures Evicted(todo, was, mem, target, now, expiredOnly)
         == if Evictable(was[todo[0]], now, expiredOnly)
            then [todo[0]] + Evicted(todo[1..], was, mem - was[todo[0]].totalSize, target, now, expiredOnly)
            else Evicted(todo[1..], was, mem, target, now, expiredOnly)
  {
  }

  lemma EvictingNext(l: seq<Id>, todo: seq<Id>, was: map<Id, Entry>, mem0: int, mem: int, target: nat, now: Ticks,
                     expiredOnly: bool, gone: seq<Id>, took: bool, mem': int, gone': seq<Id>)
    requires todo != [] && Evicting(l, todo, was, mem0, mem, target, now, expiredOnly, gone) && mem > target
    requires took == Evictable(was[todo[0]], now, expiredOnly)
    requires mem' == mem - (if took then was[todo[0]].totalSize else 0)
    requires gone' == if took then gone + [todo[0]] else gone
    ensures Evicting(l, todo[1..], was, mem0, mem', target, now, expiredOnly, gone')
  {
    var x := todo[0];
    EvictedFirst(todo, was, mem, target, now, expiredOnly);
    if took {
      SizeSnoc(gone, was, x);
      Assoc(gone, [x], Evicted(todo[1..], was, mem', target, now, expiredOnly));
    }
  }

  lemma EvictingDone(l: seq<Id>, todo: seq<Id>, was: map<Id, Entry>, mem0: int, mem: int, target: nat, now: Ticks,
                     expiredOnly: bool, gone: seq<Id>)
    requires Evicting(l, todo, was, mem0, mem, target, now, expiredOnly, gone) && (mem <= target || todo == [])
    ensures gone == Evicted(l, was, mem0, target, now, expiredOnly) && mem == mem0 - Size(gone, was)
  {
    assert gone + [] == gone;
  }

  /** How far a cleaning has come: how many entries are still to be looked at. */
  ghost predicate Cleaning(l: seq<Id>, no: nat, todo: seq<Id>, left: nat, over: bool, was: map<Id, Entry>,
                           now: Ticks, expiredOnly: bool, gone: seq<Id>)
  {
    (forall x :: x in l + todo ==> x in was)
    && gone + (if over then [] else Cleaned(todo, was, left, now, expiredOnly)) == Cleaned(l, was, no, now, expiredOnly)
  }

  lemma CleaningNext(l: seq<Id>, no: nat, todo: seq<Id>, left: nat, was: map<Id, Entry>, now: Ticks,
                     expiredOnly: bool, gone: seq<Id>)
    requires todo != [] && Cleaning(l, no, todo, left, false, was, now, expiredOnly, gone)
    ensures Cleaning(l, no, todo[1..], if left <= 1 then 0 else left - 1, left <= 1, was, now, expiredOnly,
                     if Evictable(was[todo[0]], now, expiredOnly) then gone + [todo[0]] else gone)
  {
    var took := if Evictable(was[todo[0]], now, expiredOnly) then [todo[0]] else [];
    Assoc(gone, took, if left <= 1 then [] else Cleaned(todo[1..], was, left - 1, now, expiredOnly));
    assert gone + [] == gone;
  }

  lemma CleaningDone(l: seq<Id>, no: nat, todo: seq<Id>, left: nat, over: bool, was: map<Id, Entry>, now: Ticks,
                     expiredOnly: bool, gone: seq<Id>)
    requires Cleaning(l, no, todo, left, over, was, now, expiredOnly, gone) && (over || todo == [])
    ensures gone == Cleaned(l, was, no, now, expiredOnly)
  {
    assert gone + [] == gone;
  }

  // ----- Adding when the table is full

  /** The room made for an entry when no other process acts meanwhile: expired entries go down
      to seven eighths of what is used if it does not fit. */
  ghost predicate RoomMade(t: Table, used: int, e: Entry, now: Ticks, was: Table, wasUsed: nat, maxMem: nat,
                           gone: seq<Id>)
    requires forall y :: y in was.lru ==> y in was.entries
  {
    gone == (if wasUsed + e.totalSize < maxMem then []
             else Evicted(was.lru, was.entries, wasUsed, wasUsed / 16 * 14, now, true))
    && t == Minus(was, gone) && used == wasUsed - Size(gone, was.entries)
  }

  /** An entry that fits takes nothing out. Else expired entries go, each while more than
      fourteen sixteenths of what was used are in use, and that is met or no expired one is left. */
  lemma RoomMeaning(t: Table, used: int, e: Entry, now: Ticks, was: Table, wasUsed: nat, maxMem: nat, gone: seq<Id>)
    requires (forall y :: y in was.lru ==> y in was.entries) && RoomMade(t, used, e, now, was, wasUsed, maxMem, gone)
    ensures wasUsed + e.totalSize < maxMem ==> gone == [] && used == wasUsed
    ensures forall x :: x in gone ==> x in was.lru && ExpiredAt(was.entries[x].expire, now)
    ensures wasUsed + e.totalSize >= maxMem ==>
              (used <= wasUsed / 16 * 14
               || forall x :: x in was.lru && ExpiredAt(was.entries[x].expire, now) ==> x in gone)
              && forall k :: 0 <= k < |gone|
                  ==> gone[..k] <= gone && wasUsed - Size(gone[..k], was.entries) > wasUsed / 16 * 14
  {
    EvictionMeaning(was.lru, was.entries, wasUsed, wasUsed / 16 * 14, now, true);
  }

  /** And the entry is added if it then fits. */
  ghost predicate AddedTo(t: Table, used: int, x: Id, e: Entry, now: Ticks, was: Table, wasUsed: nat, maxMem: nat,
                          ok: bool, gone: seq<Id>)
    requires forall y :: y in was.lru ==> y in was.entries
  {
    var room, left := Minus(was, gone), used - if ok then e.totalSize else 0;
    RoomMade(room, left, e, now, was, wasUsed, maxMem, gone)
    && (ok <==> left + e.totalSize < maxMem) && t == if ok then Plus(room, x, e) else room
  }

  lemma IntoRoom(room: Table, left: nat, x: Id, e: Entry, now: Ticks, was: Table, wasUsed: nat, maxMem: nat,
                 gone: seq<Id>)
    requires forall y :: y in was.lru ==> y in was.entries
    ensures var ok := left + e.totalSize < maxMem;
            RoomMade(room, left, e, now, was, wasUsed, maxMem, gone) ==>
            AddedTo(if ok then Plus(room, x, e) else room, left + if ok then e.totalSize else 0,
                    x, e, now, was, wasUsed, maxMem, ok, gone)
  {
  }

  /** What a process does while it holds the lock. Enter is the end of dns_cache_add_unsafe,
      which looks at the memory in use; Join is that of dns_cache_add, which does not. */
  datatype Section =
    | LookUp(name: Name, type_: nat, now: Ticks)
    | Reclaim(target: nat, now: Ticks, expiredOnly: bool)
    | Sweep(no: nat, now: Ticks, expiredOnly: bool)
    | Enter(x: Id, e: Entry)
    | Join(x: Id, e: Entry)

  predicate Adds(s: Section, x: Id) {
    (s.Enter? || s.Join?) && s.x == x
  }

  predicate NoneAdds(sections: seq<Section>, x: Id) {
    forall k :: 0 <= k < |sections| ==> !Adds(sections[k], x)
  }

  predicate NoneJoins(sections: seq<Section>) {
    forall k :: 0 <= k < |sections| ==> !sections[k].Join?
  }

  function JoinedBy(s: Section): nat {
    if s.Join? then s.e.totalSize else 0
  }

  /** The sizes of all entries that join. */
  function Joined(sections: seq<Section>): nat
    decreases |sections|
  {
    if sections == [] then 0 else Joined(sections[..|sections| - 1]) + JoinedBy(sections[|sections| - 1])
  }

  lemma {:induction false} NothingJoined(sections: seq<Section>)
    ensures NoneJoins(sections) ==> Joined(sections) == 0
    decreases |sections|
  {
    if sections != [] { NothingJoined(sections[..|sections| - 1]); }
  }
}
