/** The DNS cache of one process holding the lock: hash buckets, the list of last used
    entries threaded through the same entries, and the counters. */
module DnsCache {
  import opened Options
  import opened CaseHash
  import opened DnsBasics
  import opened DnsTable
  import opened DnsState
  import opened DnsAnswers
  import opened Clist
  import opened DnsLists

  class Cache {
    var entries: map<Id, Entry>
    /** The reference counts of all entries in memory. */
    var refs: map<Id, nat>
    /** The circles: the buckets and the list of last used entries. */
    const lists: Threads
    var memUsed: nat
    const maxMem: nat
    const hash: Hash
    /** Every entry in the table, in the order of addition. */
    ghost var order: seq<Id>

    ghost function View(): Table
      reads this, lists
    {
      Table(entries, order, lists.lru, refs)
    }

    ghost predicate Valid()
      reads this, lists, lists.Repr
    {
      this !in lists.Repr && lists.Valid() && |lists.table| == DNS_HASH_SIZE && GoodHash(hash)
      && Holding(View(), hash, lists.buckets, memUsed)
    }

    constructor (max: nat, hash: Hash)
      requires GoodHash(hash)
      ensures Valid() && View() == Table(map[], [], [], map[]) && maxMem == max && this.hash == hash
      ensures fresh(lists) && fresh(lists.Repr)
    {
      entries, refs, order, memUsed, maxMem := map[], map[], [], 0, max;
      this.hash := hash;
      var threads := new Threads(DNS_HASH_SIZE);
      lists := threads;
    }

    /** What Valid comes to: going forth or back along a circle meets its links once each; an
        entry of the table has exactly one link on a bucket, that of its name, and one on
        the list of last used; and there is no link of anything else. */
    lemma OnBothCircles(x: Id)
      requires Valid()
      ensures lists.recent.Valid() && forall g :: 0 <= g < DNS_HASH_SIZE ==> lists.table[g].Valid()
      ensures x in entries <==> exists l :: l in lists.recent.elems && l.owner == x
      ensures x in entries ==>
                exists b, r ::
                  b in lists.table[hash(entries[x].name)].elems && b.owner == x && r in lists.recent.elems
                      && r.owner == x
                  && (forall g, l :: 0 <= g < DNS_HASH_SIZE && l in lists.table[g].elems && l.owner == x ==> l == b)
                  && (forall l :: l in lists.recent.elems && l.owner == x ==> l == r)
    {
      forall g | 0 <= g < DNS_HASH_SIZE ensures lists.table[g].Valid() { assert lists.InOrder(g); }
      if x in entries {
        var h := hash(entries[x].name);
        var i, j := PlacesOf(View(), hash, lists.buckets, memUsed, x);
        assert lists.InOrder(h);
        var b, r := lists.table[h].elems[i], lists.recent.elems[j];
        assert b == lists.links[x].bucket && r == lists.links[x].lru;
        forall g, l | 0 <= g < DNS_HASH_SIZE && l in lists.table[g].elems && l.owner == x ensures l == b {
          assert lists.InOrder(g);
        }
      }
      forall l | l in lists.recent.elems && l.owner == x ensures x in entries {
        var j :| 0 <= j < |lists.recent.elems| && lists.recent.elems[j] == l;
        assert lists.lru[j] == x;
      }
    }

    // ----- One entry

    /** _dns_hash_remove: both links go, and walks that stand behind the entry, at place `i` of
        its bucket or `j` of the last used, go on there; the table puts its reference. */
    method Remove(x: Id, ghost h: nat, ghost i: nat, ghost j: nat)
      requires Valid() && x in entries && h == hash(entries[x].name)
      requires i < |lists.buckets[h]| && lists.buckets[h][i] == x && j < |lists.lru| && lists.lru[j] == x
      modifies this, lists, lists.Repr
      ensures Valid() && lists.Repr == old(lists.Repr) && View() == Without1(old(View()), x)
      ensures memUsed == old(memUsed) - old(entries)[x].totalSize
      ensures lists.buckets == old(lists.buckets)[h := Without(old(lists.buckets)[h], x)]
      ensures lists.table[h].At(i) == old(lists.table[h].At(i + 1)) && lists.recent.At(j) == old(lists.recent.At(j + 1))
    {
      HoldingWithout(View(), hash, lists.buckets, memUsed, x, h, i, j);
      var entries', memUsed' := entries - {x}, memUsed - entries[x].totalSize;
      ghost var order' := Without(order, x);
      lists.Unlink(x, h, i, j);
      Recount(entries', order', PutRef(refs, x), memUsed');
    }

    /** What is no pointer is set; the circles stay as they are. */
    method Recount(entries': map<Id, Entry>, ghost order': seq<Id>, refs': map<Id, nat>, memUsed': nat)
      requires this !in lists.Repr && lists.Valid() && |lists.table| == DNS_HASH_SIZE && GoodHash(hash)
      requires Holding(Table(entries', order', lists.lru, refs'), hash, lists.buckets, memUsed')
      modifies this
      ensures Valid() && View() == Table(entries', order', lists.lru, refs') && memUsed == memUsed'
    {
      entries, order, refs, memUsed := entries', order', refs', memUsed';
    }

    /** The entry was used: to the end of the list. */
    method Touch(x: Id)
      requires Valid() && x in entries
      modifies lists, lists.Repr
      ensures Valid() && lists.Repr == old(lists.Repr) && View() == UsedLast(old(View()), x)
    {
      ghost var i, j := PlacesOf(View(), hash, lists.buckets, memUsed, x);
      HoldingUsed(View(), hash, lists.buckets, memUsed, x, j);
      lists.MoveLast(x, j);
    }

    /** The part of dns_cache_add and dns_cache_add_unsafe that counts and links the entry. */
    method Link(x: Id, e: Entry)
      requires Valid() && x !in entries
      modifies this, lists, lists.Repr
      ensures Valid() && fresh(lists.Repr - old(lists.Repr)) && View() == Plus(old(View()), x, e)
      ensures memUsed == old(memUsed) + e.totalSize && x in entries && entries[x] == e
    {
      HoldingPlus(View(), hash, lists.buckets, memUsed, x, e);
      var refs' := AddRef(refs, x);
      ghost var order' := order + [x];
      lists.Append(x, hash(e.name));
      Recount(entries[x := e], order', refs', memUsed + e.totalSize);
    }

    /** The end of dns_cache_add_unsafe: links the entry if it fits. */
    method Admit(x: Id, e: Entry) returns (ok: bool)
      requires Valid() && x !in entries
      modifies this, lists, lists.Repr
      ensures Valid() && fresh(lists.Repr - old(lists.Repr))
      ensures ok == (old(memUsed) + e.totalSize < maxMem)
      ensures (ok <==> x in entries) && (ok ==> entries[x] == e)
      ensures View() == if ok then Plus(old(View()), x, e) else old(View())
      ensures memUsed == old(memUsed) + if ok then e.totalSize else 0
    {
      ok := memUsed + e.totalSize < maxMem;
      if ok { Link(x, e); }
    }

    /** dns_hash_put by a process that holds a reference besides that of the table. */
    method Put(x: Id)
      requires Valid() && x in refs && refs[x] >= (if x in entries then 2 else 1)
      modifies this
      ensures Valid() && View() == old(View()).(refs := PutRef(old(refs), x)) && memUsed == old(memUsed)
    {
      Recount(entries, order, PutRef(refs, x), memUsed);
    }

    // ----- Walking a bucket

    /** Remove, seen by a walk that has already taken some entries out. */
    method RemoveNext(x: Id, ghost h: nat, ghost i: nat, ghost j: nat, ghost was: Table, ghost gone: seq<Id>)
      requires Valid() && x in entries && View() == Minus(was, gone) && h == hash(entries[x].name)
      requires i < |lists.buckets[h]| && lists.buckets[h][i] == x && j < |lists.lru| && lists.lru[j] == x
      modifies this, lists, lists.Repr
      ensures Valid() && lists.Repr == old(lists.Repr) && View() == Minus(was, gone + [x])
      ensures memUsed == old(memUsed) - old(entries)[x].totalSize
      ensures lists.lru == Without(old(lists.lru), x)
      ensures lists.buckets == old(lists.buckets)[h := Without(old(lists.buckets)[h], x)]
      ensures lists.table[h].At(i) == old(lists.table[h].At(i + 1)) && lists.recent.At(j) == old(lists.recent.At(j + 1))
    {
      MinusNext(was, gone, x);
      Remove(x, h, i, j);
    }

    /** The entry at a place of a bucket. */
    lemma InItsBucket(h: nat, i: nat)
      requires Valid() && h < DNS_HASH_SIZE && i < |lists.buckets[h]|
      ensures var x := lists.buckets[h][i];
              x in entries && hash(entries[x].name) == h
              && Without(lists.buckets[h], x) == lists.buckets[h][..i] + lists.buckets[h][i + 1..]
    {
      InBucketMembers(order, entries, hash, h, lists.buckets[h][i]);
      InBucketUnique(order, entries, hash, h);
      WithoutAt(lists.buckets[h], i);
    }

    /** The removal of the entry a walk over a bucket stands at; the walk goes on with the link
        it has saved, which is now at the same place. */
    method RemoveAt(x: Id, h: nat, ghost i: nat, ghost was: Table, ghost gone: seq<Id>)
      requires Valid() && h < DNS_HASH_SIZE && i < |lists.buckets[h]| && x == lists.buckets[h][i]
      requires View() == Minus(was, gone)
      modifies this, lists, lists.Repr
      ensures Valid() && lists.Repr == old(lists.Repr) && View() == Minus(was, gone + [x]) && memUsed <= old(memUsed)
      ensures i <= |lists.buckets[h]| && lists.buckets[h][i..] == old(lists.buckets)[h][i + 1..]
      ensures lists.table[h].At(i) == old(lists.table[h].At(i + 1))
    {
      InItsBucket(h, i);
      ghost var before, rest := lists.buckets[h][..i], lists.buckets[h][i + 1..];
      ghost var i', j := PlacesOf(View(), hash, lists.buckets, memUsed, x);
      RemoveNext(x, h, i, j, was, gone);
      assert (before + rest)[i..] == rest;
    }

    /** What the walk over a bucket does with an expired entry; `next` is the place of the link
        that was saved. */
    method Pass(e: Link, h: nat, ghost i: nat, now: Ticks, ghost was: Table, ghost todo: seq<Id>, ghost gone: seq<Id>)
      returns (x: Id, expired: bool, ghost next: nat, ghost gone': seq<Id>)
      requires Valid() && h < DNS_HASH_SIZE && i < |lists.buckets[h]| && e == lists.table[h].At(i)
      requires View() == Minus(was, gone) && lists.buckets[h][i..] == todo
      modifies this, lists, lists.Repr
      ensures Valid() && lists.Repr == old(lists.Repr) && View() == Minus(was, gone') && memUsed <= old(memUsed)
      ensures x == todo[0] && x in was.entries && expired == Expired(was.entries[x], now)
      ensures if expired then gone' == gone + [x] else gone' == gone && x in entries && entries[x] == was.entries[x]
      ensures next <= |lists.buckets[h]| && lists.buckets[h][next..] == todo[1..]
      ensures lists.table[h].At(next) == old(lists.table[h].At(i + 1))
    {
      lists.BucketRound(h, i);
      InItsBucket(h, i);
      x := e.owner;
      assert x == todo[0] && lists.buckets[h][i..][1..] == lists.buckets[h][i + 1..];
      expired := Expired(entries[x], now);
      if expired {
        gone' := gone + [x];
        RemoveAt(x, h, i, was, gone);
        next := i;
      } else {
        gone' := gone;
        next := i + 1;
      }
    }

    /** Where a walk over a bucket stands: at this link, with the next one saved, and these
        entries still to come. */
    ghost predicate Within(h: nat, e: Link, tmp: Link, i: nat, todo: seq<Id>)
      requires h < |lists.table|
      reads lists, lists.table[h]
    {
      h < |lists.buckets| && i <= |lists.buckets[h]| && lists.buckets[h][i..] == todo && e == lists.table[h].At(i)
      && (todo != [] ==> tmp == lists.table[h].At(i + 1)) && (e == lists.table[h].head <==> todo == [])
    }

    /** The step of clist_foreach_safe. */
    method StepIn(h: nat, tmp: Link, ghost i: nat) returns (e: Link, tmp': Link)
      requires Valid() && h < DNS_HASH_SIZE && i <= |lists.buckets[h]| && tmp == lists.table[h].At(i)
      ensures Within(h, e, tmp', i, lists.buckets[h][i..])
    {
      e := tmp;
      tmp' := lists.BucketNext(h, e, i);
      lists.BucketRound(h, i);
    }

    /** The beginning of clist_foreach_safe. */
    method StartIn(h: nat) returns (e: Link, tmp: Link)
      requires Valid() && h < DNS_HASH_SIZE
      ensures Within(h, e, tmp, 0, lists.buckets[h])
    {
      assert lists.InOrder(h);
      e := lists.BucketNext(h, lists.table[h].head, |lists.buckets[h]|);
      e, tmp := StepIn(h, e, 0);
      assert lists.buckets[h][0..] == lists.buckets[h];
    }

    /** One round of the walk of _dns_hash_find. */
    method Meet(h: nat, e: Link, tmp: Link, ghost i: nat, ghost todo: seq<Id>, name: Name, type_: nat, now: Ticks,
                ghost bucket: seq<Id>, ghost was: Table, ghost gone: seq<Id>)
      returns (hit: Option<Id>, e': Link, tmp': Link, ghost i': nat, ghost gone': seq<Id>)
      requires Valid() && h < DNS_HASH_SIZE && todo != [] && Within(h, e, tmp, i, todo)
      requires View() == Minus(was, gone) && Met(bucket, todo, was.entries, name, type_, now, gone)
      modifies this, lists, lists.Repr
      ensures Valid() && lists.Repr == old(lists.Repr) && View() == Minus(was, gone') && memUsed <= old(memUsed)
      ensures if hit.Some? then
                gone' == Swept(bucket, was.entries, name, type_, now)
                && FirstMatch(bucket, was.entries, name, type_, now) == hit
              else Within(h, e', tmp', i', todo[1..]) && Met(bucket, todo[1..], was.entries, name, type_, now, gone')
    {
      MetNext(bucket, todo, was.entries, name, type_, now, gone);
      hit, e', tmp' := None, e, tmp;
      var x, expired;
      x, expired, i', gone' := Pass(e, h, i, now, was, todo, gone);
      if !expired && Matches(entries[x], name, type_, now) {
        hit := Some(x);
      } else {
        e', tmp' := StepIn(h, tmp, i');
      }
    }

    /** One pass of _dns_hash_find over a bucket: expired entries go, the first match stays. */
    method Scan(name: Name, type_: nat, now: Ticks) returns (hit: Option<Id>, ghost gone: seq<Id>)
      requires Valid()
      modifies this, lists, lists.Repr
      ensures Valid() && lists.Repr == old(lists.Repr) && View() == Minus(old(View()), gone) && memUsed <= old(memUsed)
      ensures hit == FirstMatch(old(order), old(entries), name, type_, now)
      ensures forall x :: x in old(lists.buckets)[hash(name)] ==> x in old(entries)
      ensures gone == Swept(old(lists.buckets)[hash(name)], old(entries), name, type_, now)
    {
      BucketSearch(order, entries, hash, name, type_, now);
      hit, gone := Walk(hash(name), name, type_, now, View(), lists.buckets[hash(name)]);
    }

    /** The walk of _dns_hash_find along a bucket. */
    method Walk(h: nat, name: Name, type_: nat, now: Ticks, ghost was: Table, ghost bucket: seq<Id>)
      returns (hit: Option<Id>, ghost gone: seq<Id>)
      requires Valid() && View() == was && h < DNS_HASH_SIZE && lists.buckets[h] == bucket
      requires forall x :: x in bucket ==> x in was.entries
      modifies this, lists, lists.Repr
      ensures Valid() && lists.Repr == old(lists.Repr) && View() == Minus(was, gone) && memUsed <= old(memUsed)
      ensures hit == FirstMatch(bucket, was.entries, name, type_, now)
      ensures gone == Swept(bucket, was.entries, name, type_, now)
    {
      MinusNone(was);
      MetStart(bucket, was.entries, name, type_, now);
      hit, gone := None, [];
      ghost var i, todo := 0, bucket;
      var e, tmp := StartIn(h);
      while e != lists.table[h].head
        invariant Valid() && lists.Repr == old(lists.Repr) && View() == Minus(was, gone) && memUsed <= old(memUsed)
        invariant Within(h, e, tmp, i, todo) && hit == None && Met(bucket, todo, was.entries, name, type_, now, gone)
        decreases |todo|
      {
        hit, e, tmp, i, gone := Meet(h, e, tmp, i, todo, name, type_, now, bucket, was, gone);
        if hit.Some? { return; }
        todo := todo[1..];
      }
      MetDone(bucket, was.entries, name, type_, now, gone);
    }

    // ----- Looking up

    /** Scan, seen from the start of the lookup. */
    method ScanNext(name: Name, type_: nat, now: Ticks, ghost was: Table, ghost gone: seq<Id>, ghost used: seq<Id>)
      returns (hit: Option<Id>, ghost gone': seq<Id>)
      requires Valid() && LookedUp(View(), was, gone, used, now)
      requires Unique(was.order) && forall x :: x in was.order ==> x in was.entries
      modifies this, lists, lists.Repr
      ensures Valid() && lists.Repr == old(lists.Repr) && LookedUp(View(), was, gone', used, now)
              && memUsed <= old(memUsed)
      ensures hit == FirstMatch(was.order, was.entries, name, type_, now)
      ensures hit.Some? ==>
                hit.value in entries && entries[hit.value] == was.entries[hit.value]
                    && !Expired(entries[hit.value], now)
    {
      GoneIsInvisible(was.order, was.entries, gone, name, type_, now);
      ghost var more, t, bucket := [], View(), lists.buckets[hash(name)];
      hit, more := Scan(name, type_, now);
      forall x | x in more ensures x in t.entries && Expired(t.entries[x], now) {
        SweptExpired(bucket, t.entries, name, type_, now, x);
      }
      gone' := gone + more;
      LookedUpNext(t, was, gone, used, now, more);
    }

    /** One CNAME, or the answer, of a lookup: found, and used. */
    method Follow(name: Name, type_: nat, now: Ticks, ghost was: Table, ghost gone: seq<Id>, ghost used: seq<Id>)
      returns (hit: Option<Id>, ghost gone': seq<Id>)
      requires Valid() && LookedUp(View(), was, gone, used, now)
      requires Unique(was.order) && forall x :: x in was.order ==> x in was.entries
      modifies this, lists, lists.Repr
      ensures Valid() && lists.Repr == old(lists.Repr) && memUsed <= old(memUsed)
      ensures LookedUp(View(), was, gone', if hit.Some? then used + [hit.value] else used, now)
      ensures hit == FirstMatch(was.order, was.entries, name, type_, now)
      ensures hit.Some? ==> hit.value in entries && entries[hit.value] == was.entries[hit.value]
    {
      hit, gone' := ScanNext(name, type_, now, was, gone, used);
      if hit.Some? {
        LookedUpUsed(View(), was, gone', used, now, hit.value);
        Touch(hit.value);
      }
    }

    /** _dns_hash_find: the answer is that of the entries for the name, its case ignored; expired
        entries go, and no answer changes by that. */
    method Find(name: Name, type_: nat, now: Ticks) returns (found: Option<Id>, err: bool, ghost gone: seq<Id>)
      requires Valid()
      modifies this, lists, lists.Repr
      ensures Valid() && lists.Repr == old(lists.Repr) && memUsed <= old(memUsed)
      ensures var a := Lookup(old(order), old(entries), name, type_, now, []);
              found == Found(a) && err == a.TooLong? && LookedUp(View(), old(View()), gone, Uses(a), now)
              && AnswerFor(old(order), old(entries), name, type_, now, a)
      ensures SameAnswers(View(), old(View()), now)
    {
      ghost var was := View();
      LookupAnswers(order, entries, name, type_, now);
      found, err, gone := FollowAll(name, type_, now);
      LookedUpUnseen(View(), was, gone, Uses(Lookup(was.order, was.entries, name, type_, now, [])), now);
    }

    /** Its loop over the CNAMEs. */
    method FollowAll(name: Name, type_: nat, now: Ticks) returns (found: Option<Id>, err: bool, ghost gone: seq<Id>)
      requires Valid()
      modifies this, lists, lists.Repr
      ensures Valid() && lists.Repr == old(lists.Repr) && memUsed <= old(memUsed)
      ensures var a := Lookup(old(order), old(entries), name, type_, now, []);
              found == Found(a) && err == a.TooLong? && LookedUp(View(), old(View()), gone, Uses(a), now)
    {
      ghost var was, chain: seq<Id> := View(), [];
      ghost var a := Lookup(order, entries, name, type_, now, []);
      var asked := name;
      var links := 0;
      MinusNone(was);
      found, err, gone := None, false, [];
      while true
        invariant Valid() && lists.Repr == old(lists.Repr) && memUsed <= old(memUsed)
        invariant links == |chain| <= MAX_CNAME_CHAIN + 1 && !err && LookedUp(View(), was, gone, chain, now)
        invariant Following(was.order, was.entries, asked, type_, now, chain, found, a)
        decreases MAX_CNAME_CHAIN + 1 - links
      {
        var hit;
        FollowingNext(was.order, was.entries, asked, type_, now, chain, found, a);
        hit, gone := Follow(asked, type_, now, was, gone, chain);
        if hit.None? { return; }
        if entries[hit.value].type_ == type_ {
          found := hit;
          return;
        }
        if links > MAX_CNAME_CHAIN {
          found, err := None, true;
          return;
        }
        found := hit;
        links := links + 1;
        asked := entries[hit.value].cname;
        chain := chain + [hit.value];
      }
    }

    /** dns_hash_get: what is found is counted before the lock is given back. */
    method Get(name: Name, type_: nat, now: Ticks) returns (found: Option<Id>, err: bool, ghost gone: seq<Id>)
      requires Valid()
      modifies this, lists, lists.Repr
      ensures Valid() && lists.Repr == old(lists.Repr)
      ensures var a := Lookup(old(order), old(entries), name, type_, now, []);
              found == Found(a) && err == a.TooLong? && AnswerFor(old(order), old(entries), name, type_, now, a)
              && exists t ::
                   LookedUp(t, old(View()), gone, Uses(a), now)
                   && View() == if found.Some? then t.(refs := AddRef(t.refs, found.value)) else t
    {
      found, err, gone := Find(name, type_, now);
      ghost var t := View();
      if found.Some? { Hold(found.value); }
      assert View() == if found.Some? then t.(refs := AddRef(t.refs, found.value)) else t;
    }

    /** atomic_inc on the count of an entry. */
    method Hold(x: Id)
      requires Valid()
      modifies this
      ensures Valid() && View() == old(View()).(refs := AddRef(old(refs), x)) && memUsed == old(memUsed)
    {
      Recount(entries, order, AddRef(refs, x), memUsed);
    }

    // ----- Walking the list of last used

    /** The removal of the entry a walk over the list of last used stands at. */
    method RemoveListed(x: Id, ghost j: nat, ghost was: Table, ghost gone: seq<Id>)
      requires Valid() && j < |lists.lru| && x == lists.lru[j] && View() == Minus(was, gone)
      modifies this, lists, lists.Repr
      ensures Valid() && lists.Repr == old(lists.Repr) && View() == Minus(was, gone + [x])
      ensures x in was.entries && memUsed == old(memUsed) - was.entries[x].totalSize
      ensures j <= |lists.lru| && lists.lru[j..] == old(lists.lru)[j + 1..]
      ensures lists.recent.At(j) == old(lists.recent.At(j + 1))
    {
      ghost var before, rest := lists.lru[..j], lists.lru[j + 1..];
      assert lists.lru[j] in lists.lru;
      WithoutAt(lists.lru, j);
      ghost var i, j' := PlacesOf(View(), hash, lists.buckets, memUsed, x);
      RemoveNext(x, hash(entries[x].name), i, j, was, gone);
      assert (before + rest)[j..] == rest;
    }

    /** The body of the walks over the list of last used; `next` is the place of the link that
        was saved. */
    method Consider(e: Link, ghost j: nat, now: Ticks, expiredOnly: bool, ghost was: Table, ghost todo: seq<Id>,
                    ghost gone: seq<Id>)
      returns (took: bool, ghost next: nat, ghost gone': seq<Id>)
      requires Valid() && j < |lists.lru| && e == lists.recent.At(j)
      requires View() == Minus(was, gone) && lists.lru[j..] == todo
      modifies this, lists, lists.Repr
      ensures Valid() && lists.Repr == old(lists.Repr) && View() == Minus(was, gone')
      ensures todo[0] in was.entries && took == Evictable(was.entries[todo[0]], now, expiredOnly)
      ensures gone' == if took then gone + [todo[0]] else gone
      ensures memUsed == old(memUsed) - if took then was.entries[todo[0]].totalSize else 0
      ensures next <= |lists.lru| && lists.lru[next..] == todo[1..]
      ensures lists.recent.At(next) == old(lists.recent.At(j + 1))
    {
      lists.LruRound(j);
      var x := e.owner;
      assert lists.lru[j] in lists.lru && x == todo[0] && lists.lru[j..][1..] == lists.lru[j + 1..];
      took := !expiredOnly || Expired(entries[x], now);
      if took {
        gone' := gone + [x];
        RemoveListed(x, j, was, gone);
        next := j;
      } else {
        gone' := gone;
        next := j + 1;
      }
    }

    /** Where a walk over the list of last used stands: at this link, with the next one saved,
        and these entries still to come. */
    ghost predicate At(e: Link, tmp: Link, j: nat, todo: seq<Id>)
      reads lists, lists.recent
    {
      j <= |lists.lru| && lists.lru[j..] == todo && e == lists.recent.At(j)
      && (todo != [] ==> tmp == lists.recent.At(j + 1)) && (e == lists.recent.head <==> todo == [])
    }

    /** The step of clist_foreach_safe. */
    method Step(tmp: Link, ghost j: nat) returns (e: Link, tmp': Link)
      requires Valid() && j <= |lists.lru| && tmp == lists.recent.At(j)
      ensures At(e, tmp', j, lists.lru[j..])
    {
      e := tmp;
      tmp' := lists.LruNext(e, j);
      lists.LruRound(j);
    }

    /** The beginning of clist_foreach_safe. */
    method StartAt() returns (e: Link, tmp: Link)
      requires Valid()
      ensures At(e, tmp, 0, lists.lru)
    {
      e := lists.LruNext(lists.recent.head, |lists.lru|);
      e, tmp := Step(e, 0);
      assert lists.lru[0..] == lists.lru;
    }

    /** One round of the walks over the list of last used. */
    method Round(e: Link, tmp: Link, ghost j: nat, now: Ticks, expiredOnly: bool, ghost todo: seq<Id>, ghost was: Table,
                 ghost gone: seq<Id>)
      returns (took: bool, e': Link, tmp': Link, ghost j': nat, ghost gone': seq<Id>)
      requires Valid() && todo != [] && At(e, tmp, j, todo) && View() == Minus(was, gone)
      modifies this, lists, lists.Repr
      ensures Valid() && lists.Repr == old(lists.Repr) && View() == Minus(was, gone') && At(e', tmp', j', todo[1..])
      ensures todo[0] in was.entries && took == Evictable(was.entries[todo[0]], now, expiredOnly)
      ensures gone' == if took then gone + [todo[0]] else gone
      ensures memUsed == old(memUsed) - if took then was.entries[todo[0]].totalSize else 0
    {
      took, j', gone' := Consider(e, j, now, expiredOnly, was, todo, gone);
      e', tmp' := Step(tmp, j');
    }

    /** Round, seen by dns_cache_free_mem. */
    method EvictOne(e: Link, tmp: Link, ghost j: nat, ghost target: nat, now: Ticks, expiredOnly: bool,
                    ghost todo: seq<Id>, ghost was: Table, ghost wasUsed: nat, ghost gone: seq<Id>)
      returns (took: bool, e': Link, tmp': Link, ghost j': nat, ghost gone': seq<Id>)
      requires Valid() && todo != [] && At(e, tmp, j, todo) && View() == Minus(was, gone) && memUsed > target
      requires Evicting(was.lru, todo, was.entries, wasUsed, memUsed, target, now, expiredOnly, gone)
      modifies this, lists, lists.Repr
      ensures Valid() && lists.Repr == old(lists.Repr) && View() == Minus(was, gone') && At(e', tmp', j', todo[1..])
      ensures Evicting(was.lru, todo[1..], was.entries, wasUsed, memUsed, target, now, expiredOnly, gone')
      ensures |gone'| == |gone| + if took then 1 else 0
    {
      took, e', tmp', j', gone' := Round(e, tmp, j, now, expiredOnly, todo, was, gone);
      EvictingNext(was.lru, todo, was.entries, wasUsed, old(memUsed), target, now, expiredOnly, gone, took, memUsed,
                   gone');
    }

    /** dns_cache_free_mem: evicts from the least recently used end until the target is met. */
    method FreeMem(target: nat, now: Ticks, expiredOnly: bool) returns (deleted: nat, ghost gone: seq<Id>)
      requires Valid()
      modifies this, lists, lists.Repr
      ensures Valid() && lists.Repr == old(lists.Repr) && View() == Minus(old(View()), gone)
      ensures gone == Evicted(old(lists.lru), old(entries), old(memUsed), target, now, expiredOnly) && deleted == |gone|
      ensures memUsed == old(memUsed) - Size(gone, old(entries))
      ensures expiredOnly ==> SameAnswers(View(), old(View()), now)
    {
      ghost var was := View();
      deleted, gone := Reclaim(target, now, expiredOnly);
      EvictedUnseen(was, old(memUsed), target, now, expiredOnly, gone);
    }

    /** Its walk. */
    method Reclaim(target: nat, now: Ticks, expiredOnly: bool) returns (deleted: nat, ghost gone: seq<Id>)
      requires Valid()
      modifies this, lists, lists.Repr
      ensures Valid() && lists.Repr == old(lists.Repr) && View() == Minus(old(View()), gone)
      ensures gone == Evicted(old(lists.lru), old(entries), old(memUsed), target, now, expiredOnly) && deleted == |gone|
      ensures memUsed == old(memUsed) - Size(gone, old(entries))
    {
      ghost var was, wasUsed := View(), memUsed;
      ghost var j, todo := 0, lists.lru;
      deleted, gone := 0, [];
      MinusNone(was);
      var e, tmp := StartAt();
      while e != lists.recent.head
        invariant Valid() && lists.Repr == old(lists.Repr) && View() == Minus(was, gone) && deleted == |gone|
        invariant At(e, tmp, j, todo)
        invariant Evicting(was.lru, todo, was.entries, wasUsed, memUsed, target, now, expiredOnly, gone)
        decreases |todo|
      {
        if memUsed <= target { break; }
        var took;
        took, e, tmp, j, gone := EvictOne(e, tmp, j, target, now, expiredOnly, todo, was, wasUsed, gone);
        todo := todo[1..];
        if took { deleted := deleted + 1; }
      }
      EvictingDone(was.lru, todo, was.entries, wasUsed, memUsed, target, now, expiredOnly, gone);
    }

    /** dns_cache_clean: looks at the `no` least recently used entries, at one at least. */
    method Clean(no: nat, now: Ticks, expiredOnly: bool) returns (deleted: nat, ghost gone: seq<Id>)
      requires Valid()
      modifies this, lists, lists.Repr
      ensures Valid() && lists.Repr == old(lists.Repr) && View() == Minus(old(View()), gone) && memUsed <= old(memUsed)
      ensures gone == Cleaned(old(lists.lru), old(entries), no, now, expiredOnly) && deleted == |gone|
      ensures expiredOnly ==> SameAnswers(View(), old(View()), now)
    {
      ghost var was := View();
      deleted, gone := Sweep(no, now, expiredOnly);
      CleanedUnseen(was, no, now, expiredOnly, gone);
    }

    /** Its walk. */
    method Sweep(no: nat, now: Ticks, expiredOnly: bool) returns (deleted: nat, ghost gone: seq<Id>)
      requires Valid()
      modifies this, lists, lists.Repr
      ensures Valid() && lists.Repr == old(lists.Repr) && View() == Minus(old(View()), gone) && memUsed <= old(memUsed)
      ensures gone == Cleaned(old(lists.lru), old(entries), no, now, expiredOnly) && deleted == |gone|
    {
      ghost var was := View();
      var n: nat := 0;
      ghost var j, todo, left, over := 0, lists.lru, no, false;
      deleted, gone := 0, [];
      MinusNone(was);
      var e, tmp := StartAt();
      while e != lists.recent.head
        invariant Valid() && lists.Repr == old(lists.Repr) && View() == Minus(was, gone) && deleted == |gone|
        invariant memUsed <= old(memUsed) && At(e, tmp, j, todo) && !over
        invariant if n == 0 then left == no else left + n == no && left > 0
        invariant Cleaning(was.lru, no, todo, left, over, was.entries, now, expiredOnly, gone)
        decreases |todo|
      {
        CleaningNext(was.lru, no, todo, left, was.entries, now, expiredOnly, gone);
        var took;
        took, e, tmp, j, gone := Round(e, tmp, j, now, expiredOnly, todo, was, gone);
        todo, left, over := todo[1..], if left <= 1 then 0 else left - 1, left <= 1;
        if took { deleted := deleted + 1; }
        n := n + 1;
        if n >= no { break; }
      }
      CleaningDone(was.lru, no, todo, left, over, was.entries, now, expiredOnly, gone);
    }

    // ----- Adding

    /** What other processes do with the lock in turn, while this one has given it up; `mine` is
        an entry that no one else knows. They pass the maximum by no more than what joins. */
    method Others(sections: seq<Section>, ghost mine: Id)
      requires Valid() && mine !in entries && NoneAdds(sections, mine)
      modifies this, lists, lists.Repr
      ensures Valid() && fresh(lists.Repr - old(lists.Repr)) && mine !in entries
      ensures memUsed < maxMem + Joined(sections) || memUsed <= old(memUsed) + Joined(sections)
      ensures sections == [] ==> View() == old(View()) && memUsed == old(memUsed)
    {
      var k := 0;
      assert sections[..0] == [];
      while k < |sections|
        invariant 0 <= k <= |sections| && Valid() && fresh(lists.Repr - old(lists.Repr)) && mine !in entries
        invariant memUsed < maxMem + Joined(sections[..k]) || memUsed <= old(memUsed) + Joined(sections[..k])
        invariant k == 0 ==> View() == old(View()) && memUsed == old(memUsed)
      {
        assert sections[..k + 1][..k] == sections[..k];
        OtherOne(sections[k], mine);
        k := k + 1;
      }
      assert sections[..k] == sections;
    }

    method OtherOne(s: Section, ghost mine: Id)
      requires Valid() && mine !in entries && !Adds(s, mine)
      modifies this, lists, lists.Repr
      ensures Valid() && fresh(lists.Repr - old(lists.Repr)) && mine !in entries
      ensures memUsed < maxMem || memUsed <= old(memUsed) + JoinedBy(s)
    {
      match s {
        case LookUp(name, type_, now) =>
          var found, err, gone := Find(name, type_, now);
        case Reclaim(target, now, expiredOnly) =>
          var deleted, gone := FreeMem(target, now, expiredOnly);
        case Sweep(no, now, expiredOnly) =>
          var deleted, gone := Clean(no, now, expiredOnly);
        case Enter(x, e) =>
          if x !in entries { var ok := Admit(x, e); }
        case Join(x, e) =>
          if x !in entries { Link(x, e); }
      }
    }

    /** The freeing of a full table, without the lock: others may act before and after. */
    method MakeRoom(ghost x: Id, now: Ticks, before: seq<Section>, after: seq<Section>) returns (ghost gone: seq<Id>)
      requires Valid() && x !in entries && NoneAdds(before, x) && NoneAdds(after, x)
      modifies this, lists, lists.Repr
      ensures Valid() && fresh(lists.Repr - old(lists.Repr)) && x !in entries
      ensures old(memUsed) < maxMem ==> memUsed < maxMem + Joined(before) + Joined(after)
      ensures before == [] && after == [] ==>
                gone == Evicted(old(lists.lru), old(entries), old(memUsed), old(memUsed) / 16 * 14, now, true)
                && View() == Minus(old(View()), gone) && memUsed == old(memUsed) - Size(gone, old(entries))
    {
      Others(before, x);
      gone := FreeSome(x, now);
      Others(after, x);
    }

    method FreeSome(ghost x: Id, now: Ticks) returns (ghost gone: seq<Id>)
      requires Valid() && x !in entries
      modifies this, lists, lists.Repr
      ensures Valid() && lists.Repr == old(lists.Repr) && x !in entries && memUsed <= old(memUsed)
      ensures gone == Evicted(old(lists.lru), old(entries), old(memUsed), old(memUsed) / 16 * 14, now, true)
      ensures View() == Minus(old(View()), gone) && memUsed == old(memUsed) - Size(gone, old(entries))
    {
      var deleted;
      deleted, gone := FreeMem(memUsed / 16 * 14, now, true);
    }

    /** The look at the memory in use, and the freeing if the entry does not fit. */
    method RoomFor(x: Id, e: Entry, now: Ticks, before: seq<Section>, after: seq<Section>)
      returns (fits: bool, ghost gone: seq<Id>)
      requires Valid() && x !in entries && NoneAdds(before, x) && NoneAdds(after, x)
      modifies this, lists, lists.Repr
      ensures Valid() && fresh(lists.Repr - old(lists.Repr)) && x !in entries
      ensures fits <==> memUsed + e.totalSize < maxMem
      ensures old(memUsed) < maxMem ==> memUsed < maxMem + Joined(before) + Joined(after)
      ensures old(memUsed) + e.totalSize < maxMem || (before == [] && after == []) ==>
                RoomMade(View(), memUsed, e, now, old(View()), old(memUsed), maxMem, gone)
    {
      gone := [];
      MinusNone(View());
      if memUsed + e.totalSize >= maxMem { gone := MakeRoom(x, now, before, after); }
      fits := memUsed + e.totalSize < maxMem;
    }

    /** dns_cache_add_unsafe: a full table first gives up expired entries down to seven
        eighths of what it uses, without the lock: others may act before and after. Whatever
        they do, nothing is added unless less than the maximum is then in use; but what
        joins meanwhile may pass the maximum by its own size. */
    method Add(x: Id, e: Entry, now: Ticks, before: seq<Section>, after: seq<Section>)
      returns (ok: bool, ghost gone: seq<Id>)
      requires Valid() && x !in entries && NoneAdds(before, x) && NoneAdds(after, x)
      modifies this, lists, lists.Repr
      ensures Valid() && fresh(lists.Repr - old(lists.Repr))
      ensures (ok <==> x in entries) && (ok ==> entries[x] == e && memUsed < maxMem)
      ensures old(memUsed) < maxMem ==> memUsed < maxMem + Joined(before) + Joined(after)
      ensures old(memUsed) < maxMem && NoneJoins(before) && NoneJoins(after) ==> memUsed < maxMem
      ensures old(memUsed) + e.totalSize < maxMem || (before == [] && after == []) ==>
                AddedTo(View(), memUsed, x, e, now, old(View()), old(memUsed), maxMem, ok, gone)
    {
      NothingJoined(before);
      NothingJoined(after);
      ok, gone := RoomFor(x, e, now, before, after);
      IntoRoom(View(), memUsed, x, e, now, old(View()), old(memUsed), maxMem, gone);
      ok := Admit(x, e);
    }

    /** dns_cache_add: looks at the memory in use before it takes the lock, so that others may
        act between the look and the link, which is made in any case. */
    method AddLate(x: Id, e: Entry, now: Ticks, before: seq<Section>, after: seq<Section>, late: seq<Section>)
      returns (ok: bool)
      requires Valid() && x !in entries && NoneAdds(before, x) && NoneAdds(after, x) && NoneAdds(late, x)
      modifies this, lists, lists.Repr
      ensures Valid() && fresh(lists.Repr - old(lists.Repr))
      ensures (ok <==> x in entries) && (ok ==> entries[x] == e)
      ensures ok ==> memUsed < maxMem + e.totalSize + Joined(late)
      ensures ok && late == [] ==> memUsed < maxMem
    {
      ghost var gone;
      ok, gone := RoomFor(x, e, now, before, after);
      if ok { LinkLate(x, e, late); }
    }

    method LinkLate(x: Id, e: Entry, late: seq<Section>)
      requires Valid() && x !in entries && NoneAdds(late, x) && memUsed + e.totalSize < maxMem
      modifies this, lists, lists.Repr
      ensures Valid() && fresh(lists.Repr - old(lists.Repr)) && x in entries && entries[x] == e
      ensures memUsed < maxMem + e.totalSize + Joined(late) && (late == [] ==> memUsed < maxMem)
    {
      Others(late, x);
      Link(x, e);
    }
  }
}
