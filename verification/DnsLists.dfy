/** The pointers of the DNS cache: every entry is on the circle of its hash bucket and on the
    circle of last used entries, through links that are part of it. */
module DnsLists {
  import opened Clist
  import opened DnsTable

  /** The two links in an entry. */
  datatype Links = Links(bucket: Link, lru: Link)

  function Owners(s: seq<Link>): (r: seq<Id>)
    ensures |r| == |s|
  {
    seq(|s|, i requires 0 <= i < |s| => s[i].owner)
  }

  class Threads {
    /** dns_hash: the heads of the buckets; bucket h is circle number h. */
    const table: seq<Ring>
    /** dns_last_used_lst: circle number |table|. */
    const recent: Ring
    var links: map<Id, Links>
    /** The entries on each circle, in order. */
    ghost var buckets: seq<seq<Id>>
    ghost var lru: seq<Id>
    ghost var Repr: set<object>

    /** A circle of the cache is well formed, numbered, and made of the links of these entries. */
    ghost predicate Threaded(r: Ring, number: nat, ids: seq<Id>)
      reads this, r, r.head, r.elems
    {
      r.Valid() && r.head.ring == number && Owners(r.elems) == ids
      && forall x :: x in r.elems ==> x.owner in links && x == Part(x.owner, number)
    }

    /** The link of an entry on a circle. */
    ghost function Part(x: Id, number: nat): Link
      requires x in links
      reads this
    {
      if number == |table| then links[x].lru else links[x].bucket
    }

    ghost predicate Own(r: Ring)
      reads this, r
    {
      r in Repr && r.head in Repr && forall x :: x in r.elems ==> x in Repr
    }

    ghost predicate Valid()
      reads this, Repr
    {
      this !in Repr && |buckets| == |table|
      && recent in Repr && Own(recent) && Threaded(recent, |table|, lru)
      && BucketsBut(|table|)
      && forall x :: x in links ==> links[x].bucket.owner == x == links[x].lru.owner
    }

    /** All buckets are in order, but perhaps one. */
    ghost predicate BucketsBut(but: nat)
      requires |buckets| == |table|
      reads this, Repr
    {
      forall h :: 0 <= h < |table| && h != but ==> InOrder(h)
    }

    ghost predicate InOrder(h: nat)
      requires h < |table| == |buckets|
      reads this, Repr
    {
      table[h] in Repr && Own(table[h]) && Threaded(table[h], h, buckets[h])
    }

    constructor (n: nat)
      ensures Valid() && fresh(Repr) && links == map[] && lru == [] && |buckets| == n
      ensures forall h :: 0 <= h < n ==> buckets[h] == []
    {
      var rings: seq<Ring> := [];
      ghost var all: set<object> := {};
      while |rings| < n
        invariant |rings| <= n
        invariant forall o :: o in all ==> fresh(o)
        invariant forall h :: 0 <= h < |rings| ==>
                    rings[h] in all && rings[h].head in all && rings[h].Valid() && rings[h].elems == []
                        && rings[h].head.ring == h
      {
        var r := new Ring(|rings|);
        rings := rings + [r];
        all := all + {r, r.head};
      }
      var last := new Ring(n);
      table, recent, links, lru := rings, last, map[], [];
      buckets := seq(n, _ => []);
      Repr := all + {last, last.head};
    }

    lemma OnBucket(h: nat, i: nat)
      requires Valid() && h < |table| && i < |buckets[h]|
      ensures var x := buckets[h][i];
              x in links && i < |table[h].elems| && table[h].elems[i] == links[x].bucket && links[x].bucket in Repr
                  && links[x].bucket.ring == h
    {
      assert InOrder(h);
      assert table[h].elems[i] in table[h].elems;
    }

    lemma OnLru(j: nat)
      requires Valid() && j < |lru|
      ensures lru[j] in links && recent.elems[j] == links[lru[j]].lru && links[lru[j]].lru in Repr
    {
      assert recent.elems[j] in recent.elems;
    }

    /** clist_rm of the bucket link of an entry; a walk that stands behind it goes on there. */
    method UnlinkBucket(x: Id, ghost h: nat, ghost i: nat)
      requires Valid() && h < |table| && i < |buckets[h]| && buckets[h][i] == x
      modifies this`buckets, Repr
      ensures Valid() && Repr == old(Repr) && recent.elems == old(recent.elems)
      ensures buckets == old(buckets)[h := old(buckets)[h][..i] + old(buckets)[h][i + 1..]]
      ensures table[h].At(i) == old(table[h].At(i + 1))
    {
      OnBucket(h, i);
      OwnersWithout(table[h].elems, i);
      RmLink(links[x].bucket, h, i);
      SetBucket(h, buckets[h][..i] + buckets[h][i + 1..]);
    }

    /** clist_rm of a link on a bucket; the other circles are other links. */
    method RmLink(l: Link, ghost h: nat, ghost i: nat)
      requires Valid() && h < |table| && i < |table[h].elems| && table[h].elems[i] == l && InOrder(h)
      modifies Repr
      ensures BucketsBut(h) && Own(recent) && Threaded(recent, |table|, lru) && recent.elems == old(recent.elems)
      ensures Own(table[h]) && table[h].Valid() && table[h].At(i) == old(table[h].At(i + 1))
      ensures table[h].elems == old(table[h].elems)[..i] + old(table[h].elems)[i + 1..]
    {
      Ring.Rm(l, table[h], i);
      forall g | 0 <= g < |table| && g != h ensures InOrder(g) { assert old(InOrder(g)); }
    }

    /** The account of a bucket follows its circle. */
    ghost method SetBucket(h: nat, ids: seq<Id>)
      requires this !in Repr && |buckets| == |table| && recent in Repr && Own(recent) && Threaded(recent, |table|, lru)
      requires h < |table| && BucketsBut(h) && table[h] in Repr && Own(table[h]) && Threaded(table[h], h, ids)
      requires forall x :: x in links ==> links[x].bucket.owner == x == links[x].lru.owner
      modifies this`buckets
      ensures Valid() && buckets == old(buckets)[h := ids]
    {
      buckets := buckets[h := ids];
      forall g | 0 <= g < |table| ensures InOrder(g) { assert g != h ==> old(InOrder(g)); }
    }

    /** clist_rm of the link of an entry on the list of last used. */
    method UnlinkLru(x: Id, ghost j: nat)
      requires Valid() && j < |lru| && lru[j] == x
      modifies this`lru, Repr
      ensures Valid() && Repr == old(Repr) && forall h :: 0 <= h < |table| ==> table[h].elems == old(table[h].elems)
      ensures lru == old(lru)[..j] + old(lru)[j + 1..] && recent.At(j) == old(recent.At(j + 1))
      ensures x in links && Loose(links[x].lru, recent)
    {
      OnLru(j);
      ghost var es := recent.elems;
      Ring.Rm(links[x].lru, recent, j);
      lru := lru[..j] + lru[j + 1..];
      OwnersWithout(es, j);
      forall g | 0 <= g < |table| ensures InOrder(g) && table[g].elems == old(table[g].elems) {
        assert old(InOrder(g));
      }
    }

    /** The two clist_rm of an entry that goes. */
    method Unlink(x: Id, ghost h: nat, ghost i: nat, ghost j: nat)
      requires Valid() && h < |table| && i < |buckets[h]| && buckets[h][i] == x && j < |lru| && lru[j] == x
      modifies this`buckets, this`lru, Repr
      ensures Valid() && Repr == old(Repr)
      ensures buckets == old(buckets)[h := old(buckets)[h][..i] + old(buckets)[h][i + 1..]]
      ensures lru == old(lru)[..j] + old(lru)[j + 1..]
      ensures table[h].At(i) == old(table[h].At(i + 1)) && recent.At(j) == old(recent.At(j + 1))
    {
      UnlinkBucket(x, h, i);
      UnlinkLru(x, j);
    }

    /** A link that may be appended to a circle. */
    ghost predicate Loose(l: Link, r: Ring)
      reads this, r
    {
      l in Repr && l != r.head && l !in r.elems && l.ring == r.head.ring
    }

    /** clist_append of the link of an entry to the list of last used. */
    method AppendLru(x: Id)
      requires Valid() && x in links && Loose(links[x].lru, recent)
      modifies this`lru, Repr
      ensures Valid() && Repr == old(Repr) && forall h :: 0 <= h < |table| ==> table[h].elems == old(table[h].elems)
      ensures lru == old(lru) + [x]
    {
      recent.Append(links[x].lru);
      lru := lru + [x];
      assert Owners(recent.elems) == lru;
      forall g | 0 <= g < |table| ensures InOrder(g) && table[g].elems == old(table[g].elems) {
        assert old(InOrder(g));
      }
    }

    /** clist_rm and clist_append: the entry becomes the last used. */
    method MoveLast(x: Id, ghost j: nat)
      requires Valid() && j < |lru| && lru[j] == x
      modifies this`lru, Repr
      ensures Valid() && Repr == old(Repr) && lru == old(lru)[..j] + old(lru)[j + 1..] + [x]
    {
      UnlinkLru(x, j);
      AppendLru(x);
    }

    /** clist_append of the link of an entry to its bucket. */
    method AppendBucket(x: Id, h: nat)
      requires Valid() && h < |table| && x in links && Loose(links[x].bucket, table[h])
      modifies this`buckets, Repr
      ensures Valid() && Repr == old(Repr) && recent.elems == old(recent.elems)
      ensures buckets == old(buckets)[h := old(buckets)[h] + [x]]
    {
      assert InOrder(h);
      AppendLink(links[x].bucket, h);
      assert Owners(table[h].elems) == buckets[h] + [x];
      SetBucket(h, buckets[h] + [x]);
    }

    method AppendLink(l: Link, h: nat)
      requires Valid() && h < |table| && InOrder(h) && Loose(l, table[h])
      modifies Repr
      ensures BucketsBut(h) && Own(recent) && Threaded(recent, |table|, lru) && recent.elems == old(recent.elems)
      ensures Own(table[h]) && table[h].Valid() && table[h].elems == old(table[h].elems) + [l]
    {
      table[h].Append(l);
      forall g | 0 <= g < |table| && g != h ensures InOrder(g) { assert old(InOrder(g)); }
    }

    /** The links of a new entry, on no circle yet. */
    method NewLinks(x: Id, ghost h: nat)
      requires Valid() && h < |table| && x !in lru && forall g :: 0 <= g < |table| ==> x !in buckets[g]
      modifies this`links, this`Repr
      ensures Valid() && fresh(Repr - old(Repr)) && old(Repr) <= Repr
      ensures recent.elems == old(recent.elems) && forall g :: 0 <= g < |table| ==>
              table[g].elems == old(table[g].elems)
      ensures x in links && Loose(links[x].bucket, table[h]) && Loose(links[x].lru, recent)
    {
      var b := new Link(x, h);
      var l := new Link(x, |table|);
      NotOwner(recent, |table|, lru, x);
      assert InOrder(h);
      forall g | 0 <= g < |table| ensures forall y :: y in table[g].elems ==> y.owner != x {
        assert InOrder(g);
        NotOwner(table[g], g, buckets[g], x);
      }
      links := links[x := Links(b, l)];
      Repr := Repr + {b, l};
      forall g | 0 <= g < |table| ensures InOrder(g) {
        assert old(InOrder(g));
      }
    }

    /** The two clist_append of a new entry. */
    method Append(x: Id, h: nat)
      requires Valid() && h < |table| && x !in lru && forall g :: 0 <= g < |table| ==> x !in buckets[g]
      modifies this, Repr
      ensures Valid() && fresh(Repr - old(Repr))
      ensures buckets == old(buckets)[h := old(buckets)[h] + [x]] && lru == old(lru) + [x]
    {
      NewLinks(x, h);
      AppendBucket(x, h);
      AppendLru(x);
    }

    lemma NotOwner(r: Ring, number: nat, ids: seq<Id>, x: Id)
      requires Threaded(r, number, ids) && x !in ids
      ensures forall y :: y in r.elems ==> y.owner != x
    {
      forall y | y in r.elems ensures y.owner != x {
        var k :| 0 <= k < |r.elems| && r.elems[k] == y;
        assert Owners(r.elems)[k] == y.owner;
      }
    }

    // ----- Walking

    /** One step along the list of last used. */
    method LruNext(e: Link, ghost j: nat) returns (next: Link)
      requires Valid() && j <= |lru| && e == recent.At(j)
      ensures next == if j < |lru| then recent.At(j + 1) else recent.At(0)
    {
      recent.NextAt(j);
      next := e.next;
    }

    /** A walk has come round when it stands at the head. */
    lemma LruRound(j: nat)
      requires Valid() && j <= |lru|
      ensures recent.At(j) == recent.head <==> j == |lru|
      ensures j < |lru| ==> recent.At(j).owner == lru[j]
    {
      assert j < |lru| ==> recent.elems[j] in recent.elems;
    }

    /** One step along a bucket. */
    method BucketNext(h: nat, e: Link, ghost i: nat) returns (next: Link)
      requires Valid() && h < |table| && i <= |buckets[h]| && e == table[h].At(i)
      ensures next == if i < |buckets[h]| then table[h].At(i + 1) else table[h].At(0)
    {
      assert InOrder(h);
      table[h].NextAt(i);
      next := e.next;
    }

    lemma BucketRound(h: nat, i: nat)
      requires Valid() && h < |table| && i <= |buckets[h]|
      ensures table[h].At(i) == table[h].head <==> i == |buckets[h]|
      ensures i < |buckets[h]| ==> table[h].At(i).owner == buckets[h][i]
    {
      assert InOrder(h);
      assert i < |buckets[h]| ==> table[h].elems[i] in table[h].elems;
    }
  }

  lemma OwnersWithout(es: seq<Link>, i: nat)
    requires i < |es|
    ensures Owners(es[..i] + es[i + 1..]) == Owners(es)[..i] + Owners(es)[i + 1..]
    ensures forall y :: y in es[..i] + es[i + 1..] ==> y in es
  {
  }
}
