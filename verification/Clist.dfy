/** Circular lists: links that point at each other, with a head that is part of the circle. */
module Clist {

  class Link {
    /** The structure the link is part of: what subtracting the offset of the link gives. */
    const owner: nat
    /** The circle the link is made for; it is never put into another one. */
    ghost const ring: nat
    var next: Link?
    var prev: Link?

    constructor (owner: nat, ghost ring: nat)
      ensures this.owner == owner && this.ring == ring && next == null && prev == null
    {
      this.owner := owner;
      this.ring := ring;
      next, prev := null, null;
    }
  }

  ghost predicate Distinct(s: seq<Link>) {
    s == [] || (s[0] !in s[1..] && Distinct(s[1..]))
  }

  lemma {:induction false} DistinctConcat(a: seq<Link>, b: seq<Link>)
    ensures Distinct(a + b) <==> Distinct(a) && Distinct(b) && forall x :: x in a ==> x !in b
  {
    if a == [] {
      assert a + b == b;
    } else {
      assert (a + b)[0] == a[0] && (a + b)[1..] == a[1..] + b;
      DistinctConcat(a[1..], b);
    }
  }

  /** From p through the links in order to n, and the same way back. */
  ghost predicate Path(p: Link, s: seq<Link>, n: Link)
    reads ({p} + set x | x in s)`next, ({n} + set x | x in s)`prev
    decreases |s|
  {
    if s == [] then p.next == n && n.prev == p
    else p.next == s[0] && s[0].prev == p && Path(s[0], s[1..], n)
  }

  lemma {:induction false} PathSplit(p: Link, a: seq<Link>, x: Link, b: seq<Link>, n: Link)
    ensures Path(p, a + [x] + b, n) <==> Path(p, a, x) && Path(x, b, n)
    decreases |a|
  {
    var s := a + [x] + b;
    if a == [] {
      assert s == [x] + b && s[0] == x && s[1..] == b;
    } else {
      assert s[0] == a[0] && s[1..] == a[1..] + [x] + b;
      PathSplit(a[0], a[1..], x, b, n);
    }
  }

  lemma {:induction false} PathNext(p: Link, s: seq<Link>, n: Link, i: nat)
    requires Path(p, s, n) && i <= |s|
    ensures p.next == if s == [] then n else s[0]
    ensures i < |s| ==> s[i].next == if i + 1 < |s| then s[i + 1] else n
    decreases |s|
  {
    if s != [] { PathNext(s[0], s[1..], n, if i == 0 then 0 else i - 1); }
  }

  /** Links chained to each other; where the ends point is open. */
  ghost predicate Inner(s: seq<Link>)
    reads (set i | 0 <= i < |s| - 1 :: s[i])`next, (set i | 0 < i < |s| :: s[i])`prev
  {
    |s| <= 1 || Path(s[0], s[1..|s| - 1], s[|s| - 1])
  }

  lemma PathToLast(p: Link, s: seq<Link>)
    requires s != []
    ensures Path(p, s[..|s| - 1], s[|s| - 1]) <==> p.next == s[0] && s[0].prev == p && Inner(s)
  {
    if |s| > 1 { assert s[..|s| - 1][1..] == s[1..|s| - 1]; }
  }

  lemma PathFromLast(p: Link, a: seq<Link>, n: Link)
    requires a != []
    ensures Path(p, a, n) <==> Path(p, a[..|a| - 1], a[|a| - 1]) && a[|a| - 1].next == n && n.prev == a[|a| - 1]
  {
    assert a == a[..|a| - 1] + [a[|a| - 1]] + [];
    PathSplit(p, a[..|a| - 1], a[|a| - 1], [], n);
  }

  /** Two chains one behind the other. */
  lemma PathConcat(p: Link, a: seq<Link>, b: seq<Link>, n: Link)
    requires a != []
    ensures Path(p, a + b, n) <==> p.next == a[0] && a[0].prev == p && Inner(a) && Path(a[|a| - 1], b, n)
  {
    assert a + b == a[..|a| - 1] + [a[|a| - 1]] + b;
    PathSplit(p, a[..|a| - 1], a[|a| - 1], b, n);
    PathToLast(p, a);
  }

  /** The ends of a chain are none of its other links. */
  lemma EndsApart(s: seq<Link>)
    requires Distinct(s) && s != []
    ensures s[0] !in s[1..] && s[|s| - 1] !in s[..|s| - 1]
  {
    assert s == s[..|s| - 1] + [s[|s| - 1]];
    DistinctConcat(s[..|s| - 1], [s[|s| - 1]]);
  }

  lemma DistinctAt(es: seq<Link>, i: nat)
    requires Distinct(es) && i < |es|
    ensures es[i] !in es[..i] + es[i + 1..]
  {
    assert es == es[..i] + [es[i]] + es[i + 1..];
    DistinctConcat(es[..i] + [es[i]], es[i + 1..]);
    DistinctConcat(es[..i], [es[i]]);
  }

  class Ring {
    const head: Link
    /** The links behind the head, in order. */
    ghost var elems: seq<Link>

    /** Going forth or back along the circle meets the links in order, each once. */
    ghost predicate Valid()
      reads this, head, elems
    {
      head !in elems && Distinct(elems) && Path(head, elems, head) && forall x :: x in elems ==> x.ring == head.ring
    }

    /** clist_init */
    constructor (ghost ring: nat)
      ensures Valid() && elems == [] && fresh(head) && head.ring == ring
    {
      head := new Link(0, ring);
      elems := [];
      new;
      head.next := head;
      head.prev := head;
    }

    /** clist_insert_sublist: a chain from s to e goes behind the head. */
    method InsertSublist(s: Link, e: Link, ghost chain: seq<Link>)
      requires Valid() && chain != [] && chain[0] == s && chain[|chain| - 1] == e && Inner(chain)
      requires Distinct(chain) && head !in chain && forall x :: x in chain ==> x !in elems && x.ring == head.ring
      modifies this`elems, head, elems, chain
      ensures Valid() && elems == chain + old(elems)
    {
      ghost var was := elems;
      assert s in chain && e in chain;
      if was != [] {
        EndsApart(was);
        assert was[0] in was;
      }
      SetEnds(s, e, head, head.next, chain);
      e.next.prev := e;
      head.next := s;
      assert Inner(chain);
      PathConcat(head, chain, was, head);
      DistinctConcat(chain, was);
      elems := chain + elems;
    }

    /** clist_append_sublist: a chain from s to e goes to the end. */
    method AppendSublist(s: Link, e: Link, ghost chain: seq<Link>)
      requires Valid() && chain != [] && chain[0] == s && chain[|chain| - 1] == e && Inner(chain)
      requires Distinct(chain) && head !in chain && forall x :: x in chain ==> x !in elems && x.ring == head.ring
      modifies this`elems, head, elems, chain
      ensures Valid() && elems == old(elems) + chain
    {
      ghost var was := elems;
      assert s in chain && e in chain;
      if was != [] {
        assert was[|was| - 1] in was;
        PathFromLast(head, was, head);
      }
      Attach(head, s, e, was, chain);
      DistinctConcat(was, chain);
      elems := elems + chain;
    }

    /** The four assignments of appending. */
    static method Attach(head: Link, s: Link, e: Link, ghost was: seq<Link>, ghost chain: seq<Link>)
      requires chain != [] && chain[0] == s && chain[|chain| - 1] == e && Inner(chain) && Distinct(chain)
               && Distinct(was)
      requires head !in chain && head !in was && forall x :: x in chain ==> x !in was
      requires head.prev == if was == [] then head else was[|was| - 1]
      requires was != [] ==> Path(head, was[..|was| - 1], was[|was| - 1])
      modifies s`prev, e`next, head, if was == [] then {} else {was[|was| - 1]}
      ensures Path(head, was + chain, head)
    {
      if was != [] {
        EndsApart(was);
        assert was[|was| - 1] in was && forall x :: x in was[..|was| - 1] ==> x in was;
      }
      assert s in chain && e in chain;
      SetEnds(s, e, head.prev, head, chain);
      s.prev.next := s;
      head.prev := e;
      Appended(head, was, chain);
    }

    /** The ends of a chain may point anywhere. */
    static method SetEnds(s: Link, e: Link, prev: Link?, next: Link, ghost chain: seq<Link>)
      requires chain != [] && chain[0] == s && chain[|chain| - 1] == e && Inner(chain) && Distinct(chain)
      modifies s`prev, e`next
      ensures s.prev == prev && e.next == next && Inner(chain)
    {
      EndsApart(chain);
      s.prev := prev;
      e.next := next;
    }

    /** A chain behind the last link. */
    static lemma Appended(head: Link, was: seq<Link>, chain: seq<Link>)
      requires chain != [] && Inner(chain) && chain[|chain| - 1].next == head && head.prev == chain[|chain| - 1]
      requires was == [] ==> head.next == chain[0] && chain[0].prev == head
      requires was != [] ==> Path(head, was[..|was| - 1], was[|was| - 1])
                             && was[|was| - 1].next == chain[0] && chain[0].prev == was[|was| - 1]
      ensures Path(head, was + chain, head)
    {
      var last := if was == [] then head else was[|was| - 1];
      PathToLast(last, chain);
      PathFromLast(last, chain, head);
      if was == [] {
        assert was + chain == chain;
      } else {
        assert was + chain == was[..|was| - 1] + [last] + chain;
        PathSplit(head, was[..|was| - 1], last, chain, head);
      }
    }

    /** clist_rm_sublist: the links b go, still chained to each other. The circle they are on
        is not named. */
    static method RmSublist(s: Link, e: Link, ghost r: Ring, ghost a: seq<Link>, ghost b: seq<Link>, ghost c: seq<Link>)
      requires r.Valid() && r.elems == a + b + c && b != [] && s == b[0] && e == b[|b| - 1]
      modifies r`elems, r.head, r.elems
      ensures r.Valid() && r.elems == a + c && Inner(b)
    {
      r.Neighbours(a, b, c);
      assert a != [] ==> a[|a| - 1] in r.elems;
      assert c != [] ==> c[0] in r.elems;
      Bridge(s.prev, e.next, r.head, a, c);
      assert Inner(b);
      DistinctConcat(a, c);
      r.elems := a + c;
    }

    /** The two neighbours of a part that goes are linked to each other. */
    static method Bridge(p: Link, n: Link, ghost head: Link, ghost a: seq<Link>, ghost c: seq<Link>)
      requires p == (if a == [] then head else a[|a| - 1]) && n == if c == [] then head else c[0]
      requires Distinct(a) && Distinct(c) && head !in a && head !in c && forall x :: x in a ==> x !in c
      requires a != [] ==> Path(head, a[..|a| - 1], a[|a| - 1])
      requires c != [] ==> Path(c[0], c[1..], head)
      modifies p`next, n`prev
      ensures Path(head, a + c, head)
    {
      if a != [] {
        EndsApart(a);
        assert a[|a| - 1] in a && forall x :: x in a[..|a| - 1] ==> x in a;
      }
      if c != [] {
        EndsApart(c);
        assert c[0] in c && forall x :: x in c[1..] ==> x in c;
      }
      p.next := n;
      n.prev := p;
      if a == [] { FromHead(head, c); } else { FromLast(head, a, c); }
    }

    /** A circle whose first link the head has just been linked to. */
    static lemma FromHead(head: Link, c: seq<Link>)
      requires c != [] ==> head.next == c[0] && c[0].prev == head && Path(c[0], c[1..], head)
      requires c == [] ==> head.next == head == head.prev
      ensures Path(head, [] + c, head)
    {
      assert [] + c == c;
    }

    static lemma FromLast(head: Link, a: seq<Link>, c: seq<Link>)
      requires a != [] && Path(head, a[..|a| - 1], a[|a| - 1])
      requires var p := a[|a| - 1];
               if c == [] then p.next == head && head.prev == p
               else p.next == c[0] && c[0].prev == p && Path(c[0], c[1..], head)
      ensures Path(head, a + c, head)
    {
      assert a + c == a[..|a| - 1] + [a[|a| - 1]] + c;
      PathSplit(head, a[..|a| - 1], a[|a| - 1], c, head);
    }

    /** clist_rm: what came behind the link has its place now. */
    static method Rm(l: Link, ghost r: Ring, ghost i: nat)
      requires r.Valid() && i < |r.elems| && r.elems[i] == l
      modifies r`elems, r.head, r.elems
      ensures r.Valid() && r.elems == old(r.elems)[..i] + old(r.elems)[i + 1..] && l !in r.elems
      ensures r.At(i) == old(r.At(i + 1))
    {
      ghost var es := r.elems;
      assert es == es[..i] + [es[i]] + es[i + 1..];
      DistinctAt(es, i);
      RmSublist(l, l, r, es[..i], [es[i]], es[i + 1..]);
    }

    /** clist_append */
    method Append(l: Link)
      requires Valid() && l != head && l !in elems && l.ring == head.ring
      modifies this`elems, head, elems, l
      ensures Valid() && elems == old(elems) + [l]
    {
      AppendSublist(l, l, [l]);
    }

    /** The link at a place of the circle; the head comes behind the last. */
    ghost function At(i: nat): Link
      reads this
    {
      if i < |elems| then elems[i] else head
    }

    /** Stepping along the circle. */
    lemma NextAt(i: nat)
      requires Valid() && i <= |elems|
      ensures At(i).next == if i < |elems| then At(i + 1) else At(0)
    {
      PathNext(head, elems, head, i);
    }

    /** The neighbours of a part of the circle. */
    lemma Neighbours(a: seq<Link>, b: seq<Link>, c: seq<Link>)
      requires Valid() && elems == a + b + c && b != []
      ensures Apart(a, b, c) && Inner(b)
      ensures b[0].prev == if a == [] then head else a[|a| - 1]
      ensures b[|b| - 1].next == if c == [] then head else c[0]
      ensures a != [] ==> Path(head, a[..|a| - 1], a[|a| - 1])
      ensures c != [] ==> Path(c[0], c[1..], head)
    {
      ThreeParts(a, b, c);
      if a == [] {
        assert a + b + c == b + c;
        PathConcat(head, b, c, head);
      } else {
        assert a + b + c == a + (b + c);
        PathConcat(head, a, b + c, head);
        PathToLast(head, a);
        PathConcat(a[|a| - 1], b, c, head);
      }
    }

    ghost predicate Apart(a: seq<Link>, b: seq<Link>, c: seq<Link>)
      requires b != []
    {
      Distinct(a) && Distinct(b) && Distinct(c) && head !in a && head !in b && head !in c
      && (forall x :: x in a ==> x !in b && x !in c) && (forall x :: x in b ==> x !in c)
      && (a != [] ==> a[0] in a && a[|a| - 1] in a && a[|a| - 1] !in a[..|a| - 1])
      && (c != [] ==> c[0] in c && c[0] !in c[1..])
      && b[0] in b && b[|b| - 1] in b
    }

    lemma ThreeParts(a: seq<Link>, b: seq<Link>, c: seq<Link>)
      requires Distinct(a + b + c) && head !in a + b + c && b != []
      ensures Apart(a, b, c)
    {
      DistinctConcat(a + b, c);
      DistinctConcat(a, b);
      assert forall x :: x in a || x in b ==> x in a + b;
      assert forall x :: x in a + b || x in c ==> x in a + b + c;
      if a != [] { EndsApart(a); }
      if c != [] { EndsApart(c); }
    }
  }
}
