/**
 The page table as it lies in memory: page records on one linked list and, by a hash of their page
 number, on the chains of a bucket array.  Both hold the same records, one for each page number.
 */
module PageTable {
  import opened GuestMemory

  class PageNode {
    const number: nat
    var value: Page
    var next: PageNode?
    var hashNext: PageNode?

    constructor (number: nat, value: Page)
      ensures this.number == number && this.value == value && next == null && hashNext == null
    {
      this.number := number;
      this.value := value;
      next := null;
      hashNext := null;
    }
  }

  /** The records of `s`, linked in this order through `next`. */
  ghost predicate Linked(head: PageNode?, s: seq<PageNode>)
    reads s`next
  {
    && head == (if s == [] then null else s[0])
    && forall i {:trigger s[i].next} :: 0 <= i < |s| ==> s[i].next == Following(s, i)
  }

  ghost predicate Chained(head: PageNode?, s: seq<PageNode>)
    reads s`hashNext
  {
    && head == (if s == [] then null else s[0])
    && forall i {:trigger s[i].hashNext} :: 0 <= i < |s| ==> s[i].hashNext == Following(s, i)
  }

  ghost predicate NoRepeats(s: seq<PageNode>) {
    forall i, j :: 0 <= i < j < |s| ==> s[i] != s[j]
  }

  function Dropped(s: seq<PageNode>, i: nat): seq<PageNode>
    requires i < |s|
  {
    s[..i] + s[i + 1..]
  }

  lemma DroppedMembers(s: seq<PageNode>, i: nat)
    requires i < |s| && NoRepeats(s)
    ensures NoRepeats(Dropped(s, i))
    ensures forall n :: n in Dropped(s, i) <==> n in s && n != s[i]
  {
    var r := Dropped(s, i);
    forall n | n in s && n != s[i] ensures n in r {
      var k :| 0 <= k < |s| && s[k] == n;
      assert r[if k < i then k else k - 1] == n;
    }
  }

  lemma DroppedWithin(s: seq<PageNode>, i: nat)
    requires i < |s|
    ensures forall k :: 0 <= k < |Dropped(s, i)| ==> Dropped(s, i)[k] in s
  {
  }

  function Following(s: seq<PageNode>, i: nat): PageNode? {
    if i + 1 < |s| then s[i + 1] else null
  }

  lemma Prepended(n: PageNode, s: seq<PageNode>, head: PageNode?)
    requires Linked(head, s) && n.next == head && n !in s && NoRepeats(s)
    ensures Linked(n, [n] + s) && NoRepeats([n] + s)
  {
    FollowingPrepended(n, s);
  }

  lemma PrependedChain(n: PageNode, s: seq<PageNode>, head: PageNode?)
    requires Chained(head, s) && n.hashNext == head && n !in s && NoRepeats(s)
    ensures Chained(n, [n] + s) && NoRepeats([n] + s)
  {
    FollowingPrepended(n, s);
  }

  lemma FollowingPrepended(n: PageNode, s: seq<PageNode>)
    ensures forall i :: 0 < i < |s| + 1 ==> ([n] + s)[i] == s[i - 1] && Following([n] + s, i) == Following(s, i - 1)
    ensures Following([n] + s, 0) == if s == [] then null else s[0]
  {
  }

  lemma {:induction false} OutsideMembers(s: seq<PageNode>, first: nat, count: nat)
    ensures forall n :: n in Outside(s, first, count) <==> n in s && !(first <= n.number < first + count)
    decreases |s|
  {
    if s != [] {
      OutsideMembers(s[..|s| - 1], first, count);
      assert s == s[..|s| - 1] + [s[|s| - 1]];
    }
  }

  lemma InsideAt(s: seq<PageNode>, first: nat, count: nat, j: nat)
    requires NoRepeats(s) && j < |Inside(s, first, count)|
    ensures Inside(s, first, count)[j] in s && first <= Inside(s, first, count)[j].number < first + count
  {
    InsideMembers(s, first, count);
    assert Inside(s, first, count)[j] in Inside(s, first, count);
  }

  /** The list while it is being scanned: `k` records looked at, the rest as it was. */
  function Scanned(s: seq<PageNode>, k: nat, first: nat, count: nat): seq<PageNode>
    requires k <= |s|
  {
    Outside(s[..k], first, count) + s[k..]
  }

  /** Where the next record to look at now is. */
  function Position(s: seq<PageNode>, k: nat, first: nat, count: nat): nat
    requires k <= |s|
  {
    |Outside(s[..k], first, count)|
  }

  lemma ScanStep(s: seq<PageNode>, k: nat, first: nat, count: nat)
    requires k < |s|
    ensures var l, i, inside := Scanned(s, k, first, count), Position(s, k, first, count), first <= s[k].number < first + count;
            && i < |l| && l[i] == s[k] && Following(l, i) == Following(s, k)
            && Scanned(s, k + 1, first, count) == (if inside then Dropped(l, i) else l)
            && Position(s, k + 1, first, count) == (if inside then i else i + 1)
            && Inside(s[..k + 1], first, count)
               == Inside(s[..k], first, count) + (if inside then [s[k]] else [])
  {
    assert s[..k + 1][..k] == s[..k];
    var l, i := Scanned(s, k, first, count), Position(s, k, first, count);
    assert l[i + 1..] == s[k + 1..];
  }

  lemma ScanEnds(s: seq<PageNode>, first: nat, count: nat)
    ensures Scanned(s, 0, first, count) == s && Position(s, 0, first, count) == 0 && Inside(s[..0], first, count) == []
    ensures Scanned(s, |s|, first, count) == Outside(s, first, count) && s[..|s|] == s
  {
    assert s[..|s|] == s && s[..0] == [];
  }

  function NextLinks(s: seq<PageNode>): seq<PageNode?>
    reads s
  {
    seq(|s|, i requires 0 <= i < |s| reads s => s[i].next)
  }

  /** The records of a list outside a range, in their order. */
  function Outside(s: seq<PageNode>, first: nat, count: nat): seq<PageNode> {
    if s == [] then []
    else
      var n := s[|s| - 1];
      Outside(s[..|s| - 1], first, count) + if first <= n.number < first + count then [] else [n]
  }

  /** The records of a list inside a range, in list order. */
  function Inside(s: seq<PageNode>, first: nat, count: nat): seq<PageNode> {
    if s == [] then []
    else
      var n := s[|s| - 1];
      Inside(s[..|s| - 1], first, count) + if first <= n.number < first + count then [n] else []
  }

  lemma {:induction false} InsideMembers(s: seq<PageNode>, first: nat, count: nat)
    requires NoRepeats(s)
    ensures forall n :: n in Inside(s, first, count) <==> n in s && first <= n.number < first + count
    ensures NoRepeats(Inside(s, first, count))
    decreases |s|
  {
    if s != [] {
      InsideMembers(s[..|s| - 1], first, count);
      assert s == s[..|s| - 1] + [s[|s| - 1]];
    }
  }

  function Links(s: seq<PageNode>): seq<PageNode?>
    reads s
  {
    seq(|s|, i requires 0 <= i < |s| reads s => s[i].hashNext)
  }

  /** What follows each record once one is linked out. */
  lemma FollowingDropped(s: seq<PageNode>, i: nat, k: nat)
    requires i < |s| && k < |s| - 1
    ensures var o := if k < i then k else k + 1;
            && Dropped(s, i)[k] == s[o]
            && Following(Dropped(s, i), k) == if o + 1 == i then Following(s, i) else Following(s, o)
  {
  }

  /** The list holds exactly the records of the map, each once. */
  ghost predicate Listed(nodes: map<nat, PageNode>, list: seq<PageNode>, records: set<PageNode>) {
    && (forall p :: p in nodes ==> nodes[p] in records && nodes[p].number == p && nodes[p] in list)
    && (forall i :: 0 <= i < |list| ==> list[i] in records && list[i].number in nodes && nodes[list[i].number] == list[i])
    && NoRepeats(list)
  }

  lemma ListedPrepended(nodes: map<nat, PageNode>, list: seq<PageNode>, records: set<PageNode>, n: PageNode)
    requires Listed(nodes, list, records) && n !in records && n.number !in nodes
    ensures Listed(nodes[n.number := n], [n] + list, records + {n}) && n !in list
  {
    assert n !in list;
    assert ([n] + list)[1..] == list;
    forall p | p in nodes ensures nodes[p] in [n] + list {
      assert nodes[p] in ([n] + list)[1..];
    }
    forall i | 0 < i < |list| + 1 ensures ([n] + list)[i] == list[i - 1] {
    }
  }

  lemma ListedDropped(nodes: map<nat, PageNode>, list: seq<PageNode>, records: set<PageNode>, i: nat)
    requires Listed(nodes, list, records) && i < |list|
    ensures Listed(nodes - {list[i].number}, Dropped(list, i), records)
  {
    DroppedMembers(list, i);
    var rest := Dropped(list, i);
    forall k | 0 <= k < |rest| ensures rest[k] in list && rest[k] != list[i] {
      assert rest[k] in rest;
    }
  }

  /** The chains hold exactly the records of the map, each where its number hashes to. */
  ghost predicate Agree(nodes: map<nat, PageNode>, chains: seq<seq<PageNode>>, hash: nat -> nat) {
    && (forall p :: p in nodes ==> hash(p) < |chains| && nodes[p] in chains[hash(p)])
    && (forall b, i :: 0 <= b < |chains| && 0 <= i < |chains[b]| ==>
          chains[b][i].number in nodes && nodes[chains[b][i].number] == chains[b][i])
  }

  lemma AgreeInserted(nodes: map<nat, PageNode>, chains: seq<seq<PageNode>>, hash: nat -> nat, n: PageNode)
    requires Agree(nodes, chains, hash) && hash(n.number) < |chains| && n.number !in nodes
    ensures Agree(nodes[n.number := n], chains[hash(n.number) := [n] + chains[hash(n.number)]], hash)
  {
    var b := hash(n.number);
    var chains' := chains[b := [n] + chains[b]];
    assert chains'[b][0] == n && chains'[b][1..] == chains[b];
    forall p | p in nodes ensures nodes[p] in chains'[hash(p)] {
      assert nodes[p] in chains[hash(p)];
      assert hash(p) == b ==> nodes[p] in chains'[b][1..];
    }
  }

  lemma AgreeRemoved(
    nodes: map<nat, PageNode>, chains: seq<seq<PageNode>>, chains': seq<seq<PageNode>>, hash: nat -> nat, n: PageNode)
    requires Agree(nodes, chains, hash) && n.number in nodes && nodes[n.number] == n && |chains'| == |chains|
    requires forall p :: p in nodes ==> nodes[p].number == p
    requires forall b :: 0 <= b < |chains| && b != hash(n.number) ==> chains'[b] == chains[b] && n !in chains[b]
    requires forall x :: x in chains'[hash(n.number)] <==> x in chains[hash(n.number)] && x != n
    ensures Agree(nodes - {n.number}, chains', hash)
  {
    forall b, i | 0 <= b < |chains'| && 0 <= i < |chains'[b]|
      ensures chains'[b][i].number in nodes - {n.number} && nodes[chains'[b][i].number] == chains'[b][i]
    {
      assert chains'[b][i] in chains'[b];
      assert chains'[b][i] in chains[b] && chains'[b][i] != n;
    }
  }

  class Table {
    var pages: PageNode?
    var buckets: array<PageNode?>
    const hash: nat -> nat

    ghost var nodes: map<nat, PageNode>
    ghost var list: seq<PageNode>
    ghost var chains: seq<seq<PageNode>>
    ghost var Repr: set<PageNode>

    /** Every bucket's chain is linked, without repetition, and holds only records that hash to it. */
    ghost predicate Buckets()
      reads this`buckets, this`chains, this`Repr, buckets, Repr`hashNext
    {
      && |chains| == buckets.Length && (forall p :: hash(p) < buckets.Length)
      && (forall b, i :: 0 <= b < |chains| && 0 <= i < |chains[b]| ==>
            chains[b][i] in Repr && hash(chains[b][i].number) == b)
      && (forall b :: 0 <= b < |chains| ==> Chained(buckets[b], chains[b]) && NoRepeats(chains[b]))
    }

    ghost predicate OnList()
      reads this`pages, this`nodes, this`list, this`Repr, Repr`next
    {
      Listed(nodes, list, Repr) && Linked(pages, list)
    }

    /** The list and the chains hold the same records, one for each page number. */
    ghost predicate Valid()
      reads this, buckets, Repr`next, Repr`hashNext
    {
      Buckets() && OnList() && Agree(nodes, chains, hash)
    }

    /** The page table as a map. */
    ghost function Contents(): map<nat, Page>
      reads this`nodes, nodes.Values`value
    {
      map p | p in nodes :: nodes[p].value
    }

    constructor (hash: nat -> nat, size: nat)
      requires forall p :: hash(p) < size
      ensures Valid() && Repr == {} && fresh(buckets) && nodes == map[] && Contents() == map[]
    {
      this.hash := hash;
      pages := null;
      buckets := new PageNode?[size](_ => null);
      nodes, list, chains := map[], [], seq(size, _ => []);
      new;
      Repr := {};
    }

    /** `at`: walks one chain only, and yet finds the record of any page in the table. */
    method At(p: nat) returns (n: PageNode?)
      requires Valid()
      ensures n == null <==> p !in nodes
      ensures n != null ==> n == nodes[p]
      ensures n == null <==> p !in Contents()
      ensures n != null ==> Contents()[p] == n.value
    {
      ghost var chain := chains[hash(p)];
      ghost var i := 0;
      assert p in nodes ==> nodes[p] in chain;
      n := buckets[hash(p)];
      ghost var head := n;
      assert Chained(head, chain);
      while n != null
        invariant Chained(head, chain)
        invariant i <= |chain|
        invariant n == if i < |chain| then chain[i] else null
        invariant forall k :: 0 <= k < i ==> chain[k].number != p
        decreases |chain| - i
      {
        if n.number == p {
          return;
        }
        assert n == chain[i] && chain[i].hashNext == Following(chain, i);
        n := n.hashNext;
        i := i + 1;
      }
    }

    /** A record of the table gets a new value. */
    method Put(n: PageNode, value: Page)
      requires Valid() && n.number in nodes && nodes[n.number] == n
      modifies n`value
      ensures n.value == value && Contents() == old(Contents())[n.number := value]
    {
      n.value := value;
    }

    /** `index_page`: a record at the front of its chain. */
    method Index(n: PageNode)
      requires Buckets() && n in Repr && (forall b :: 0 <= b < |chains| ==> n !in chains[b])
      modifies this`chains, buckets, n`hashNext
      ensures Buckets() && chains == old(chains)[hash(n.number) := [n] + old(chains)[hash(n.number)]]
    {
      var b := hash(n.number);
      assert Chained(buckets[b], chains[b]);
      n.hashNext := buckets[b];
      buckets[b] := n;
      chains := chains[b := [n] + chains[b]];
      PrependedChain(n, old(chains[b]), n.hashNext);
      forall c | 0 <= c < |chains| && c != b ensures Chained(buckets[c], chains[c]) {
        assert old(Chained(buckets[c], chains[c]));
      }
    }

    /** The record before this one on its chain, and where the two are. */
    method Before(n: PageNode) returns (before: PageNode?, ghost i: nat)
      requires Buckets() && n in chains[hash(n.number)]
      ensures i < |chains[hash(n.number)]| && chains[hash(n.number)][i] == n
      ensures before == if i > 0 then chains[hash(n.number)][i - 1] else null
    {
      ghost var chain := chains[hash(n.number)];
      i := 0;
      before := null;
      var at := buckets[hash(n.number)];
      assert Chained(at, chain);
      while at != n
        invariant i <= |chain| && n !in chain[..i]
        invariant at == if i < |chain| then chain[i] else null
        invariant before == if i > 0 then chain[i - 1] else null
        decreases |chain| - i
      {
        before := at;
        at := at.hashNext;
        i := i + 1;
      }
    }

    /** The record out of its chain: its predecessor, or the bucket, skips it. */
    method SpliceOut(before: PageNode?, n: PageNode, ghost chain: seq<PageNode>, ghost i: nat)
      requires hash(n.number) < buckets.Length && Chained(buckets[hash(n.number)], chain) && NoRepeats(chain)
      requires i < |chain| && chain[i] == n && before == if i > 0 then chain[i - 1] else null
      modifies buckets, chain`hashNext
      ensures n.hashNext == null && Chained(buckets[hash(n.number)], Dropped(chain, i))
      ensures forall c :: 0 <= c < buckets.Length && c != hash(n.number) ==> buckets[c] == old(buckets[c])
    {
      ghost var links := Links(chain);
      assert forall k :: 0 <= k < |chain| ==> links[k] == Following(chain, k);
      ghost var head := buckets[hash(n.number)];
      if before == null {
        buckets[hash(n.number)] := n.hashNext;
      } else {
        before.hashNext := n.hashNext;
      }
      n.hashNext := null;
      ghost var rest := Dropped(chain, i);
      forall k | 0 <= k < |rest| ensures rest[k].hashNext == Following(rest, k) {
        FollowingDropped(chain, i, k);
        var o := if k < i then k else k + 1;
        assert chain[o].hashNext == if o + 1 == i then links[i] else links[o];
      }
      assert if i > 0 then buckets[hash(n.number)] == chain[0] else buckets[hash(n.number)] == links[0];
    }

    /** `unindex_page`: the walk always meets the record, so the source's `abort` is never reached. */
    method Unindex(n: PageNode)
      requires Buckets() && n in chains[hash(n.number)]
      modifies this`chains, buckets, chains[hash(n.number)]`hashNext
      ensures Buckets() && n.hashNext == null
      ensures |chains| == |old(chains)|
      ensures forall b :: 0 <= b < |chains| && b != hash(n.number) ==> chains[b] == old(chains)[b]
      ensures forall x :: x in chains[hash(n.number)] <==> x in old(chains)[hash(n.number)] && x != n
    {
      hide Dropped;
      ghost var b, chain := hash(n.number), chains[hash(n.number)];
      var before, i := Before(n);
      DroppedMembers(chain, i);
      assert Chained(buckets[b], chain);
      SpliceOut(before, n, chain, i);
      DroppedWithin(chain, i);
      chains := chains[b := Dropped(chain, i)];
      forall c | 0 <= c < |chains| && c != b ensures Chained(buckets[c], chains[c]) {
        assert old(Chained(buckets[c], chains[c]));
      }
    }
  
    /** A new record at the front of the list; the chains do not have it yet. */
    method LinkFront(n: PageNode)
      requires OnList() && n !in Repr && n.number !in nodes
      modifies this`pages, this`nodes, this`list, this`Repr, n`next
      ensures OnList() && Repr == old(Repr) + {n}
      ensures list == [n] + old(list) && nodes == old(nodes)[n.number := n]
    {
      assert Linked(pages, list);
      ListedPrepended(nodes, list, Repr, n);
      n.next := pages;
      pages := n;
      Repr := Repr + {n};
      nodes := nodes[n.number := n];
      list := [n] + list;
      Prepended(n, old(list), old(pages));
    }

    /** A new record goes to the front of the list and of its chain. */
    method Insert(n: PageNode)
      requires Valid() && n !in Repr && n.number !in nodes
      modifies this`pages, this`nodes, this`list, this`chains, this`Repr, buckets, n`next, n`hashNext
      ensures Valid() && Repr == old(Repr) + {n}
      ensures list == [n] + old(list) && nodes == old(nodes)[n.number := n]
    {
      hide Listed, Linked, Agree;
      LinkFront(n);
      forall b | 0 <= b < |chains| ensures Chained(buckets[b], chains[b]) && n !in chains[b] {
        assert old(Chained(buckets[b], chains[b]));
      }
      Index(n);
      AgreeInserted(old(nodes), old(chains), hash, n);
    }
  
    method Add(n: PageNode)
      requires Valid() && n !in Repr && n.number !in nodes
      modifies this`pages, this`nodes, this`list, this`chains, this`Repr, buckets, n`next, n`hashNext
      ensures Valid() && Repr == old(Repr) + {n} && nodes == old(nodes)[n.number := n]
      ensures Contents() == old(Contents())[n.number := n.value]
    {
      hide Valid;
      Insert(n);
    }

    /** A record out of the list: its predecessor, or the head, skips it. */
    method SpliceNext(before: PageNode?, n: PageNode, ghost s: seq<PageNode>, ghost i: nat)
      requires Linked(pages, s) && NoRepeats(s)
      requires i < |s| && s[i] == n && before == if i > 0 then s[i - 1] else null
      modifies this`pages, s`next
      ensures Linked(pages, Dropped(s, i))
    {
      ghost var links := NextLinks(s);
      assert forall k :: 0 <= k < |s| ==> links[k] == Following(s, k);
      if before == null {
        pages := n.next;
      } else {
        before.next := n.next;
      }
      ghost var rest := Dropped(s, i);
      forall k | 0 <= k < |rest| ensures rest[k].next == Following(rest, k) {
        FollowingDropped(s, i, k);
        var o := if k < i then k else k + 1;
        assert s[o].next == if o + 1 == i then links[i] else links[o];
      }
      assert if i > 0 then pages == s[0] else pages == links[0];
    }

    /** A record off the list. */
    method Unlink(before: PageNode?, n: PageNode, ghost i: nat)
      requires OnList() && i < |list| && list[i] == n && before == if i > 0 then list[i - 1] else null
      modifies this`pages, this`nodes, this`list, list`next
      ensures OnList() && list == Dropped(old(list), i) && nodes == old(nodes) - {n.number}
    {
      ListedDropped(nodes, list, Repr, i);
      SpliceNext(before, n, list, i);
      list := Dropped(list, i);
      nodes := nodes - {n.number};
    }

    lemma InRightChain(n: PageNode, i: nat)
      requires Valid() && i < |list| && list[i] == n
      ensures n.number in nodes && nodes[n.number] == n && n in chains[hash(n.number)]
      ensures forall p :: p in nodes ==> nodes[p].number == p
      ensures forall j :: 0 <= j < |list| ==> list[j] in Repr
      ensures forall b :: 0 <= b < |chains| && b != hash(n.number) ==> n !in chains[b]
    {
      assert list[i].number in nodes;
    }

    /** One record off the list and off its chain, in this order. */
    method Remove(before: PageNode?, n: PageNode, ghost i: nat)
      requires Valid() && i < |list| && list[i] == n && before == if i > 0 then list[i - 1] else null
      modifies this`pages, this`nodes, this`list, this`chains, buckets, Repr`next, Repr`hashNext
      ensures Valid() && list == Dropped(old(list), i) && nodes == old(nodes) - {n.number}
    {
      hide Linked, Chained, Dropped, Listed, Agree, NoRepeats;
      ghost var records, chained := nodes, chains;
      InRightChain(n, i);
      Unlink(before, n, i);
      Unindex(n);
      AgreeRemoved(records, chained, chains, hash, n);
    }

    /**
     `remove_pages`: every record of the range is taken off, in list order, and no other.  What is
     dropped is reported in the order in which the source drops backings.
     */
    method RemovePages(first: nat, count: nat) returns (removed: seq<PageNode>)
      requires Valid()
      modifies this`pages, this`nodes, this`list, this`chains, buckets, Repr`next, Repr`hashNext
      ensures Valid()
      ensures removed == Inside(old(list), first, count)
      ensures list == Outside(old(list), first, count)
      ensures nodes == map p | p in old(nodes) && !(first <= p < first + count) :: old(nodes)[p]
    {
      hide Scanned, Position, Outside, Inside, Listed, Valid;
      ghost var all, records := list, nodes;
      ghost var k := 0;
      ScanEnds(all, first, count);
      IsListed();
      var before: PageNode? := null;
      var n := pages;
      removed := [];
      while n != null
        invariant k <= |all| && Valid() && list == Scanned(all, k, first, count)
        invariant removed == Inside(all[..k], first, count)
        invariant n == if k < |all| then all[k] else null
        invariant Position(all, k, first, count) <= |list|
        invariant var i := Position(all, k, first, count); before == if i > 0 then list[i - 1] else null
        invariant forall p :: p in nodes ==> p in records && nodes[p] == records[p]
        decreases |all| - k
      {
        ghost var i := Position(all, k, first, count);
        ScanStep(all, k, first, count);
        NextIs(i);
        var following := n.next;
        if first <= n.number && n.number < first + count {
          Remove(before, n, i);
          removed := removed + [n];
        } else {
          before := n;
        }
        n := following;
        k := k + 1;
      }
      OutsideMembers(all, first, count);
      IsListed();
      RangeGone(records, nodes, all, list, Repr, first, count);
    }

    lemma IsListed()
      requires Valid()
      ensures Listed(nodes, list, Repr) && pages == if list == [] then null else list[0]
    {
    }

    lemma NextIs(i: nat)
      requires Valid() && i < |list|
      ensures list[i].next == Following(list, i)
    {
    }
  }

  lemma RangeGone(
    nodes: map<nat, PageNode>, nodes': map<nat, PageNode>, all: seq<PageNode>, list: seq<PageNode>, records: set<PageNode>,
    first: nat, count: nat)
    requires Listed(nodes, all, records) && Listed(nodes', list, records)
    requires forall n :: n in list <==> n in all && !(first <= n.number < first + count)
    requires forall p :: p in nodes' ==> p in nodes && nodes'[p] == nodes[p]
    ensures nodes' == map p | p in nodes && !(first <= p < first + count) :: nodes[p]
  {
    forall p | p in nodes && !(first <= p < first + count) ensures p in nodes' {
      assert nodes[p] in list;
    }
  }
}
