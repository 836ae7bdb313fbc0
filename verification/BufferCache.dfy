/** buffer_cache.c: hash chains and a doubly linked LRU list over the same buffers, updated by pointer
    surgery, and proved against the value model of `DevModel`. */
module Buffers {
  import opened Blocks
  import opened DevModel
  import opened DiskFile

  class BufferHead {
    const blockNum: Word
    var data: Block
    var valid: bool
    var dirty: bool
    var refCount: int
    var next: BufferHead?
    var prev: BufferHead?
    var hashNext: BufferHead?

    /** `buffer_head_alloc` followed by the caller's copy of the data. */
    constructor (blockNum: Word, data: Block)
      ensures this.blockNum == blockNum && this.data == data && valid && !dirty && refCount == 1
      ensures next == null && prev == null && hashNext == null
    {
      this.blockNum, this.data, valid, dirty, refCount := blockNum, data, true, false, 1;
      next, prev, hashNext := null, null, null;
    }

    function Value(): Buf
      reads this`data, this`valid, this`dirty, this`refCount
    {
      Buf(blockNum, data, valid, dirty, refCount)
    }
  }

  /** The buffers of a list as values. */
  ghost function Values(lru: seq<BufferHead>): (bs: seq<Buf>)
    reads lru`data, lru`valid, lru`dirty, lru`refCount
    ensures |bs| == |lru| && forall i :: 0 <= i < |lru| ==> bs[i] == lru[i].Value()
  {
    if lru == [] then [] else [lru[0].Value()] + Values(lru[1..])
  }

  // ---------- the LRU list ----------

  ghost predicate Distinct(s: seq<BufferHead>) {
    forall i, j :: 0 <= i < j < |s| ==> s[i] != s[j]
  }

  /** `s` is laid out as a doubly linked list. */
  ghost predicate Linked(s: seq<BufferHead>)
    reads s`next, s`prev
  {
    && (forall i: nat {:trigger Before(s, i)} :: i < |s| ==> s[i].prev == Before(s, i))
    && (forall i: nat {:trigger Behind(s, i)} :: i < |s| ==> s[i].next == Behind(s, i))
  }

  ghost function Before(s: seq<BufferHead>, i: nat): BufferHead?
    requires i < |s|
  {
    if i == 0 then null else s[i - 1]
  }

  ghost function Behind(s: seq<BufferHead>, i: nat): BufferHead?
    requires i < |s|
  {
    if i == |s| - 1 then null else s[i + 1]
  }

  ghost function First(s: seq<BufferHead>): BufferHead? { if s == [] then null else s[0] }

  ghost function Last(s: seq<BufferHead>): BufferHead? { if s == [] then null else s[|s| - 1] }

  function Without(s: seq<BufferHead>, k: nat): seq<BufferHead>
    requires k < |s|
  {
    s[..k] + s[k + 1..]
  }

  lemma WithoutWithin(s: seq<BufferHead>, k: nat)
    requires k < |s| && Distinct(s)
    ensures forall x :: x in Without(s, k) ==> x in s
    ensures s[k] !in Without(s, k) && Distinct(Without(s, k))
  {
    var t := Without(s, k);
    assert forall i :: 0 <= i < |t| ==> t[i] == s[if i < k then i else i + 1];
  }

  /** The links of `s` after its node at `k` has been unhooked. */
  ghost predicate Unhooked(s: seq<BufferHead>, k: nat)
    requires k < |s|
    reads s`next, s`prev
  {
    && (forall j: nat {:trigger Before(s, j)} :: j < |s| && j != k ==>
        s[j].prev == if j == k + 1 then Before(s, k) else Before(s, j))
    && (forall j: nat {:trigger Behind(s, j)} :: j < |s| && j != k ==>
        s[j].next == if j == k - 1 then Behind(s, k) else Behind(s, j))
  }

  lemma UnhookedLinks(s: seq<BufferHead>, k: nat)
    requires k < |s| && Distinct(s) && Unhooked(s, k)
    ensures Distinct(Without(s, k)) && Linked(Without(s, k)) && s[k] !in Without(s, k)
    ensures First(Without(s, k)) == (if k == 0 then Behind(s, 0) else s[0])
    ensures Last(Without(s, k)) == (if k == |s| - 1 then Before(s, k) else s[|s| - 1])
  {
    var t := Without(s, k);
    assert forall i :: 0 <= i < |t| ==> t[i] == s[if i < k then i else i + 1];
    forall i | 0 <= i < |t| ensures t[i].prev == Before(t, i) && t[i].next == Behind(t, i) {
      var j := if i < k then i else i + 1;
      assert Before(s, j) == (if j == 0 then null else s[j - 1]);
      assert Behind(s, j) == (if j == |s| - 1 then null else s[j + 1]);
    }
  }

  lemma HeadFirst(s: seq<BufferHead>, k: nat)
    requires k < |s| && Distinct(s)
    ensures First(s) == s[k] ==> s == [s[k]] + Without(s, k)
  {
    if k == 0 { assert s == [s[0]] + s[1..]; } else { assert s[0] != s[k]; }
  }

  class LruList {
    var head: BufferHead?
    var tail: BufferHead?
    ghost var nodes: seq<BufferHead>

    ghost predicate Valid()
      reads this, nodes`next, nodes`prev
    {
      Distinct(nodes) && Linked(nodes) && head == First(nodes) && tail == Last(nodes)
    }

    constructor ()
      ensures Valid() && nodes == []
    {
      head, tail, nodes := null, null, [];
    }

    /** The pointer surgery of `lru_remove`. */
    method Unhook(bh: BufferHead, ghost k: nat)
      requires Valid() && k < |nodes| && nodes[k] == bh
      modifies this`head, this`tail, nodes`next, nodes`prev
      ensures Unhooked(nodes, k) && bh.next == null && bh.prev == null
      ensures head == (if k == 0 then Behind(nodes, 0) else nodes[0])
      ensures tail == (if k == |nodes| - 1 then Before(nodes, k) else nodes[|nodes| - 1])
    {
      assert nodes[k].prev == Before(nodes, k) && nodes[k].next == Behind(nodes, k);
      if bh.prev != null {
        bh.prev.next := bh.next;
      } else {
        head := bh.next;
      }
      if bh.next != null {
        bh.next.prev := bh.prev;
      } else {
        tail := bh.prev;
      }
      bh.prev, bh.next := null, null;
    }

    /** `lru_remove`. */
    method Remove(bh: BufferHead, ghost k: nat)
      requires Valid() && k < |nodes| && nodes[k] == bh
      modifies this, nodes`next, nodes`prev
      ensures Valid() && nodes == Without(old(nodes), k)
      ensures bh.next == null && bh.prev == null
    {
      Unhook(bh, k);
      hide Linked, Unhooked, Without, Before, Behind;
      UnhookedLinks(nodes, k);
      nodes := Without(nodes, k);
    }

    /** `lru_add_to_head`. */
    method AddToHead(bh: BufferHead)
      requires Valid() && bh !in nodes
      modifies this, nodes`next, nodes`prev, bh`next, bh`prev
      ensures Valid() && nodes == [bh] + old(nodes)
    {
      ghost var was := nodes;
      bh.next := head;
      bh.prev := null;
      if head != null {
        head.prev := bh;
      } else {
        tail := bh;
      }
      head := bh;
      nodes := [bh] + was;
      forall i: nat | i < |nodes|
        ensures nodes[i].prev == Before(nodes, i) && nodes[i].next == Behind(nodes, i)
      {
        if i > 0 {
          assert nodes[i] == was[i - 1];
          assert Before(was, i - 1) == (if i == 1 then null else was[i - 2]);
          assert Behind(was, i - 1) == (if i == |was| then null else was[i]);
        }
      }
    }

    /** `lru_move_to_head`. */
    method MoveToHead(bh: BufferHead, ghost k: nat)
      requires Valid() && k < |nodes| && nodes[k] == bh
      modifies this, nodes`next, nodes`prev
      ensures Valid() && nodes == [bh] + Without(old(nodes), k)
    {
      hide Linked, Without, First, Last;
      HeadFirst(nodes, k);
      if head == bh {
        return;
      }
      WithoutWithin(nodes, k);
      Remove(bh, k);
      assert forall i :: 0 <= i < |nodes| ==> nodes[i] in old(nodes);
      AddToHead(bh);
    }
  }
  // ---------- the hash chains ----------

  /** `s` is laid out along `hashNext`. */
  ghost predicate Chained(s: seq<BufferHead>)
    reads s`hashNext
  {
    forall i: nat {:trigger Behind(s, i)} :: i < |s| ==> s[i].hashNext == Behind(s, i)
  }

  lemma UnchainedLinks(s: seq<BufferHead>, k: nat)
    requires k < |s| && Distinct(s)
    requires forall j: nat {:trigger Behind(s, j)} :: j < |s| && j != k ==>
      s[j].hashNext == if j == k - 1 then Behind(s, k) else Behind(s, j)
    ensures Chained(Without(s, k))
    ensures First(Without(s, k)) == (if k == 0 then Behind(s, 0) else s[0])
  {
    var t := Without(s, k);
    assert forall i :: 0 <= i < |t| ==> t[i] == s[if i < k then i else i + 1];
    forall i: nat | i < |t| ensures t[i].hashNext == Behind(t, i) {
      var j := if i < k then i else i + 1;
      assert Behind(s, j) == (if j == |s| - 1 then null else s[j + 1]);
    }
  }

  class HashTable {
    const buckets: array<BufferHead?>
    ghost var chains: seq<seq<BufferHead>>
    ghost var members: set<BufferHead>

    /** Bucket `h` starts a chain of members whose block numbers hash to `h`, each listed once. */
    ghost predicate Bucket(h: nat)
      requires h < |chains| == buckets.Length
      reads this, buckets, chains[h]`hashNext
    {
      && buckets[h] == First(chains[h]) && Chained(chains[h]) && Distinct(chains[h])
      && forall x :: x in chains[h] ==> x in members && x.blockNum % buckets.Length == h
    }

    ghost predicate Valid()
      reads this, buckets, members`hashNext
    {
      && |chains| == buckets.Length > 0
      && (forall h: nat, x :: h < |chains| && x in chains[h] ==> x in members)
      && (forall h: nat :: h < |chains| ==> Bucket(h))
      && (forall x :: x in members ==> x in chains[x.blockNum % buckets.Length])
    }

    constructor (size: nat)
      requires size > 0
      ensures Valid() && members == {} && fresh(buckets) && buckets.Length == size
    {
      buckets := new BufferHead?[size](_ => null);
      chains := seq(size, _ => []);
      members := {};
    }

    /** `hash_lookup`. */
    method Lookup(block: Word) returns (bh: BufferHead?)
      requires Valid()
      ensures bh == null ==> forall x :: x in members ==> x.blockNum != block
      ensures bh != null ==> bh in members && bh.blockNum == block
    {
      var h := block % buckets.Length;
      ghost var chain := chains[h];
      ghost var i: nat := 0;
      assert Bucket(h);
      bh := buckets[h];
      while bh != null
        invariant i <= |chain| && bh == (if i < |chain| then chain[i] else null)
        invariant forall j :: 0 <= j < i ==> chain[j].blockNum != block
        decreases |chain| - i
      {
        if bh.blockNum == block {
          return;
        }
        assert bh.hashNext == Behind(chain, i);
        bh := bh.hashNext;
        i := i + 1;
      }
    }

    /** `hash_insert`. */
    method Insert(bh: BufferHead)
      requires Valid() && bh !in members
      modifies this, buckets, bh`hashNext
      ensures Valid() && members == old(members) + {bh}
    {
      var h := bh.blockNum % buckets.Length;
      ghost var was := chains[h];
      assert Bucket(h);
      bh.hashNext := buckets[h];
      buckets[h] := bh;
      chains := chains[h := [bh] + was];
      members := members + {bh};
      assert Chained(chains[h]) by {
        forall i: nat | i < |chains[h]| ensures chains[h][i].hashNext == Behind(chains[h], i) {
          if i > 0 { assert chains[h][i] == was[i - 1] && was[i - 1].hashNext == Behind(was, i - 1); }
        }
      }
      forall g: nat | g < |chains| ensures Bucket(g) {
        if g == h {
          assert chains[g][0] == bh;
        } else {
          assert old(Bucket(g)) && bh !in chains[g];
          forall i: nat | i < |chains[g]| ensures chains[g][i].hashNext == Behind(chains[g], i) {
            assert chains[g][i] != bh;
          }
        }
      }
    }

    /** The walk of `hash_remove`: `holder` is the node whose link points at `bh`, or null for the bucket
        itself, and `i` its place in the chain. */
    method Find(bh: BufferHead) returns (holder: BufferHead?, ghost i: nat)
      requires Valid() && bh in members
      ensures var chain := chains[bh.blockNum % buckets.Length];
              i < |chain| && chain[i] == bh && holder == Before(chain, i)
    {
      ghost var chain := chains[bh.blockNum % buckets.Length];
      assert Bucket(bh.blockNum % buckets.Length);
      i, holder := 0, null;
      var at := buckets[bh.blockNum % buckets.Length];
      while at != bh
        invariant i < |chain| && at == chain[i] && holder == Before(chain, i)
        invariant bh in chain[i..]
        decreases |chain| - i
      {
        assert at.hashNext == Behind(chain, i);
        holder, at := at, at.hashNext;
        i := i + 1;
      }
    }

    method Unlink(bh: BufferHead, holder: BufferHead?, ghost chain: seq<BufferHead>, ghost i: nat)
      requires buckets.Length > 0 && i < |chain| && chain[i] == bh && holder == Before(chain, i)
      requires Distinct(chain) && Chained(chain) && buckets[bh.blockNum % buckets.Length] == First(chain)
      modifies buckets, chain`hashNext
      ensures bh.hashNext == null && Chained(Without(chain, i))
      ensures buckets[bh.blockNum % buckets.Length] == First(Without(chain, i))
      ensures forall g :: 0 <= g < buckets.Length && g != bh.blockNum % buckets.Length ==> buckets[g] == old(buckets[g])
    {
      assert bh.hashNext == Behind(chain, i);
      if holder == null {
        buckets[bh.blockNum % buckets.Length] := bh.hashNext;
      } else {
        holder.hashNext := bh.hashNext;
      }
      bh.hashNext := null;
      UnchainedLinks(chain, i);
    }

    /** `hash_remove`. */
    method Remove(bh: BufferHead)
      requires Valid() && bh in members
      modifies this, buckets, members`hashNext
      ensures Valid() && members == old(members) - {bh} && bh.hashNext == null
    {
      ghost var h := bh.blockNum % buckets.Length;
      ghost var chain := chains[h];
      assert Bucket(h);
      var holder, i := Find(bh);
      Unlink(bh, holder, chain, i);
      forall g: nat | g < |chains| && g != h ensures Bucket(g) && bh !in chains[g] {
        assert old(Bucket(g));
        assert forall j :: 0 <= j < |chains[g]| ==> chains[g][j] !in chain;
      }
      WithoutWithin(chain, i);
      chains := chains[h := Without(chain, i)];
      members := members - {bh};
    }
  }

  // ---------- the cache ----------

  ghost function NodeSet(s: seq<BufferHead>): (r: set<BufferHead>)
    ensures (forall x :: x in r ==> x in s) && (forall x :: x in s ==> x in r)
  {
    set x | x in s
  }

  lemma MovedSet(s: seq<BufferHead>, k: nat)
    requires k < |s|
    ensures NodeSet([s[k]] + Without(s, k)) == NodeSet(s)
  {
    var t := [s[k]] + Without(s, k);
    forall j | 0 <= j < |s| ensures s[j] in t {
      assert s[j] == t[if j == k then 0 else if j < k then j + 1 else j];
    }
    forall i | 0 <= i < |t| ensures t[i] in s {
      assert t[i] == s[if i == 0 then k else if i <= k then i - 1 else i];
    }
  }

  lemma ValuesConcat(s: seq<BufferHead>, t: seq<BufferHead>)
    ensures Values(s + t) == Values(s) + Values(t)
  {
    hide Values;
    assert forall i :: 0 <= i < |s + t| ==> Values(s + t)[i] == (s + t)[i].Value();
  }

  lemma ValuesWithout(s: seq<BufferHead>, k: nat)
    requires k < |s|
    ensures Values(Without(s, k)) == Values(s)[..k] + Values(s)[k + 1..]
  {
    hide Values;
    ValuesConcat(s[..k], s[k + 1..]);
    assert Values(s[..k]) == Values(s)[..k];
    assert Values(s[k + 1..]) == Values(s)[k + 1..];
  }

  /** Moving the node at `k` to the front moves its value to the front. */
  lemma Moved(s: seq<BufferHead>, k: nat)
    requires k < |s| && Unique(Values(s))
    ensures Values([s[k]] + Without(s, k)) == MoveFront(Values(s), k, s[k].Value())
    ensures Unique(MoveFront(Values(s), k, s[k].Value()))
  {
    hide Values, Without, Unique, IndexOf;
    var vals, v := Values(s), s[k].Value();
    assert Values([s[k]] + Without(s, k)) == MoveFront(vals, k, v) by {
      ValuesConcat([s[k]], Without(s, k));
      ValuesWithout(s, k);
      assert Values([s[k]]) == [v];
      MoveFrontIs(vals, k, v);
    }
    hide MoveFront;
    MoveFrontLooksUp(vals, k, v, 0);
  }

  lemma MoveFrontIs(vals: seq<Buf>, k: nat, v: Buf)
    requires k < |vals|
    ensures MoveFront(vals, k, v) == [v] + (vals[..k] + vals[k + 1..])
  {}

  lemma UniqueNumbers(vals: seq<Buf>, k: nat)
    requires Unique(vals) && k < |vals|
    ensures forall i :: 0 <= i < |vals| && i != k ==> vals[i].num != vals[k].num
  {}

  lemma MoveFrontOver(vals: seq<Buf>, k: nat, v: Buf)
    requires k < |vals|
    ensures MoveFront(vals[k := v], k, v) == MoveFront(vals, k, v)
  {
    assert vals[k := v][..k] == vals[..k] && vals[k := v][k + 1..] == vals[k + 1..];
  }

  /** A change to the buffer at `k` alone changes that value alone. */
  lemma Changed(s: seq<BufferHead>, k: nat, vals: seq<Buf>)
    requires k < |s| == |vals| && (forall j :: 0 <= j < |s| && j != k ==> s[j].Value() == vals[j])
    requires Unique(vals) && s[k].blockNum == vals[k].num
    ensures Values(s) == vals[k := s[k].Value()] && Unique(Values(s))
  {}

  /** A new node in front, for a block that has none. */
  lemma Added(s: seq<BufferHead>, bh: BufferHead, vals: seq<Buf>)
    requires |vals| == |s| && forall j :: 0 <= j < |s| ==> s[j].Value() == vals[j]
    requires Unique(vals) && IndexOf(vals, bh.blockNum) == |vals|
    ensures NodeSet([bh] + s) == NodeSet(s) + {bh}
    ensures Values([bh] + s) == [bh.Value()] + vals && Unique([bh.Value()] + vals)
  {
    var t := [bh] + s;
    assert t[0] == bh && forall i :: 0 <= i < |s| ==> t[i + 1] == s[i];
  }

  ghost predicate InRange(vals: seq<Buf>, n: nat) {
    forall i :: 0 <= i < |vals| ==> vals[i].num < n
  }

  lemma HeadOf(list: LruList)
    requires list.Valid()
    ensures list.head == if list.nodes == [] then null else list.nodes[0]
  {}

  lemma NextOf(s: seq<BufferHead>, i: nat)
    requires i < |s|
    ensures Behind(s, i) == if i == |s| - 1 then null else s[i + 1]
  {}

  lemma PrevOf(s: seq<BufferHead>, i: nat)
    requires i < |s|
    ensures Before(s, i) == if i == 0 then null else s[i - 1]
  {}

  lemma UniqueWithout(vals: seq<Buf>, k: nat)
    requires Unique(vals) && k < |vals|
    ensures Unique(vals[..k] + vals[k + 1..])
  {
    var rest := vals[..k] + vals[k + 1..];
    assert forall i :: 0 <= i < |rest| ==> rest[i] == vals[if i < k then i else i + 1];
  }

  lemma Dropped(s: seq<BufferHead>, k: nat)
    requires k < |s| && Unique(Values(s))
    ensures |Without(s, k)| == |s| - 1 && NodeSet(Without(s, k)) == NodeSet(s) - {s[k]}
    ensures Values(Without(s, k)) == Values(s)[..k] + Values(s)[k + 1..]
    ensures Unique(Values(Without(s, k)))
  {
    hide Values, Unique;
    ValuesWithout(s, k);
    UniqueWithout(Values(s), k);
    var t := Without(s, k);
    UniqueNumbers(Values(s), k);
    assert forall i :: 0 <= i < |s| && i != k ==> s[i] != s[k] by {
      assert forall i :: 0 <= i < |s| ==> Values(s)[i].num == s[i].blockNum;
    }
    assert forall i :: 0 <= i < |t| ==> t[i] == s[if i < k then i else i + 1];
    forall j | 0 <= j < |s| && j != k ensures s[j] in t {
      assert s[j] == t[if j < k then j else j - 1];
    }
  }

  /** The first `i` buffers have been cleaned. */
  ghost predicate Swept(was: seq<Buf>, now: seq<Buf>, i: nat) {
    |now| == |was| && forall j :: 0 <= j < |was| ==> now[j] == if j < i then was[j].(dirty := false) else was[j]
  }

  lemma SweptStep(was: seq<Buf>, now: seq<Buf>, i: nat, blocks: seq<Block>)
    requires i < |was| && Swept(was, now, i)
    ensures now[i] == was[i] && Swept(was, now[i := now[i].(dirty := false)], i + 1)
    ensures was[i].num < |blocks| ==>
      WriteBack(blocks, was[i..])
      == WriteBack(if was[i].dirty then blocks[was[i].num := was[i].data] else blocks, was[i + 1..])
  {
    assert was[i..][1..] == was[i + 1..];
  }

  lemma SweptAll(was: seq<Buf>, now: seq<Buf>, blocks: seq<Block>)
    requires Swept(was, now, |was|)
    ensures now == AllClean(was) && WriteBack(blocks, was[|was|..]) == blocks
  {}

  class BufferCache {
    const lru: LruList
    const table: HashTable
    const maxBuffers: nat
    var currentBuffers: nat

    /** The list and the chains hold the same buffers, no two for one block, and no more than allowed. */
    ghost predicate Valid()
      reads this, lru, lru.nodes, table, table.buckets
    {
      && table.members == NodeSet(lru.nodes)
      && lru.Valid() && table.Valid()
      && Unique(Values(lru.nodes))
      && |lru.nodes| == currentBuffers <= maxBuffers
      && table.buckets.Length == 2 * maxBuffers
    }

    ghost function Model(): seq<Buf>
      reads this, lru, lru.nodes
    {
      Values(lru.nodes)
    }

    /** `buffer_cache_init`; with no buffers at all the C code would hash modulo zero. */
    constructor (maxBuffers: nat)
      requires maxBuffers > 0
      ensures Valid() && Model() == [] && this.maxBuffers == maxBuffers
      ensures fresh(lru) && fresh(table) && fresh(table.buckets)
    {
      this.maxBuffers, currentBuffers := maxBuffers, 0;
      lru := new LruList();
      table := new HashTable(2 * maxBuffers);
    }

    /** What the hash chains find is what a search of the list would find. */
    lemma Located(bh: BufferHead?, block: Word)
      requires Valid()
      requires bh == null ==> forall x :: x in table.members ==> x.blockNum != block
      requires bh != null ==> bh in table.members && bh.blockNum == block
      ensures var k := IndexOf(Model(), block);
              (bh == null <==> k == |lru.nodes|) && (bh != null ==> lru.nodes[k] == bh)
    {
      hide LruList.Valid, HashTable.Valid;
      var k := IndexOf(Model(), block);
      if bh == null {
        forall i | 0 <= i < |lru.nodes| ensures Model()[i].num != block {
          assert lru.nodes[i] in table.members;
        }
      } else {
        var i :| 0 <= i < |lru.nodes| && lru.nodes[i] == bh;
        assert Model()[i].num == block;
      }
    }

    /** Changing what one buffer holds, but none of its links, changes its value alone. */
    twostate lemma Refilled(bh: BufferHead)
      requires old(Valid()) && bh in old(lru.nodes)
      requires unchanged(this, lru, table, table.buckets)
      requires forall x :: x in old(lru.nodes) && x != bh ==> unchanged(x)
      requires unchanged(bh`next, bh`prev, bh`hashNext)
      ensures Valid()
      ensures forall k :: 0 <= k < |lru.nodes| && lru.nodes[k] == bh ==> Model() == old(Model())[k := bh.Value()]
    {
      hide LruList.Valid, HashTable.Valid, NodeSet, Values, Unique;
      ghost var vals := old(Model());
      forall k | 0 <= k < |lru.nodes| && lru.nodes[k] == bh
        ensures Unique(Values(lru.nodes)) && Model() == old(Model())[k := bh.Value()]
      {
        UniqueNumbers(vals, k);
        forall i | 0 <= i < |lru.nodes| && i != k ensures lru.nodes[i].Value() == vals[i] {
          assert vals[i].num == lru.nodes[i].blockNum && vals[k].num == bh.blockNum;
          assert lru.nodes[i] in old(lru.nodes);
        }
        Changed(lru.nodes, k, vals);
      }
      assert forall i :: 0 <= i < |lru.nodes| ==> lru.nodes[i] == bh || lru.nodes[i] in old(lru.nodes);
    }

    /** `lru_move_to_head` on a buffer whose value just changed from what `was` says of it. */
    method Touch(bh: BufferHead, ghost k: nat, ghost was: seq<Buf>)
      requires Valid() && k < |lru.nodes| == |was| && lru.nodes[k] == bh && Model() == was[k := bh.Value()]
      modifies lru, lru.nodes`next, lru.nodes`prev
      ensures Valid() && lru.nodes[0] == bh
      ensures Model() == MoveFront(was, k, bh.Value())
      ensures NodeSet(lru.nodes) == NodeSet(old(lru.nodes))
    {
      hide LruList.Valid, HashTable.Valid, NodeSet, Values, MoveFront, Unique;
      MoveFrontOver(was, k, bh.Value());
      Moved(lru.nodes, k);
      MovedSet(lru.nodes, k);
      ghost var t := [bh] + Without(lru.nodes, k);
      ghost var vals := Values(t);
      lru.MoveToHead(bh, k);
      assert lru.nodes == t;
      assert Values(t) == vals by {
        assert forall i :: 0 <= i < |t| ==> t[i].Value() == vals[i];
      }
    }

    method Hold(bh: BufferHead, ghost k: nat)
      requires Valid() && k < |lru.nodes| && lru.nodes[k] == bh
      modifies lru, lru.nodes`next, lru.nodes`prev, bh`refCount
      ensures Valid() && lru.nodes[0] == bh && NodeSet(lru.nodes) == NodeSet(old(lru.nodes))
      ensures var was := old(Model()); Model() == MoveFront(was, k, was[k].(refs := was[k].refs + 1))
    {
      hide LruList.Valid, HashTable.Valid, NodeSet, Values, Unique, MoveFront;
      ghost var was := Model();
      assert bh.Value() == was[k];
      bh.refCount := bh.refCount + 1;
      Refilled(bh);
      Touch(bh, k, was);
    }

    /** `buffer_cache_lookup`. */
    method Lookup(block: Word) returns (bh: BufferHead?)
      requires Valid()
      modifies lru, lru.nodes`next, lru.nodes`prev, lru.nodes`refCount
      ensures Valid() && NodeSet(lru.nodes) == NodeSet(old(lru.nodes))
      ensures Model() == LookedUp(old(Model()), block)
      ensures bh == null ==> lru.nodes == old(lru.nodes)
      ensures bh == null <==> IndexOf(old(Model()), block) == |old(Model())|
      ensures bh != null ==> bh == First(lru.nodes) && bh.blockNum == block
    {
      hide LruList.Valid, HashTable.Valid, NodeSet, Values, Unique, MoveFront;
      bh := table.Lookup(block);
      Located(bh, block);
      if bh != null {
        ghost var was, k := Model(), IndexOf(Model(), block);
        hide IndexOf;
        Hold(bh, k);
      }
    }

    /** Enter a new buffer for a block that has none. */
    method Adopt(bh: BufferHead)
      requires Valid() && bh !in table.members && currentBuffers < maxBuffers
      requires IndexOf(Model(), bh.blockNum) == |lru.nodes|
      modifies this`currentBuffers, lru, lru.nodes`next, lru.nodes`prev, table, table.buckets, bh
      ensures Valid() && lru.nodes == [bh] + old(lru.nodes)
      ensures bh.Value() == old(bh.Value()) && Model() == [bh.Value()] + old(Model())
    {
      hide LruList.Valid, HashTable.Valid, Values, Unique, NodeSet, IndexOf;
      ghost var was, vals := lru.nodes, Model();
      assert bh !in lru.nodes;
      table.Insert(bh);
      lru.AddToHead(bh);
      currentBuffers := currentBuffers + 1;
      assert forall i :: 0 <= i < |was| ==> was[i].Value() == vals[i];
      Added(was, bh, vals);
    }

    method Refresh(bh: BufferHead, ghost k: nat, data: Block)
      requires Valid() && k < |lru.nodes| && lru.nodes[k] == bh
      modifies lru, lru.nodes
      ensures Valid() && lru.nodes[0] == bh && NodeSet(lru.nodes) == NodeSet(old(lru.nodes))
      ensures var was := old(Model());
              Model() == MoveFront(was, k, was[k].(data := data, valid := true, refs := was[k].refs + 1))
    {
      hide LruList.Valid, HashTable.Valid, NodeSet, Values, Unique, MoveFront;
      ghost var was := Model();
      assert bh.Value() == was[k];
      bh.data := data;
      bh.valid := true;
      bh.refCount := bh.refCount + 1;
      Refilled(bh);
      Touch(bh, k, was);
    }

    /** `buffer_cache_insert`: refresh the block's buffer if it has one, otherwise add one while there is
        room. */
    method Insert(block: Word, data: Block) returns (bh: BufferHead?)
      requires Valid()
      modifies this`currentBuffers, lru, lru.nodes, table, table.buckets
      ensures Valid()
      ensures forall x :: x in lru.nodes ==> x in old(lru.nodes) || fresh(x)
      ensures Model() == Inserted(old(Model()), maxBuffers, block, data)
      ensures bh == null <==> IndexOf(old(Model()), block) == |old(Model())| >= maxBuffers
      ensures bh != null ==> bh == First(lru.nodes) && bh.blockNum == block
    {
      hide LruList.Valid, HashTable.Valid, NodeSet, Values, Unique, MoveFront;
      ghost var was, k := Model(), IndexOf(Model(), block);
      bh := table.Lookup(block);
      Located(bh, block);
      hide IndexOf;
      if bh != null {
        Refresh(bh, k, data);
      } else if currentBuffers < maxBuffers {
        bh := new BufferHead(block, data);
        Adopt(bh);
      }
    }

    /** `buffer_cache_invalidate`, which leaves the list order alone. */
    method Invalidate(block: Word)
      requires Valid()
      modifies lru.nodes`valid, lru.nodes`dirty
      ensures Valid() && Model() == Invalidated(old(Model()), block)
    {
      hide LruList.Valid, HashTable.Valid, NodeSet, Values, Unique;
      ghost var k := IndexOf(Model(), block);
      var bh := table.Lookup(block);
      Located(bh, block);
      hide IndexOf;
      if bh != null {
        assert bh.Value() == Model()[k];
        bh.valid := false;
        bh.dirty := false;
        Refilled(bh);
      }
    }

    method CleanOne(bh: BufferHead, disk: Disk, ghost i: nat)
      requires Valid() && i < |lru.nodes| && lru.nodes[i] == bh && bh.blockNum < |disk.blocks|
      modifies disk, bh`dirty
      ensures Valid() && Model() == old(Model())[i := old(Model())[i].(dirty := false)]
      ensures disk.blocks == old(if bh.dirty then disk.blocks[bh.blockNum := bh.data] else disk.blocks)
      ensures bh.next == Behind(lru.nodes, i)
    {
      hide HashTable.Valid, NodeSet, Values, Unique;
      assert bh.Value() == Model()[i] && bh.next == Behind(lru.nodes, i);
      hide LruList.Valid;
      if bh.dirty {
        disk.WriteBlock(bh.blockNum, bh.data);
        bh.dirty := false;
        Refilled(bh);
      }
    }

    /** `buffer_cache_sync`: one walk from the head, writing and cleaning what is dirty. */
    method Sync(disk: Disk)
      requires Valid() && InRange(Model(), |disk.blocks|)
      modifies disk, lru.nodes`dirty
      ensures Valid() && Model() == AllClean(old(Model()))
      ensures disk.blocks == WriteBack(old(disk.blocks), old(Model()))
    {
      hide LruList.Valid, HashTable.Valid, NodeSet, Values, Unique, Behind, WriteBack;
      ghost var was := Model();
      ghost var i: nat := 0;
      var bh := lru.head;
      HeadOf(lru);
      while bh != null
        invariant Valid() && i <= |was| == |lru.nodes| && lru.nodes == old(lru.nodes)
        invariant |disk.blocks| == |old(disk.blocks)|
        invariant bh == if i < |lru.nodes| then lru.nodes[i] else null
        invariant Swept(was, Model(), i)
        invariant WriteBack(disk.blocks, was[i..]) == WriteBack(old(disk.blocks), was)
        decreases |was| - i
      {
        assert bh.Value() == Model()[i] && was[i].num < |disk.blocks|;
        SweptStep(was, Model(), i, disk.blocks);
        CleanOne(bh, disk, i);
        assert Behind(lru.nodes, i)
          == (if i == |lru.nodes| - 1 then null else lru.nodes[i + 1]) by { NextOf(lru.nodes, i); }
        i := i + 1;
        bh := bh.next;
      }
      SweptAll(was, Model(), disk.blocks);
    }

    /** The search of `evict_lru_buffer`, from the tail towards the head. */
    method FindVictim() returns (bh: BufferHead?, ghost k: nat)
      requires Valid()
      ensures k == Victim(Model()) && (bh == null <==> k == |lru.nodes|) && (bh != null ==> bh == lru.nodes[k])
    {
      hide HashTable.Valid, NodeSet, Values, Unique, Before, Victim;
      ghost var n := |lru.nodes|;
      bh := lru.tail;
      k := n;
      while bh != null
        invariant k <= n && bh == if k == 0 then null else lru.nodes[k - 1]
        invariant forall j :: k <= j < n ==> Model()[j].refs != 0
        decreases k
      {
        assert Model()[k - 1] == bh.Value();
        if bh.refCount == 0 {
          k := k - 1;
          return;
        }
        assert bh.prev == Before(lru.nodes, k - 1);
        PrevOf(lru.nodes, k - 1);
        bh := bh.prev;
        k := k - 1;
      }
      k := n;
    }

    method Forget(bh: BufferHead, ghost k: nat)
      requires Valid() && k < |lru.nodes| && lru.nodes[k] == bh
      modifies this`currentBuffers, lru, lru.nodes, table, table.buckets
      ensures Valid() && lru.nodes == Without(old(lru.nodes), k)
      ensures Model() == old(Model())[..k] + old(Model())[k + 1..]
    {
      hide LruList.Valid, HashTable.Valid, NodeSet, Values, Unique, Without;
      Dropped(lru.nodes, k);
      ghost var t := Without(lru.nodes, k);
      ghost var vals := Values(t);
      assert bh in NodeSet(lru.nodes);
      table.Remove(bh);
      lru.Remove(bh, k);
      currentBuffers := currentBuffers - 1;
      assert Values(t) == vals by {
        assert forall i :: 0 <= i < |t| ==> t[i].Value() == vals[i];
      }
    }

    /** `evict_lru_buffer`. */
    method EvictLru(disk: Disk) returns (ok: bool)
      requires Valid() && InRange(Model(), |disk.blocks|)
      modifies this`currentBuffers, disk, lru, lru.nodes, table, table.buckets
      ensures Valid()
      ensures (Dev(disk.blocks, Model(), maxBuffers), ok) == EvictStep(old(Dev(disk.blocks, Model(), maxBuffers)))
    {
      hide LruList.Valid, HashTable.Valid, NodeSet, Values, Unique, Without, Victim;
      var bh, k := FindVictim();
      ok := bh != null;
      if bh != null {
        assert Model()[k] == bh.Value();
        if bh.dirty {
          disk.WriteBlock(bh.blockNum, bh.data);
        }
        Forget(bh, k);
      }
    }
  }
}
