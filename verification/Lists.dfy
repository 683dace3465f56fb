/** Circular doubly linked lists, intrusive: the links are fields of the listed objects. */
module Lists {
  import opened Sequences

  /** What a node is embedded in: a caller's list head, the free-list head of a zone, or the page
      with this index in this zone. */
  datatype Owner = Head(id: nat) | FreeHead(zone: nat) | PageOf(zone: nat, index: nat)

  class ListNode {
    /** The enclosing object, which `container_of` finds. */
    const owner: Owner
    var prev: ListNode?
    var next: ListNode?

    constructor (owner: Owner)
      ensures this.owner == owner && prev == null && next == null
    {
      this.owner := owner;
      prev, next := null, null;
    }
  }

  /** Once round the ring: the head, the listed nodes, and the head again. */
  function Lap(head: ListNode, s: seq<ListNode>): seq<ListNode> {
    [head] + s + [head]
  }

  /** `s` is what the list with this head holds: along the lap, next and prev are inverse. */
  ghost predicate Ring(head: ListNode, s: seq<ListNode>)
    reads head, s
  {
    && head !in s && Distinct(s)
    && Links(Lap(head, s))
  }

  ghost predicate Links(lap: seq<ListNode>)
    reads lap
  {
    && (forall i :: 0 <= i < |lap| - 1 ==> lap[i].next == lap[i + 1])
    && (forall i :: 0 < i < |lap| ==> lap[i].prev == lap[i - 1])
  }

  /** Two contents of one list agree as far as both go. */
  lemma {:induction false} RingsAgree(head: ListNode, s: seq<ListNode>, t: seq<ListNode>, n: nat)
    requires Ring(head, s) && Ring(head, t) && n <= |s| && n <= |t|
    ensures forall i :: 0 <= i <= n ==> Lap(head, s)[i] == Lap(head, t)[i]
  {
    if n > 0 {
      RingsAgree(head, s, t, n - 1);
      assert Lap(head, s)[n - 1].next == Lap(head, s)[n] && Lap(head, t)[n - 1].next == Lap(head, t)[n];
    }
  }

  /** The links determine what a list holds. */
  lemma RingIsUnique(head: ListNode, s: seq<ListNode>, t: seq<ListNode>)
    requires Ring(head, s) && Ring(head, t)
    ensures s == t
  {
    var n := if |s| <= |t| then |s| else |t|;
    RingsAgree(head, s, t, n);
    assert Lap(head, s)[n].next == Lap(head, s)[n + 1] && Lap(head, t)[n].next == Lap(head, t)[n + 1];
    assert forall i :: 0 <= i < n ==> s[i] == Lap(head, s)[i + 1] && t[i] == Lap(head, t)[i + 1];
  }

  /** The nodes of a ring, which an operation on it may change. */
  ghost function Nodes(head: ListNode, s: seq<ListNode>): set<ListNode> {
    {head} + set n | n in s
  }

  /** `list_init` */
  method LinkInit(list: ListNode)
    modifies list
    ensures Ring(list, [])
  {
    list.prev := list;
    list.next := list;
  }

  /** `list_add` */
  method LinkAdd(head: ListNode, newEntry: ListNode, ghost s: seq<ListNode>)
    requires Ring(head, s) && newEntry !in [head] + s
    modifies Nodes(head, s), newEntry
    ensures Ring(head, [newEntry] + s)
  {
    ghost var lap, lap' := Lap(head, s), Lap(head, [newEntry] + s);
    assert lap[0].next == lap[1];
    newEntry.next := head.next;
    newEntry.prev := head;
    head.next.prev := newEntry;
    head.next := newEntry;
    assert lap'[0] == head && lap'[1] == newEntry;
    assert forall i :: 2 <= i < |lap'| ==> lap'[i] == lap[i - 1];
    assert Links(lap');
  }

  /** `list_add_tail` */
  method LinkAddTail(head: ListNode, newEntry: ListNode, ghost s: seq<ListNode>)
    requires Ring(head, s) && newEntry !in [head] + s
    modifies Nodes(head, s), newEntry
    ensures Ring(head, s + [newEntry])
  {
    ghost var lap, lap' := Lap(head, s), Lap(head, s + [newEntry]);
    assert lap[|s| + 1].prev == lap[|s|];
    newEntry.prev := head.prev;
    newEntry.next := head;
    head.prev.next := newEntry;
    head.prev := newEntry;
    assert lap'[|s| + 1] == newEntry && lap'[|s| + 2] == head;
    assert forall i :: 0 <= i <= |s| ==> lap'[i] == lap[i];
    assert Links(lap');
  }

  /** `list_replace` of entry `k` */
  method LinkReplace(oldEntry: ListNode, newEntry: ListNode, ghost head: ListNode, ghost s: seq<ListNode>, ghost k: nat)
    requires Ring(head, s) && newEntry !in [head] + s && k < |s| && s[k] == oldEntry
    modifies Nodes(head, s), newEntry
    ensures Ring(head, s[k := newEntry])
  {
    ghost var lap, lap' := Lap(head, s), Lap(head, s[k := newEntry]);
    assert lap[k + 1] == oldEntry && lap[k + 1].next == lap[k + 2] && lap[k + 1].prev == lap[k];
    newEntry.next := oldEntry.next;
    newEntry.prev := oldEntry.prev;
    oldEntry.prev.next := newEntry;
    oldEntry.next.prev := newEntry;
    assert lap'[k + 1] == newEntry;
    assert forall i :: 0 <= i < |lap'| && i != k + 1 ==> lap'[i] == lap[i];
    assert Links(lap');
  }

  /** `list_delete` of entry `k` */
  method LinkDelete(entry: ListNode, ghost head: ListNode, ghost s: seq<ListNode>, ghost k: nat)
    requires Ring(head, s) && k < |s| && s[k] == entry
    modifies Nodes(head, s)
    ensures Ring(head, Without(s, k)) && entry.prev == null && entry.next == null
  {
    ghost var lap, lap' := Lap(head, s), Lap(head, Without(s, k));
    assert lap[k + 1] == entry && lap[k + 1].next == lap[k + 2] && lap[k + 1].prev == lap[k];
    entry.next.prev := entry.prev;
    entry.prev.next := entry.next;
    entry.prev := null;
    entry.next := null;
    forall i | 0 <= i < |lap'| - 1 ensures lap'[i].next == lap'[i + 1] {
      WithoutLap(head, s, k, i);
      WithoutLap(head, s, k, i + 1);
    }
    forall i | 0 < i < |lap'| ensures lap'[i].prev == lap'[i - 1] {
      WithoutLap(head, s, k, i);
      WithoutLap(head, s, k, i - 1);
    }
  }

  lemma WithoutLap(head: ListNode, s: seq<ListNode>, k: nat, i: nat)
    requires k < |s| && i <= |s|
    ensures Lap(head, Without(s, k))[i] == if i <= k then Lap(head, s)[i] else Lap(head, s)[i + 1]
  {
  }

  /** `list_split_after` */
  method LinkSplitAfter(list: ListNode, pos: ListNode, splitTo: ListNode, ghost s: seq<ListNode>, ghost k: nat)
    requires Ring(list, s) && splitTo !in [list] + s && k <= |s| && pos == Lap(list, s)[k]
    modifies Nodes(list, s), splitTo
    ensures Ring(list, s[..k]) && Ring(splitTo, s[k..])
  {
    ghost var lap := Lap(list, s);
    assert lap[k].next == lap[k + 1];
    assert lap[|s| + 1].prev == lap[|s|];
    if pos.next == list {
      assert k == |s|;
      LinkInit(splitTo);
      assert s[..k] == s && s[k..] == [];
      return;
    }
    LinkSplitCut(list, pos, splitTo, s, k);
  }

  method LinkSplitCut(list: ListNode, pos: ListNode, splitTo: ListNode, ghost s: seq<ListNode>, ghost k: nat)
    requires Ring(list, s) && splitTo !in [list] + s && k < |s| && pos == Lap(list, s)[k]
    modifies Nodes(list, s), splitTo
    ensures Ring(list, s[..k]) && Ring(splitTo, s[k..])
  {
    ghost var lap := Lap(list, s);
    assert lap[k].next == lap[k + 1] && lap[k + 1].prev == lap[k];
    assert lap[|s| + 1].prev == lap[|s|] && lap[|s|].next == list;
    splitTo.prev := list.prev;
    splitTo.prev.next := splitTo;
    splitTo.next := pos.next;
    splitTo.next.prev := splitTo;
    pos.next := list;
    list.prev := pos;
    FrontLinks(list, s, k);
    BackLinks(list, splitTo, s, k);
  }

  lemma FrontLinks(list: ListNode, s: seq<ListNode>, k: nat)
    requires k < |s|
    requires forall i :: 0 <= i < k ==> Lap(list, s)[i].next == Lap(list, s)[i + 1]
    requires forall i :: 0 < i <= k ==> Lap(list, s)[i].prev == Lap(list, s)[i - 1]
    requires Lap(list, s)[k].next == list && list.prev == Lap(list, s)[k]
    ensures Links(Lap(list, s[..k]))
  {
    var lap, lapA := Lap(list, s), Lap(list, s[..k]);
    assert forall i :: 0 <= i <= k ==> lapA[i] == lap[i];
  }

  lemma BackLinks(list: ListNode, to: ListNode, s: seq<ListNode>, k: nat)
    requires k < |s|
    requires forall i :: k < i < |s| ==> Lap(list, s)[i].next == Lap(list, s)[i + 1]
    requires forall i :: k + 1 < i <= |s| ==> Lap(list, s)[i].prev == Lap(list, s)[i - 1]
    requires to.next == Lap(list, s)[k + 1] && Lap(list, s)[k + 1].prev == to
    requires Lap(list, s)[|s|].next == to && to.prev == Lap(list, s)[|s|]
    ensures Links(Lap(to, s[k..]))
  {
    var lap, lapB := Lap(list, s), Lap(to, s[k..]);
    assert forall i :: 0 < i <= |s| - k ==> lapB[i] == lap[k + i];
  }

  /** `list_splice_after`, for a list that is not empty */
  method LinkSpliceAfter(from: ListNode, pos: ListNode, ghost t: seq<ListNode>, ghost head: ListNode,
                         ghost s: seq<ListNode>, ghost k: nat)
    requires Ring(from, t) && t != [] && Ring(head, s) && Nodes(from, t) !! Nodes(head, s)
    requires k <= |s| && pos == Lap(head, s)[k]
    modifies Nodes(from, t), Nodes(head, s)
    ensures Ring(from, []) && Ring(head, s[..k] + t + s[k..])
  {
    assert forall n :: n in t ==> n in Nodes(from, t) && n !in Nodes(head, s);
    DistinctSplice(s, t, k);
    assert head !in s[..k] + t + s[k..] && from !in Lap(head, s[..k] + t + s[k..]);
    LinkSpliceIn(from, pos, t, head, s, k);
    LinkInit(from);
  }

  method LinkSpliceIn(from: ListNode, pos: ListNode, ghost t: seq<ListNode>, ghost head: ListNode,
                      ghost s: seq<ListNode>, ghost k: nat)
    requires Ring(from, t) && t != [] && Ring(head, s) && Nodes(from, t) !! Nodes(head, s)
    requires k <= |s| && pos == Lap(head, s)[k]
    modifies t, Nodes(head, s)
    ensures Links(Lap(head, s[..k] + t + s[k..]))
  {
    ghost var lap, lapT := Lap(head, s), Lap(from, t);
    assert lap[k].next == lap[k + 1] && lap[k + 1].prev == lap[k];
    assert lapT[0].next == lapT[1] && lapT[|t| + 1].prev == lapT[|t|];
    from.next.prev := pos;
    from.prev.next := pos.next;
    pos.next.prev := from.prev;
    pos.next := from.next;
    SplicedLinks(head, s, from, t, k);
  }

  /** Two laps whose links were rewritten where they are joined. */
  lemma SplicedLinks(head: ListNode, s: seq<ListNode>, from: ListNode, t: seq<ListNode>, k: nat)
    requires k <= |s| && t != []
    requires forall i :: 0 <= i <= |s| && i != k ==> Lap(head, s)[i].next == Lap(head, s)[i + 1]
    requires forall i :: 0 < i <= |s| + 1 && i != k + 1 ==> Lap(head, s)[i].prev == Lap(head, s)[i - 1]
    requires forall i :: 0 < i < |t| ==> Lap(from, t)[i].next == Lap(from, t)[i + 1]
    requires forall i :: 1 < i <= |t| ==> Lap(from, t)[i].prev == Lap(from, t)[i - 1]
    requires Lap(head, s)[k].next == t[0] && t[0].prev == Lap(head, s)[k]
    requires t[|t| - 1].next == Lap(head, s)[k + 1] && Lap(head, s)[k + 1].prev == t[|t| - 1]
    ensures Links(Lap(head, s[..k] + t + s[k..]))
  {
    var lapU := Lap(head, s[..k] + t + s[k..]);
    forall i | 0 <= i < |lapU| - 1 ensures lapU[i].next == lapU[i + 1] {
      SpliceLap(head, s, from, t, k, i);
      SpliceLap(head, s, from, t, k, i + 1);
    }
    forall i | 0 < i < |lapU| ensures lapU[i].prev == lapU[i - 1] {
      SpliceLap(head, s, from, t, k, i);
      SpliceLap(head, s, from, t, k, i - 1);
    }
  }

  lemma SpliceLap(head: ListNode, s: seq<ListNode>, from: ListNode, t: seq<ListNode>, k: nat, i: nat)
    requires k <= |s| && i <= |s| + |t| + 1
    ensures Lap(head, s[..k] + t + s[k..])[i]
         == if i <= k then Lap(head, s)[i] else if i <= k + |t| then Lap(from, t)[i - k] else Lap(head, s)[i - |t|]
  {
  }

  lemma DistinctSplice(s: seq<ListNode>, t: seq<ListNode>, k: nat)
    requires Distinct(s) && Distinct(t) && k <= |s|
    requires forall n :: n in t ==> n !in s
    ensures Distinct(s[..k] + t + s[k..])
  {
    var u := s[..k] + t + s[k..];
    forall i, j | 0 <= i < j < |u| ensures u[i] != u[j] {
      if k <= i < k + |t| && !(k <= j < k + |t|) {
        assert u[i] in t;
      } else if k <= j < k + |t| && !(k <= i < k + |t|) {
        assert u[j] in t;
      }
    }
  }

  lemma Restored<K, V>(m: map<K, V>, a: K, x: V, b: K, y: V, z: V)
    requires a in m && a != b
    ensures m[a := x][b := y][a := m[a]][b := z] == m[b := z]
  {
  }

  /** No node is on two rings. */
  ghost predicate Disjoint(lists: map<ListNode, seq<ListNode>>) {
    forall h, k, n :: h in lists && k in lists && n in Nodes(h, lists[h]) && n in Nodes(k, lists[k]) ==> h == k
  }

  ghost predicate LooseIn(lists: map<ListNode, seq<ListNode>>, n: ListNode) {
    forall h :: h in lists ==> n !in Nodes(h, lists[h])
  }

  /** A node that leaves its list is on none. */
  lemma LeavesLoose(lists: map<ListNode, seq<ListNode>>, h: ListNode, a: seq<ListNode>, n: ListNode)
    requires Disjoint(lists) && h in lists && n in lists[h] && n !in [h] + a
    ensures LooseIn(lists[h := a], n)
  {
    assert n in Nodes(h, lists[h]);
  }

  /** One list may take new contents from nodes no other list has. */
  lemma OneDisjoint(lists: map<ListNode, seq<ListNode>>, h: ListNode, a: seq<ListNode>, pool: set<ListNode>)
    requires Disjoint(lists) && Nodes(h, a) <= pool
    requires forall k :: k in lists && k != h ==> Nodes(k, lists[k]) !! pool
    ensures Disjoint(lists[h := a])
  {
  }

  /** So may two lists that share no node. */
  lemma TwoDisjoint(lists: map<ListNode, seq<ListNode>>, h: ListNode, a: seq<ListNode>, g: ListNode, b: seq<ListNode>,
                    pool: set<ListNode>)
    requires Disjoint(lists) && h != g && Nodes(h, a) <= pool && Nodes(g, b) <= pool && Nodes(h, a) !! Nodes(g, b)
    requires forall k :: k in lists && k != h && k != g ==> Nodes(k, lists[k]) !! pool
    ensures Disjoint(lists[h := a][g := b])
  {
  }

  lemma SpliceDisjoint(lists: map<ListNode, seq<ListNode>>, head: ListNode, from: ListNode, k: nat)
    requires Disjoint(lists) && head in lists && from in lists && head != from && k <= |lists[head]|
    requires from !in lists[from]
    ensures Nodes(from, lists[from]) !! Nodes(head, lists[head])
    ensures Nodes(head, lists[head][..k] + lists[from] + lists[head][k..])
         <= Nodes(head, lists[head]) + Nodes(from, lists[from])
    ensures Disjoint(lists[head := lists[head][..k] + lists[from] + lists[head][k..]][from := []])
  {
    var s, t := lists[head], lists[from];
    var u := s[..k] + t + s[k..];
    assert forall n :: n in u ==> n in s || n in t;
    TwoDisjoint(lists, head, u, from, [], Nodes(head, s) + Nodes(from, t));
  }

  /** A new list that takes over the contents of another. */
  lemma MovedOver<K, V>(m: map<K, seq<V>>, a: K, b: K, t: seq<V>)
    requires a != b
    ensures m[b := []][b := [][..0] + t + [][0..]][a := []] == m[b := t][a := []]
  {
    assert [][..0] + t + [][0..] == t;
  }

  /** A heap of lists: each head with the nodes it lists.  Lists are disjoint. */
  class Rings {
    ghost var lists: map<ListNode, seq<ListNode>>
    ghost var repr: set<ListNode>

    ghost predicate Valid()
      reads this, repr
    {
      && (forall h :: h in lists ==> Nodes(h, lists[h]) <= repr)
      && (forall h :: h in lists ==> Ring(h, lists[h]))
      && Disjoint(lists)
    }

    /** The node is on no list and heads none. */
    ghost predicate Loose(n: ListNode)
      reads this
    {
      LooseIn(lists, n)
    }

    /** Records the new contents of one list, after its links were rewritten. */
    ghost method RecordOne(h: ListNode, a: seq<ListNode>, x: ListNode)
      requires Disjoint(lists[h := a]) && Nodes(h, a) <= repr + {x}
      requires forall k :: k in lists && k != h ==> Nodes(k, lists[k]) <= repr && Ring(k, lists[k])
      requires Ring(h, a)
      modifies this
      ensures Valid()
      ensures lists == old(lists)[h := a] && repr == old(repr) + {x}
    {
      lists := lists[h := a];
      repr := repr + {x};
    }

    /** Records new contents for two lists, after their links were rewritten. */
    ghost method Record(h: ListNode, a: seq<ListNode>, g: ListNode, b: seq<ListNode>)
      requires h != g && Disjoint(lists[h := a][g := b])
      requires forall k :: k in lists && k != h && k != g ==> Nodes(k, lists[k]) <= repr && Ring(k, lists[k])
      requires Ring(h, a) && Ring(g, b)
      modifies this
      ensures Valid()
      ensures lists == old(lists)[h := a][g := b] && repr == old(repr) + Nodes(h, a) + Nodes(g, b)
    {
      lists := lists[h := a][g := b];
      repr := repr + Nodes(h, a) + Nodes(g, b);
    }

    constructor ()
      ensures Valid() && lists == map[] && repr == {}
    {
      lists, repr := map[], {};
    }

    /** `list_init` */
    method Init(list: ListNode)
      requires Valid() && Loose(list)
      modifies this, list
      ensures Valid()
      ensures lists == old(lists)[list := []] && repr == old(repr) + {list}
    {
      LinkInit(list);
      lists := lists[list := []];
      repr := repr + {list};
    }

    /** An empty list whose head goes out of scope. */
    ghost method Forget(list: ListNode)
      requires Valid() && list in lists && lists[list] == []
      modifies this
      ensures Valid() && lists == old(lists) - {list} && repr == old(repr)
    {
      lists := lists - {list};
    }

    /** `list_add`: the new entry comes first. */
    method Add(head: ListNode, newEntry: ListNode)
      requires Valid() && head in lists && Loose(newEntry)
      modifies this, repr, newEntry
      ensures Valid()
      ensures lists == old(lists)[head := [newEntry] + old(lists)[head]] && repr == old(repr) + {newEntry}
    {
      ghost var s := lists[head];
      OneDisjoint(lists, head, [newEntry] + s, Nodes(head, s) + {newEntry});
      LinkAdd(head, newEntry, s);
      RecordOne(head, [newEntry] + s, newEntry);
    }

    /** `list_add_tail`: the new entry comes last. */
    method AddTail(head: ListNode, newEntry: ListNode)
      requires Valid() && head in lists && Loose(newEntry)
      modifies this, repr, newEntry
      ensures Valid()
      ensures lists == old(lists)[head := old(lists)[head] + [newEntry]] && repr == old(repr) + {newEntry}
    {
      ghost var s := lists[head];
      OneDisjoint(lists, head, s + [newEntry], Nodes(head, s) + {newEntry});
      LinkAddTail(head, newEntry, s);
      RecordOne(head, s + [newEntry], newEntry);
    }

    /** `list_replace` of entry `k` of a list. */
    method Replace(oldEntry: ListNode, newEntry: ListNode, ghost head: ListNode, ghost k: nat)
      requires Valid() && head in lists && k < |lists[head]| && lists[head][k] == oldEntry
      requires Loose(newEntry)
      modifies this, repr, newEntry
      ensures Valid() && Loose(oldEntry)
      ensures lists == old(lists)[head := old(lists)[head][k := newEntry]] && repr == old(repr) + {newEntry}
    {
      ghost var s := lists[head];
      OneDisjoint(lists, head, s[k := newEntry], Nodes(head, s) + {newEntry});
      LeavesLoose(lists, head, s[k := newEntry], oldEntry);
      LinkReplace(oldEntry, newEntry, head, s, k);
      RecordOne(head, s[k := newEntry], newEntry);
    }

    /** `list_delete` of entry `k` of a list: it leaves the list and its own links are cleared. */
    method Delete(entry: ListNode, ghost head: ListNode, ghost k: nat)
      requires Valid() && head in lists && k < |lists[head]| && lists[head][k] == entry
      modifies this, repr
      ensures Valid() && Loose(entry) && entry.prev == null && entry.next == null
      ensures lists == old(lists)[head := Without(old(lists)[head], k)] && repr == old(repr)
    {
      ghost var s := lists[head];
      OneDisjoint(lists, head, Without(s, k), Nodes(head, s));
      LeavesLoose(lists, head, Without(s, k), entry);
      LinkDelete(entry, head, s, k);
      RecordOne(head, Without(s, k), entry);
    }

    /** `list_is_empty` */
    method IsEmpty(list: ListNode) returns (empty: bool)
      requires Valid() && list in lists
      ensures empty <==> lists[list] == []
    {
      ghost var lap := Lap(list, lists[list]);
      assert lap[0].next == lap[1];
      empty := list.prev == list && list.next == list;
    }

    /** `list_is_list`: a node has no links only when it is on no list and heads none. */
    method IsList(head: ListNode) returns (b: bool)
      requires Valid()
      ensures b <==> head.next != null || head.prev != null
      ensures !Loose(head) ==> b
    {
      b := !(head.next == null && head.prev == null);
      if !Loose(head) {
        ghost var h :| h in lists && head in Nodes(h, lists[h]);
        ghost var s, lap := lists[h], Lap(h, lists[h]);
        ghost var i := if head == h then 0 else var k :| 0 <= k < |s| && s[k] == head; k + 1;
        assert lap[i] == head && lap[i].next == lap[i + 1];
      }
    }

    /** `list_peek_head` */
    method PeekHead(list: ListNode) returns (n: ListNode?)
      requires Valid() && list in lists
      ensures n == if lists[list] == [] then null else lists[list][0]
    {
      ghost var lap := Lap(list, lists[list]);
      assert lap[0].next == lap[1];
      n := if list.next != list then list.next else null;
    }

    /** `list_peek_tail` */
    method PeekTail(list: ListNode) returns (n: ListNode?)
      requires Valid() && list in lists
      ensures n == if lists[list] == [] then null else lists[list][|lists[list]| - 1]
    {
      ghost var s := lists[list];
      ghost var lap := Lap(list, s);
      assert lap[|s| + 1].prev == lap[|s|];
      n := if list.prev != list then list.prev else null;
    }

    /** `list_remove_head` */
    method RemoveHead(head: ListNode) returns (item: ListNode?)
      requires Valid() && head in lists
      modifies this, repr
      ensures Valid() && repr == old(repr)
      ensures old(lists)[head] == [] ==> item == null && lists == old(lists)
      ensures old(lists)[head] != [] ==>
                && item == old(lists)[head][0] && Loose(item)
                && lists == old(lists)[head := old(lists)[head][1..]]
    {
      ghost var s := lists[head];
      ghost var lap := Lap(head, s);
      assert lap[0].next == lap[1];
      item := null;
      if head.next != head {
        item := head.next;
        Delete(item, head, 0);
        assert Without(s, 0) == s[1..];
      }
    }

    /** `list_remove_tail` */
    method RemoveTail(list: ListNode) returns (item: ListNode?)
      requires Valid() && list in lists
      modifies this, repr
      ensures Valid() && repr == old(repr)
      ensures old(lists)[list] == [] ==> item == null && lists == old(lists)
      ensures old(lists)[list] != [] ==>
                var s := old(lists)[list];
                && item == s[|s| - 1] && Loose(item)
                && lists == old(lists)[list := s[..|s| - 1]]
    {
      ghost var s := lists[list];
      ghost var lap := Lap(list, s);
      assert lap[|s| + 1].prev == lap[|s|];
      item := null;
      if list.prev != list {
        item := list.prev;
        Delete(item, list, |s| - 1);
        assert Without(s, |s| - 1) == s[..|s| - 1];
      }
    }

    /** `list_length`: the walk ends, having counted every listed node once. */
    method Length(list: ListNode) returns (cnt: nat)
      requires Valid() && list in lists
      ensures cnt == |lists[list]|
    {
      cnt := 0;
      ghost var lap := Lap(list, lists[list]);
      assert lap[0].next == lap[1];
      var node: ListNode? := list.next;
      while node != list
        invariant cnt <= |lists[list]| && node == lap[cnt + 1]
        decreases |lists[list]| - cnt
      {
        assert lap[cnt + 1].next == lap[cnt + 2];
        cnt := cnt + 1;
        node := node.next;
      }
    }

    /** `list_split_after`: what follows `pos` moves to `splitTo`.  Position 0 is the head. */
    method SplitAfter(list: ListNode, pos: ListNode, splitTo: ListNode, ghost k: nat)
      requires Valid() && list in lists && k <= |lists[list]| && pos == Lap(list, lists[list])[k]
      requires splitTo != list && (Loose(splitTo) || (splitTo in lists && lists[splitTo] == []))
      modifies this, repr, splitTo
      ensures Valid() && repr == old(repr) + {splitTo}
      ensures lists == old(lists)[list := old(lists)[list][..k]][splitTo := old(lists)[list][k..]]
    {
      ghost var s := lists[list];
      ghost var pool := Nodes(list, s) + {splitTo};
      assert Nodes(list, s[..k]) !! Nodes(splitTo, s[k..]);
      TwoDisjoint(lists, list, s[..k], splitTo, s[k..], pool);
      LinkSplitAfter(list, pos, splitTo, s, k);
      Record(list, s[..k], splitTo, s[k..]);
    }

    /** `list_splice_after`: the contents of `from` are inserted after position `k` of a list. */
    method SpliceAfter(from: ListNode, pos: ListNode, ghost head: ListNode, ghost k: nat)
      requires Valid() && from in lists && head in lists && head != from
      requires k <= |lists[head]| && pos == Lap(head, lists[head])[k]
      modifies this, repr
      ensures Valid() && repr == old(repr)
      ensures lists == old(lists)[head := old(lists)[head][..k] + old(lists)[from] + old(lists)[head][k..]][from := []]
    {
      ghost var s, t := lists[head], lists[from];
      var empty := IsEmpty(from);
      if empty {
        assert s[..k] + t + s[k..] == s;
        return;
      }
      SpliceDisjoint(lists, head, from, k);
      LinkSpliceAfter(from, pos, t, head, s, k);
      Record(head, s[..k] + t + s[k..], from, []);
    }

    /** `list_move` */
    method Move(oldList: ListNode, newList: ListNode)
      requires Valid() && oldList in lists && Loose(newList)
      modifies this, repr, newList
      ensures Valid() && repr == old(repr) + {newList}
      ensures lists == old(lists)[newList := old(lists)[oldList]][oldList := []]
    {
      MovedOver(lists, oldList, newList, lists[oldList]);
      Init(newList);
      SpliceAfter(oldList, newList, newList, 0);
    }

    /** Splitting a list anywhere and splicing back at the same place restores it. */
    method SplitAndSplice(list: ListNode, pos: ListNode, splitTo: ListNode, ghost k: nat)
      requires Valid() && list in lists && k <= |lists[list]| && pos == Lap(list, lists[list])[k]
      requires Loose(splitTo)
      modifies this, repr, splitTo
      ensures Valid() && lists == old(lists)[splitTo := []]
    {
      ghost var m := lists;
      ghost var s := m[list];
      SplitAfter(list, pos, splitTo, k);
      assert Lap(list, s[..k])[k] == pos;
      SpliceAfter(splitTo, pos, list, k);
      assert s[..k][..k] + s[k..] + s[..k][k..] == s;
      Restored(m, list, s[..k], splitTo, s[k..], []);
    }
  }
}
