/**
 The intrusive circular list of klibcpp/include/klibcpp/cllist.hpp, over raw 32-bit words.
 A list node at address n keeps `next` in the word at n and `prev` in the word at n + 4.
 */
module CircularList {

  /** Word-addressed memory; an address outside the map reads as 0. */
  type Words = map<int, int>

  function Load(m: Words, a: int): int
  {
    if a in m then m[a] else 0
  }

  class Ram {
    var words: Words

    constructor ()
      ensures words == map[]
    {
      words := map[];
    }

    method Store(a: int, w: int)
      modifies this
      ensures words == old(words)[a := w]
    {
      words := words[a := w];
    }
  }

  /** Position i of the cycle: the head, the nodes in order, and the head again. */
  ghost function At(h: int, nodes: seq<int>, i: int): int
  {
    if 1 <= i <= |nodes| then nodes[i - 1] else h
  }

  /** Two nodes far enough apart that neither their links nor the two words before them collide. */
  ghost predicate Apart(a: int, b: int)
  {
    a + 16 <= b || b + 16 <= a
  }

  ghost predicate Spaced(h: int, nodes: seq<int>)
  {
    && (forall i :: 0 <= i < |nodes| ==> Apart(h, nodes[i]))
    && (forall i, j :: 0 <= i < j < |nodes| ==> Apart(nodes[i], nodes[j]))
  }

  /** `b` follows `a`, and `a` precedes `b`. */
  ghost predicate Arc(m: Words, a: int, b: int)
  {
    Load(m, a) == b && Load(m, b + 4) == a
  }

  /** The links starting at `h` spell out exactly `nodes`, forwards and backwards. */
  ghost predicate IsRing(m: Words, h: int, nodes: seq<int>)
  {
    && Spaced(h, nodes)
    && forall i :: 0 <= i <= |nodes| ==> Arc(m, At(h, nodes, i), At(h, nodes, i + 1))
  }

  ghost function Elements(nodes: seq<int>): set<int>
  {
    set n | n in nodes
  }

  /** Only link words of the nodes in `touched` differ. */
  ghost predicate OnlyLinks(m: Words, m': Words, touched: set<int>)
  {
    forall a :: a !in touched && a - 4 !in touched ==> Load(m', a) == Load(m, a)
  }

  /** __list_add: four link stores, in program order. */
  function Linked(m: Words, node: int, prev: int, next: int): Words
  {
    m[next + 4 := node][node := next][node + 4 := prev][prev := node]
  }

  /** __list_del: the two neighbours are joined. */
  function Unlinked(m: Words, prev: int, next: int): Words
  {
    m[next + 4 := prev][prev := next]
  }

  ghost function InsertAt(nodes: seq<int>, k: int, node: int): seq<int>
    requires 0 <= k <= |nodes|
  {
    nodes[..k] + [node] + nodes[k..]
  }

  ghost function RemoveAt(nodes: seq<int>, k: int): seq<int>
    requires 0 <= k < |nodes|
  {
    nodes[..k] + nodes[k + 1..]
  }

  ghost predicate SameOrApart(a: int, b: int)
  {
    a == b || Apart(a, b)
  }

  /** Members of a ring are pairwise apart; only the two ends of the cycle coincide. */
  lemma AtApart(h: int, nodes: seq<int>, i: int, j: int)
    requires Spaced(h, nodes) && 0 <= i <= |nodes| + 1 && 0 <= j <= |nodes| + 1
    ensures SameOrApart(At(h, nodes, i), At(h, nodes, j))
    ensures i < j && !(i == 0 && j == |nodes| + 1) ==> Apart(At(h, nodes, i), At(h, nodes, j))
  {
  }

  lemma AtMember(h: int, nodes: seq<int>, i: int)
    ensures At(h, nodes, i) in {h} + Elements(nodes)
  {
  }

  /** Linking touches no arc other than the one it replaces. */
  lemma LinkedKeepsArc(m: Words, node: int, p: int, n: int, a: int, b: int)
    requires Arc(m, a, b)
    requires SameOrApart(a, n) && SameOrApart(b, p) && Apart(a, node) && Apart(b, node)
    requires Apart(a, p) && Apart(b, n)
    ensures Arc(Linked(m, node, p, n), a, b)
  {
  }

  lemma LinkedNewArcs(m: Words, node: int, p: int, n: int)
    requires SameOrApart(p, n) && Apart(p, node) && Apart(n, node)
    ensures Arc(Linked(m, node, p, n), p, node) && Arc(Linked(m, node, p, n), node, n)
  {
  }

  lemma UnlinkedKeepsArc(m: Words, p: int, n: int, a: int, b: int)
    requires Arc(m, a, b) && Apart(a, p) && Apart(b, n) && SameOrApart(a, n) && SameOrApart(b, p)
    ensures Arc(Unlinked(m, p, n), a, b)
  {
  }

  /** Linking a fresh node between two neighbours inserts it at that position of the ring. */
  lemma LinkedInserts(m: Words, h: int, nodes: seq<int>, k: int, node: int)
    requires IsRing(m, h, nodes) && 0 <= k <= |nodes|
    requires Apart(h, node) && forall i :: 0 <= i < |nodes| ==> Apart(nodes[i], node)
    ensures IsRing(Linked(m, node, At(h, nodes, k), At(h, nodes, k + 1)), h, InsertAt(nodes, k, node))
  {
    var p, n, r := At(h, nodes, k), At(h, nodes, k + 1), InsertAt(nodes, k, node);
    var m' := Linked(m, node, p, n);
    forall i | 0 <= i <= |r| ensures Arc(m', At(h, r, i), At(h, r, i + 1)) {
      AtInserted(h, nodes, k, node, i);
      AtInserted(h, nodes, k, node, i + 1);
      if i == k || i == k + 1 {
        AtApart(h, nodes, k, k + 1);
        LinkedNewArcs(m, node, p, n);
      } else {
        var j := if i < k then i else i - 1;
        assert Arc(m, At(h, nodes, j), At(h, nodes, j + 1));
        AtApart(h, nodes, j, k);
        AtApart(h, nodes, k, j);
        AtApart(h, nodes, j, k + 1);
        AtApart(h, nodes, j + 1, k);
        AtApart(h, nodes, j + 1, k + 1);
        AtApart(h, nodes, k + 1, j + 1);
        LinkedKeepsArc(m, node, p, n, At(h, nodes, j), At(h, nodes, j + 1));
      }
    }
  }

  lemma AtInserted(h: int, nodes: seq<int>, k: int, node: int, i: int)
    requires 0 <= k <= |nodes| && 0 <= i <= |nodes| + 2
    ensures At(h, InsertAt(nodes, k, node), i) ==
            if i <= k then At(h, nodes, i) else if i == k + 1 then node else At(h, nodes, i - 1)
  {
  }

  lemma AtRemoved(h: int, nodes: seq<int>, k: int, i: int)
    requires 0 <= k < |nodes| && 0 <= i <= |nodes|
    ensures At(h, RemoveAt(nodes, k), i) == if i <= k then At(h, nodes, i) else At(h, nodes, i + 1)
  {
  }

  lemma LinkedOnlyLinks(m: Words, h: int, nodes: seq<int>, k: int, node: int)
    requires 0 <= k <= |nodes|
    ensures OnlyLinks(m, Linked(m, node, At(h, nodes, k), At(h, nodes, k + 1)), {h, node} + Elements(nodes))
  {
  }

  lemma InsertedElements(nodes: seq<int>, k: int, node: int)
    requires 0 <= k <= |nodes|
    ensures Elements(InsertAt(nodes, k, node)) == Elements(nodes) + {node}
  {
  }

  /** Joining the neighbours of a node removes exactly that node. */
  lemma UnlinkedRemoves(m: Words, h: int, nodes: seq<int>, k: int)
    requires IsRing(m, h, nodes) && 0 <= k < |nodes|
    ensures Load(m, nodes[k]) == At(h, nodes, k + 2) && Load(m, nodes[k] + 4) == At(h, nodes, k)
    ensures IsRing(Unlinked(m, At(h, nodes, k), At(h, nodes, k + 2)), h, RemoveAt(nodes, k))
  {
    assert Arc(m, At(h, nodes, k), At(h, nodes, k + 1)) && Arc(m, At(h, nodes, k + 1), At(h, nodes, k + 2));
    var p, n, r := At(h, nodes, k), At(h, nodes, k + 2), RemoveAt(nodes, k);
    var m' := Unlinked(m, p, n);
    AtApart(h, nodes, k, k + 2);
    forall i | 0 <= i <= |r| ensures Arc(m', At(h, r, i), At(h, r, i + 1)) {
      AtRemoved(h, nodes, k, i);
      AtRemoved(h, nodes, k, i + 1);
      if i != k {
        var j := if i < k then i else i + 1;
        assert Arc(m, At(h, nodes, j), At(h, nodes, j + 1));
        AtApart(h, nodes, j, k);
        AtApart(h, nodes, k, j);
        AtApart(h, nodes, j + 1, k + 2);
        AtApart(h, nodes, k + 2, j + 1);
        AtApart(h, nodes, j, k + 2);
        AtApart(h, nodes, j + 1, k);
        UnlinkedKeepsArc(m, p, n, At(h, nodes, j), At(h, nodes, j + 1));
      }
    }
    assert Spaced(h, r);
  }

  lemma UnlinkedOnlyLinks(m: Words, h: int, nodes: seq<int>, k: int)
    requires Spaced(h, nodes) && 0 <= k < |nodes|
    ensures OnlyLinks(m, Unlinked(m, At(h, nodes, k), At(h, nodes, k + 2)), {h} + Elements(nodes) - {nodes[k]})
  {
  }

  lemma RemovedElements(nodes: seq<int>, k: int)
    requires 0 <= k < |nodes|
    requires forall i, j :: 0 <= i < j < |nodes| ==> Apart(nodes[i], nodes[j])
    ensures Elements(RemoveAt(nodes, k)) == Elements(nodes) - {nodes[k]}
  {
  }

  /** A ring depends only on the links of its members. */
  lemma RingFrame(m: Words, m': Words, h: int, nodes: seq<int>)
    requires IsRing(m, h, nodes)
    requires Load(m', h) == Load(m, h) && Load(m', h + 4) == Load(m, h + 4)
    requires forall n :: n in nodes ==> Load(m', n) == Load(m, n) && Load(m', n + 4) == Load(m, n + 4)
    ensures IsRing(m', h, nodes)
  {
    forall i | 0 <= i <= |nodes| ensures Arc(m', At(h, nodes, i), At(h, nodes, i + 1)) {
      assert Arc(m, At(h, nodes, i), At(h, nodes, i + 1));
      AtMember(h, nodes, i);
      AtMember(h, nodes, i + 1);
    }
  }

  /** Linking a node in and deleting it again restores all of memory except the node's own two link words. */
  lemma InsertRemoveInverse(m: Words, h: int, nodes: seq<int>, k: int, node: int)
    requires IsRing(m, h, nodes) && 0 <= k <= |nodes|
    requires Apart(h, node) && forall i :: 0 <= i < |nodes| ==> Apart(nodes[i], node)
    ensures var m1 := Linked(m, node, At(h, nodes, k), At(h, nodes, k + 1));
            var m2 := Unlinked(m1, Load(m1, node + 4), Load(m1, node));
            IsRing(m2, h, nodes) && forall a :: a != node && a != node + 4 ==> Load(m2, a) == Load(m, a)
  {
    hide IsRing;
    LinkedInserts(m, h, nodes, k, node);
    var p, n := At(h, nodes, k), At(h, nodes, k + 1);
    var m1 := Linked(m, node, p, n);
    var m2 := Unlinked(m1, Load(m1, node + 4), Load(m1, node));
    Neighbours(m, h, nodes, k, node);
    RingFrame(m, m2, h, nodes);
  }

  lemma Neighbours(m: Words, h: int, nodes: seq<int>, k: int, node: int)
    requires IsRing(m, h, nodes) && 0 <= k <= |nodes|
    requires Apart(h, node) && forall i :: 0 <= i < |nodes| ==> Apart(nodes[i], node)
    ensures var p, n := At(h, nodes, k), At(h, nodes, k + 1);
            Apart(p, node) && Apart(n, node) && Arc(m, p, n) && p + 4 != n && n + 4 != p
  {
  }

  /** INIT_LIST_HEAD */
  method InitListHead(ram: Ram, h: int)
    modifies ram
    ensures IsRing(ram.words, h, [])
    ensures OnlyLinks(old(ram.words), ram.words, {h})
  {
    ram.Store(h, h);
    ram.Store(h + 4, h);
  }

  /** __list_add */
  method ListAdd(ram: Ram, node: int, prev: int, next: int)
    modifies ram
    ensures ram.words == Linked(old(ram.words), node, prev, next)
  {
    ram.Store(next + 4, node);
    ram.Store(node, next);
    ram.Store(node + 4, prev);
    ram.Store(prev, node);
  }

  /** list_add_tail: `pos` is the head or a member; the new node goes right before it. */
  method ListAddTail(ram: Ram, node: int, pos: int, ghost h: int, ghost nodes: seq<int>, ghost k: int)
    requires IsRing(ram.words, h, nodes) && 0 <= k <= |nodes| && pos == At(h, nodes, k + 1)
    requires Apart(h, node) && forall i :: 0 <= i < |nodes| ==> Apart(nodes[i], node)
    modifies ram
    ensures IsRing(ram.words, h, InsertAt(nodes, k, node))
    ensures Elements(InsertAt(nodes, k, node)) == Elements(nodes) + {node}
    ensures OnlyLinks(old(ram.words), ram.words, {h, node} + Elements(nodes))
  {
    assert Arc(ram.words, At(h, nodes, k), At(h, nodes, k + 1));
    LinkedInserts(ram.words, h, nodes, k, node);
    LinkedOnlyLinks(ram.words, h, nodes, k, node);
    InsertedElements(nodes, k, node);
    ListAdd(ram, node, Load(ram.words, pos + 4), pos);
  }

  /** __list_del_entry */
  method ListDelEntry(ram: Ram, entry: int, ghost h: int, ghost nodes: seq<int>, ghost k: int)
    requires IsRing(ram.words, h, nodes) && 0 <= k < |nodes| && entry == nodes[k]
    modifies ram
    ensures IsRing(ram.words, h, RemoveAt(nodes, k))
    ensures Elements(RemoveAt(nodes, k)) == Elements(nodes) - {entry}
    ensures OnlyLinks(old(ram.words), ram.words, {h} + Elements(nodes) - {entry})
  {
    UnlinkedRemoves(ram.words, h, nodes, k);
    UnlinkedOnlyLinks(ram.words, h, nodes, k);
    RemovedElements(nodes, k);
    ListDel(ram, Load(ram.words, entry + 4), Load(ram.words, entry));
  }

  /** __list_del */
  method ListDel(ram: Ram, prev: int, next: int)
    modifies ram
    ensures ram.words == Unlinked(old(ram.words), prev, next)
  {
    ram.Store(next + 4, prev);
    ram.Store(prev, next);
  }

  /** list_empty */
  method ListEmpty(ram: Ram, h: int, ghost nodes: seq<int>) returns (empty: bool)
    requires IsRing(ram.words, h, nodes) && h != 0
    requires forall n :: n in nodes ==> n != 0
    ensures empty <==> nodes == []
  {
    var next := Load(ram.words, h);
    assert Arc(ram.words, At(h, nodes, 0), At(h, nodes, 1));
    assert nodes != [] ==> nodes[0] in nodes && Apart(h, nodes[0]);
    empty := next == h || next == 0;
  }
}
