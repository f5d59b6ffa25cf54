/**
 The per-thread stacks of application information and the memory blocks that refer to them
 (mem_dbg.c). Allocation and release of stack nodes are modelled on an explicit heap, so that a
 release that leaves a pointer behind would be seen; checking is switched on throughout.
 */
module InfoStacks {
  import opened Options

  type Tid = nat
  type Addr = nat
  type Id = nat

  /** struct app_mem_info_st */
  datatype Node = Node(thread: Tid, info: string, next: Option<Id>, references: int)

  type Nodes = map<Id, Node>
  type Tops = map<Tid, Id>             // the hash table amih
  type Entries = map<Addr, Option<Id>> // the app_info fields of the hash table mh

  // ---- references, counted --------------------------------------------------------------------

  ghost function Preds(nodes: Nodes, x: Id): set<Id> {
    set n | n in nodes && nodes[n].next == Some(x)
  }

  ghost function Namers(entries: Entries, x: Id): set<Addr> {
    set a | a in entries && entries[a] == Some(x)
  }

  ghost function TopCount(nodes: Nodes, tops: Tops, x: Id): nat {
    if x in nodes && nodes[x].thread in tops && tops[nodes[x].thread] == x then 1 else 0
  }

  /** One for topping the thread's stack, one for each block that names the node, one for each live
      node stacked on it. */
  ghost function Count(nodes: Nodes, tops: Tops, entries: Entries, x: Id): nat {
    TopCount(nodes, tops, x) + |Namers(entries, x)| + |Preds(nodes, x)|
  }

  /** References recorded beyond those there are. */
  ghost function Over(nodes: Nodes, tops: Tops, entries: Entries, x: Id): int
    requires x in nodes
  {
    nodes[x].references - Count(nodes, tops, entries, x)
  }

  /** Counts are exact, but for one reference too many at `over`. */
  ghost predicate ExactAt(nodes: Nodes, tops: Tops, entries: Entries, over: Option<Id>, x: Id) {
    x in nodes ==> Over(nodes, tops, entries, x) == if over == Some(x) then 1 else 0
  }

  ghost predicate ExactBut(nodes: Nodes, tops: Tops, entries: Entries, over: Option<Id>) {
    forall x {:trigger ExactAt(nodes, tops, entries, over, x)} :: ExactAt(nodes, tops, entries, over, x)
  }

  ghost predicate LinkAt(nodes: Nodes, n: Id) {
    n in nodes && nodes[n].next.Some? ==>
      && nodes[n].next.value in nodes && nodes[n].next.value < n
      && nodes[nodes[n].next.value].thread == nodes[n].thread
  }

  ghost predicate TopAt(nodes: Nodes, tops: Tops, t: Tid) {
    t in tops ==> tops[t] in nodes && nodes[tops[t]].thread == t
  }

  ghost predicate NameAt(nodes: Nodes, entries: Entries, a: Addr) {
    a in entries && entries[a].Some? ==> entries[a].value in nodes
  }

  /** No pointer to a released node anywhere, and stacks that lead to older nodes of the same thread. */
  ghost predicate Linked(nodes: Nodes, tops: Tops, entries: Entries) {
    && (forall t {:trigger TopAt(nodes, tops, t)} :: TopAt(nodes, tops, t))
    && (forall n {:trigger LinkAt(nodes, n)} :: LinkAt(nodes, n))
    && (forall a {:trigger NameAt(nodes, entries, a)} :: NameAt(nodes, entries, a))
  }

  ghost predicate NoLeak(nodes: Nodes) {
    forall x {:trigger nodes[x].references} | x in nodes :: nodes[x].references >= 1
  }

  ghost predicate SameNode(nodes: Nodes, nodes': Nodes, n: Id) {
    n in nodes && n in nodes' ==>
      nodes'[n].thread == nodes[n].thread && nodes'[n].info == nodes[n].info && nodes'[n].next == nodes[n].next
  }

  /** Nodes that live in both keep what the stacks are made of. */
  ghost predicate SameLinks(nodes: Nodes, nodes': Nodes) {
    forall n {:trigger SameNode(nodes, nodes', n)} :: SameNode(nodes, nodes', n)
  }

  // ---- the stacks -----------------------------------------------------------------------------

  /** The next node down. In every state that is reached it is older and allocated. */
  function Below(nodes: Nodes, n: Id): Option<Id> {
    if n in nodes && nodes[n].next.Some? && nodes[n].next.value < n then nodes[n].next else None
  }

  /** The information from a node down. */
  function Chain(nodes: Nodes, from: Option<Id>): seq<string>
    decreases if from.Some? then from.value + 1 else 0
  {
    if from.Some? && from.value in nodes then
      [nodes[from.value].info] + Chain(nodes, Below(nodes, from.value))
    else []
  }

  /** Whatever else is allocated or released, a chain reads the same. */
  lemma {:induction false} ChainKept(nodes: Nodes, nodes': Nodes, from: Option<Id>)
    requires forall n {:trigger LinkAt(nodes, n)} :: LinkAt(nodes, n)
    requires forall n {:trigger LinkAt(nodes', n)} :: LinkAt(nodes', n)
    requires SameLinks(nodes, nodes')
    requires from.Some? ==> from.value in nodes && from.value in nodes'
    ensures Chain(nodes, from) == Chain(nodes', from)
    decreases if from.Some? then from.value + 1 else 0
  {
    if from.Some? {
      assert LinkAt(nodes, from.value) && LinkAt(nodes', from.value) && SameNode(nodes, nodes', from.value);
      ChainKept(nodes, nodes', nodes[from.value].next);
    }
  }

  // ---- how the counts move --------------------------------------------------------------------

  lemma {:induction false} SetGrows<T>(s: set<T>, s': set<T>, x: T)
    requires x !in s && s' == s + {x}
    ensures |s'| == |s| + 1
  {
  }

  lemma {:induction false} NamersWith(entries: Entries, a: Addr, v: Option<Id>, x: Id)
    requires a !in entries
    ensures |Namers(entries[a := v], x)| == |Namers(entries, x)| + if v == Some(x) then 1 else 0
  {
    if v == Some(x) {
      SetGrows(Namers(entries, x), Namers(entries[a := v], x), a);
    } else {
      assert Namers(entries[a := v], x) == Namers(entries, x);
    }
  }

  lemma {:induction false} NamersWithout(entries: Entries, a: Addr, x: Id)
    requires a in entries
    ensures |Namers(entries, x)| == |Namers(entries - {a}, x)| + if entries[a] == Some(x) then 1 else 0
  {
    NamersWith(entries - {a}, a, entries[a], x);
    assert (entries - {a})[a := entries[a]] == entries;
  }

  lemma {:induction false} PredsWith(nodes: Nodes, n: Id, node: Node, x: Id)
    requires n !in nodes
    ensures |Preds(nodes[n := node], x)| == |Preds(nodes, x)| + if node.next == Some(x) then 1 else 0
  {
    if node.next == Some(x) {
      SetGrows(Preds(nodes, x), Preds(nodes[n := node], x), n);
    } else {
      assert Preds(nodes[n := node], x) == Preds(nodes, x);
    }
  }

  lemma {:induction false} PredsWithout(nodes: Nodes, n: Id, x: Id)
    requires n in nodes
    ensures |Preds(nodes, x)| == |Preds(nodes - {n}, x)| + if nodes[n].next == Some(x) then 1 else 0
  {
    PredsWith(nodes - {n}, n, nodes[n], x);
    assert (nodes - {n})[n := nodes[n]] == nodes;
  }

  function AddRefs(nodes: Nodes, x: Id, k: int): Nodes {
    if x !in nodes then nodes else nodes[x := nodes[x].(references := nodes[x].references + k)]
  }

  function Adjust(nodes: Nodes, v: Option<Id>, k: int): Nodes {
    if v.Some? then AddRefs(nodes, v.value, k) else nodes
  }

  lemma {:induction false} AdjustOver(nodes: Nodes, tops: Tops, entries: Entries, v: Option<Id>, k: int, x: Id)
    requires x in nodes
    ensures x in Adjust(nodes, v, k)
    ensures Over(Adjust(nodes, v, k), tops, entries, x)
         == Over(nodes, tops, entries, x) + if v == Some(x) then k else 0
  {
    assert Preds(Adjust(nodes, v, k), x) == Preds(nodes, x);
  }

  lemma {:induction false} AdjustLinks(nodes: Nodes, tops: Tops, entries: Entries, v: Option<Id>, k: int)
    requires Linked(nodes, tops, entries)
    ensures Linked(Adjust(nodes, v, k), tops, entries)
  {
    var nodes' := Adjust(nodes, v, k);
    forall n ensures LinkAt(nodes', n) {
      assert LinkAt(nodes, n);
    }
    forall t ensures TopAt(nodes', tops, t) {
      assert TopAt(nodes, tops, t);
    }
    forall a ensures NameAt(nodes', entries, a) {
      assert NameAt(nodes, entries, a);
    }
  }

  lemma {:induction false} AdjustSameLinks(nodes: Nodes, v: Option<Id>, k: int)
    ensures SameLinks(nodes, Adjust(nodes, v, k))
    ensures Adjust(nodes, v, k).Keys == nodes.Keys
  {
  }

  lemma {:induction false} SameLinksTrans(n1: Nodes, n2: Nodes, n3: Nodes)
    requires SameLinks(n1, n2) && SameLinks(n2, n3)
    requires n1.Keys <= n2.Keys || n3.Keys <= n2.Keys
    ensures SameLinks(n1, n3)
  {
    forall n ensures SameNode(n1, n3, n) {
      assert SameNode(n1, n2, n) && SameNode(n2, n3, n);
    }
  }

  lemma {:induction false} WithoutOver(nodes: Nodes, tops: Tops, entries: Entries, n: Id, x: Id)
    requires n in nodes && x in nodes && x != n
    ensures Over(nodes - {n}, tops, entries, x)
         == Over(nodes, tops, entries, x) + if nodes[n].next == Some(x) then 1 else 0
  {
    PredsWithout(nodes, n, x);
  }

  /** A node that nothing points at can go. */
  lemma {:induction false} WithoutLinks(nodes: Nodes, tops: Tops, entries: Entries, x: Id)
    requires Linked(nodes, tops, entries) && x in nodes && Count(nodes, tops, entries, x) == 0
    ensures Linked(nodes - {x}, tops, entries)
    ensures SameLinks(nodes, nodes - {x})
  {
    assert Namers(entries, x) == {} && Preds(nodes, x) == {};
    forall n ensures LinkAt(nodes - {x}, n) {
      assert LinkAt(nodes, n) && n !in Preds(nodes, x);
    }
    forall t ensures TopAt(nodes - {x}, tops, t) {
      assert TopAt(nodes, tops, t);
    }
    forall a ensures NameAt(nodes - {x}, entries, a) {
      assert NameAt(nodes, entries, a) && a !in Namers(entries, x);
    }
  }

  // ---- the state and its meaning --------------------------------------------------------------

  /** `table` says whether the hash table of the recorded blocks has been allocated. */
  datatype Heap = Heap(nodes: Nodes, tops: Tops, entries: Entries, nextId: Id, table: bool)
  {
    /** Counts are exact and nothing points at released memory. */
    ghost predicate Consistent() {
      && Linked(nodes, tops, entries)
      && ExactBut(nodes, tops, entries, None)
      && (entries != map[] ==> table)
      && forall n | n in nodes :: n < nextId
    }

    ghost predicate Sound() {
      Consistent() && NoLeak(nodes)
    }

    function Top(t: Tid): Option<Id> {
      if t in tops then Some(tops[t]) else None
    }

    /** What thread `t` has pushed and not popped, the last pushed first. */
    function Stack(t: Tid): seq<string> {
      Chain(nodes, Top(t))
    }
  }

  const FRESH: Heap := Heap(map[], map[], map[], 0, false)

  lemma {:induction false} FreshIsSound()
    ensures FRESH.Sound()
  {
  }

  // ---- push -----------------------------------------------------------------------------------

  function PushOf(h: Heap, t: Tid, info: string): Heap {
    Heap(h.nodes[h.nextId := Node(t, info, h.Top(t), 1)], h.tops[t := h.nextId], h.entries, h.nextId + 1, h.table)
  }

  lemma {:induction false} StackKept(h: Heap, h': Heap, t: Tid)
    requires Linked(h.nodes, h.tops, h.entries) && Linked(h'.nodes, h'.tops, h'.entries)
    requires SameLinks(h.nodes, h'.nodes)
    requires h'.Top(t) == h.Top(t)
    ensures h'.Stack(t) == h.Stack(t)
  {
    assert TopAt(h.nodes, h.tops, t) && TopAt(h'.nodes, h'.tops, t);
    ChainKept(h.nodes, h'.nodes, h.Top(t));
  }

  lemma {:induction false} PushCounts(h: Heap, t: Tid, info: string, x: Id)
    requires h.Consistent()
    ensures var h' := PushOf(h, t, info); ExactAt(h'.nodes, h'.tops, h'.entries, None, x)
  {
    var h' := PushOf(h, t, info);
    assert TopAt(h.nodes, h.tops, t);
    if x == h.nextId {
      PredsWith(h.nodes, h.nextId, h'.nodes[h.nextId], x);
      NothingAbove(h, x);
    } else if x in h.nodes {
      PredsWith(h.nodes, h.nextId, h'.nodes[h.nextId], x);
      assert ExactAt(h.nodes, h.tops, h.entries, None, x);
    }
  }

  lemma {:induction false} NothingAbove(h: Heap, x: Id)
    requires h.Consistent() && x !in h.nodes
    ensures Preds(h.nodes, x) == {} && Namers(h.entries, x) == {}
  {
    forall n | n in h.nodes ensures n !in Preds(h.nodes, x) {
      assert LinkAt(h.nodes, n);
    }
    forall a | a in h.entries ensures a !in Namers(h.entries, x) {
      assert NameAt(h.nodes, h.entries, a);
    }
  }

  lemma {:induction false} PushLinks(h: Heap, t: Tid, info: string)
    requires h.Consistent()
    ensures var h' := PushOf(h, t, info);
      Linked(h'.nodes, h'.tops, h'.entries) && SameLinks(h.nodes, h'.nodes)
  {
    var h' := PushOf(h, t, info);
    assert TopAt(h.nodes, h.tops, t);
    forall n ensures LinkAt(h'.nodes, n) {
      assert LinkAt(h.nodes, n);
    }
    forall u ensures TopAt(h'.nodes, h'.tops, u) {
      assert TopAt(h.nodes, h.tops, u);
    }
    forall a ensures NameAt(h'.nodes, h'.entries, a) {
      assert NameAt(h.nodes, h.entries, a);
    }
  }

  lemma {:induction false} PushKeeps(h: Heap, t: Tid, info: string)
    requires h.Consistent()
    ensures PushOf(h, t, info).Consistent()
    ensures h.Sound() ==> PushOf(h, t, info).Sound()
    ensures PushOf(h, t, info).Stack(t) == [info] + h.Stack(t)
    ensures forall u | u != t :: PushOf(h, t, info).Stack(u) == h.Stack(u)
  {
    var h' := PushOf(h, t, info);
    PushLinks(h, t, info);
    forall x ensures ExactAt(h'.nodes, h'.tops, h'.entries, None, x) {
      PushCounts(h, t, info, x);
    }
    assert TopAt(h.nodes, h.tops, t);
    ChainKept(h.nodes, h'.nodes, h.Top(t));
    forall u | u != t ensures h'.Stack(u) == h.Stack(u) {
      StackKept(h, h', u);
    }
  }

  // ---- pop ------------------------------------------------------------------------------------

  /** A node that blocks still name stays, with its pointer to the next node; the next node then has
      two references more or less accounted for: as the top, and from the node that stays. */
  function PopOf(h: Heap, t: Tid): Heap {
    if t !in h.tops || h.tops[t] !in h.nodes then h else
      var x := h.tops[t];
      var next := h.nodes[x].next;
      h.(tops := Lowered(h.tops, t, next),
         nodes := if h.nodes[x].references <= 1 then h.nodes - {x}
                  else Adjust(AddRefs(h.nodes, x, -1), next, 1))
  }

  function Lowered(tops: Tops, t: Tid, next: Option<Id>): Tops {
    if next.Some? then tops[t := next.value] else tops - {t}
  }

  lemma {:induction false} LoweredOver(nodes: Nodes, tops: Tops, entries: Entries, t: Tid, x: Id)
    requires Linked(nodes, tops, entries) && t in tops && tops[t] in nodes && x in nodes
    ensures var next := nodes[tops[t]].next;
      Over(nodes, Lowered(tops, t, next), entries, x)
        == Over(nodes, tops, entries, x) + (if x == tops[t] then 1 else 0) - (if next == Some(x) then 1 else 0)
  {
    assert TopAt(nodes, tops, t) && LinkAt(nodes, tops[t]);
  }

  lemma {:induction false} LoweredLinks(nodes: Nodes, tops: Tops, entries: Entries, t: Tid)
    requires Linked(nodes, tops, entries) && t in tops && tops[t] in nodes
    ensures Linked(nodes, Lowered(tops, t, nodes[tops[t]].next), entries)
  {
    assert TopAt(nodes, tops, t) && LinkAt(nodes, tops[t]);
    forall u ensures TopAt(nodes, Lowered(tops, t, nodes[tops[t]].next), u) {
      assert TopAt(nodes, tops, u);
    }
  }

  lemma {:induction false} PopCounts(h: Heap, t: Tid, x: Id)
    requires h.Consistent() && t in h.tops && h.tops[t] in h.nodes
    ensures var h' := PopOf(h, t); ExactAt(h'.nodes, h'.tops, h'.entries, None, x)
  {
    var n := h.tops[t];
    var next := h.nodes[n].next;
    var tops := Lowered(h.tops, t, next);
    if x in h.nodes {
      assert ExactAt(h.nodes, h.tops, h.entries, None, x);
      LoweredOver(h.nodes, h.tops, h.entries, t, x);
      if h.nodes[n].references <= 1 {
        if x != n {
          WithoutOver(h.nodes, tops, h.entries, n, x);
        }
      } else {
        AdjustOver(h.nodes, tops, h.entries, Some(n), -1, x);
        AdjustOver(Adjust(h.nodes, Some(n), -1), tops, h.entries, next, 1, x);
      }
    }
  }

  lemma {:induction false} PopLinks(h: Heap, t: Tid)
    requires h.Consistent() && t in h.tops && h.tops[t] in h.nodes
    ensures var h' := PopOf(h, t);
      Linked(h'.nodes, h'.tops, h'.entries) && SameLinks(h.nodes, h'.nodes)
  {
    var n := h.tops[t];
    var next := h.nodes[n].next;
    var tops := Lowered(h.tops, t, next);
    LoweredLinks(h.nodes, h.tops, h.entries, t);
    if h.nodes[n].references <= 1 {
      assert ExactAt(h.nodes, h.tops, h.entries, None, n) && LinkAt(h.nodes, n);
      LoweredOver(h.nodes, h.tops, h.entries, t, n);
      WithoutLinks(h.nodes, tops, h.entries, n);
    } else {
      var less := Adjust(h.nodes, Some(n), -1);
      AdjustLinks(h.nodes, tops, h.entries, Some(n), -1);
      AdjustLinks(less, tops, h.entries, next, 1);
      AdjustSameLinks(h.nodes, Some(n), -1);
      AdjustSameLinks(less, next, 1);
      SameLinksTrans(h.nodes, less, Adjust(less, next, 1));
    }
  }

  lemma {:induction false} PopIsConsistent(h: Heap, t: Tid)
    requires h.Consistent()
    ensures PopOf(h, t).Consistent()
    ensures SameLinks(h.nodes, PopOf(h, t).nodes)
    ensures NoLeak(h.nodes) ==> NoLeak(PopOf(h, t).nodes)
  {
    assert TopAt(h.nodes, h.tops, t);
    if t in h.tops {
      var h' := PopOf(h, t);
      PopLinks(h, t);
      forall x ensures ExactAt(h'.nodes, h'.tops, h'.entries, None, x) {
        PopCounts(h, t, x);
      }
    }
  }

  lemma {:induction false} PopShows(h: Heap, t: Tid)
    requires h.Consistent() && PopOf(h, t).Consistent() && SameLinks(h.nodes, PopOf(h, t).nodes)
    ensures PopOf(h, t).Stack(t) == if h.Stack(t) != [] then h.Stack(t)[1..] else []
    ensures t in h.tops <==> h.Stack(t) != []
  {
    assert TopAt(h.nodes, h.tops, t);
    if t in h.tops {
      assert LinkAt(h.nodes, h.tops[t]);
      var h' := PopOf(h, t);
      assert TopAt(h'.nodes, h'.tops, t);
      assert h'.Top(t) == h.nodes[h.tops[t]].next;
      ChainKept(h.nodes, h'.nodes, h.nodes[h.tops[t]].next);
    }
  }

  lemma {:induction false} PopKeeps(h: Heap, t: Tid)
    requires h.Consistent()
    ensures PopOf(h, t).Consistent()
    ensures h.Sound() ==> PopOf(h, t).Sound()
    ensures PopOf(h, t).Stack(t) == if h.Stack(t) != [] then h.Stack(t)[1..] else []
    ensures t in h.tops <==> h.Stack(t) != []
    ensures forall u | u != t :: PopOf(h, t).Stack(u) == h.Stack(u)
  {
    PopIsConsistent(h, t);
    PopShows(h, t);
    forall u | u != t ensures PopOf(h, t).Stack(u) == h.Stack(u) {
      StackKept(h, PopOf(h, t), u);
    }
  }

  /** What pop_info adds to the next node and takes off again. */
  lemma {:induction false} CountsSettle(nodes: Nodes, x: Id, next: Option<Id>)
    requires x in nodes && next != Some(x)
    ensures Adjust(nodes, next, 1).Keys == nodes.Keys
    ensures AddRefs(Adjust(nodes, next, 1), x, -1) == Adjust(AddRefs(nodes, x, -1), next, 1)
    ensures AddRefs(Adjust(nodes, next, 1), x, -1)[x].references == nodes[x].references - 1
    ensures var last := AddRefs(Adjust(nodes, next, 1), x, -1);
      Adjust(last[x := last[x].(next := None)], next, -1) - {x} == nodes - {x}
  {
    var last := AddRefs(Adjust(nodes, next, 1), x, -1);
    assert last[x := last[x].(next := None)] - {x} == Adjust(nodes, next, 1) - {x};
  }

  function PopTimes(h: Heap, t: Tid, k: nat): Heap
    decreases k
  {
    if k == 0 then h else PopTimes(PopOf(h, t), t, k - 1)
  }

  /** CRYPTO_remove_all_info pops until nothing is left. */
  function RemoveAllOf(h: Heap, t: Tid): Heap {
    PopTimes(h, t, |h.Stack(t)|)
  }

  lemma {:induction false} PopTimesKeeps(h: Heap, t: Tid, k: nat)
    requires h.Consistent() && k <= |h.Stack(t)|
    ensures PopTimes(h, t, k).Consistent()
    ensures h.Sound() ==> PopTimes(h, t, k).Sound()
    ensures PopTimes(h, t, k).Stack(t) == h.Stack(t)[k..]
    ensures forall u | u != t :: PopTimes(h, t, k).Stack(u) == h.Stack(u)
    decreases k
  {
    if k > 0 {
      PopKeeps(h, t);
      PopTimesKeeps(PopOf(h, t), t, k - 1);
    }
  }

  lemma {:induction false} RemoveAllKeeps(h: Heap, t: Tid)
    requires h.Consistent()
    ensures RemoveAllOf(h, t).Consistent()
    ensures h.Sound() ==> RemoveAllOf(h, t).Sound()
    ensures RemoveAllOf(h, t).Stack(t) == []
    ensures forall u | u != t :: RemoveAllOf(h, t).Stack(u) == h.Stack(u)
  {
    PopTimesKeeps(h, t, |h.Stack(t)|);
  }

  // ---- tracked blocks -------------------------------------------------------------------------

  lemma {:induction false} EntryDropped(nodes: Nodes, tops: Tops, entries: Entries, a: Addr)
    requires Linked(nodes, tops, entries) && ExactBut(nodes, tops, entries, None)
    requires a in entries
    ensures Linked(nodes, tops, entries - {a})
    ensures ExactBut(nodes, tops, entries - {a}, entries[a])
    ensures entries[a].Some? ==> entries[a].value in nodes
  {
    assert NameAt(nodes, entries, a);
    forall b ensures NameAt(nodes, entries - {a}, b) {
      assert NameAt(nodes, entries, b);
    }
    forall x ensures ExactAt(nodes, tops, entries - {a}, entries[a], x) {
      assert ExactAt(nodes, tops, entries, None, x);
      NamersWithout(entries, a, x);
    }
  }

  lemma {:induction false} OverDropped(nodes: Nodes, tops: Tops, entries: Entries, v: Option<Id>)
    requires Linked(nodes, tops, entries) && ExactBut(nodes, tops, entries, v)
    ensures Linked(Adjust(nodes, v, -1), tops, entries)
    ensures ExactBut(Adjust(nodes, v, -1), tops, entries, None)
  {
    AdjustLinks(nodes, tops, entries, v, -1);
    forall x ensures ExactAt(Adjust(nodes, v, -1), tops, entries, None, x) {
      assert ExactAt(nodes, tops, entries, v, x);
      if x in nodes {
        AdjustOver(nodes, tops, entries, v, -1, x);
      }
    }
  }

  lemma {:induction false} EntryAdded(nodes: Nodes, tops: Tops, entries: Entries, a: Addr, v: Option<Id>)
    requires Linked(nodes, tops, entries) && ExactBut(nodes, tops, entries, None)
    requires a !in entries && (v.Some? ==> v.value in nodes)
    ensures Linked(Adjust(nodes, v, 1), tops, entries[a := v])
    ensures ExactBut(Adjust(nodes, v, 1), tops, entries[a := v], None)
  {
    var entries' := entries[a := v];
    forall b ensures NameAt(nodes, entries', b) {
      assert NameAt(nodes, entries, b);
    }
    AdjustLinks(nodes, tops, entries', v, 1);
    forall x ensures ExactAt(Adjust(nodes, v, 1), tops, entries', None, x) {
      assert ExactAt(nodes, tops, entries, None, x);
      if x in nodes {
        NamersWith(entries, a, v, x);
        AdjustOver(nodes, tops, entries', v, 1, x);
      }
    }
  }

  /** CRYPTO_dbg_malloc on an address other than NULL: the block names its thread's top; a block that
      was already recorded there lets go of the node it names. */
  function MallocOf(h: Heap, t: Tid, a: Addr): Heap {
    var was := if a in h.entries then h.entries[a] else None;
    h.(nodes := Adjust(Adjust(h.nodes, was, -1), h.Top(t), 1), entries := h.entries[a := h.Top(t)], table := true)
  }

  /** The node a displaced block named is not released even when that was its last reference. */
  ghost predicate Strands(h: Heap, t: Tid, a: Addr) {
    && a in h.entries && h.entries[a].Some? && h.entries[a].value in h.nodes
    && h.nodes[h.entries[a].value].references == 1
    && h.Top(t) != h.entries[a]
  }

  lemma {:induction false} MallocMakesRoom(h: Heap, a: Addr) returns (nodes: Nodes)
    requires h.Consistent()
    ensures nodes == Adjust(h.nodes, if a in h.entries then h.entries[a] else None, -1)
    ensures Linked(nodes, h.tops, h.entries - {a}) && ExactBut(nodes, h.tops, h.entries - {a}, None)
    ensures SameLinks(h.nodes, nodes) && nodes.Keys == h.nodes.Keys
  {
    nodes := Adjust(h.nodes, if a in h.entries then h.entries[a] else None, -1);
    AdjustSameLinks(h.nodes, if a in h.entries then h.entries[a] else None, -1);
    if a in h.entries {
      EntryDropped(h.nodes, h.tops, h.entries, a);
      OverDropped(h.nodes, h.tops, h.entries - {a}, h.entries[a]);
    } else {
      assert h.entries - {a} == h.entries;
    }
  }

  lemma {:induction false} MallocIsConsistent(h: Heap, t: Tid, a: Addr)
    requires h.Consistent()
    ensures MallocOf(h, t, a).Consistent() && SameLinks(h.nodes, MallocOf(h, t, a).nodes)
  {
    var nodes := MallocMakesRoom(h, a);
    assert TopAt(h.nodes, h.tops, t);
    EntryAdded(nodes, h.tops, h.entries - {a}, a, h.Top(t));
    AdjustSameLinks(nodes, h.Top(t), 1);
    SameLinksTrans(h.nodes, nodes, Adjust(nodes, h.Top(t), 1));
    assert (h.entries - {a})[a := h.Top(t)] == h.entries[a := h.Top(t)];
  }

  lemma {:induction false} MallocKeeps(h: Heap, t: Tid, a: Addr)
    requires h.Consistent()
    ensures MallocOf(h, t, a).Consistent()
    ensures forall u :: MallocOf(h, t, a).Stack(u) == h.Stack(u)
  {
    MallocIsConsistent(h, t, a);
    forall u ensures MallocOf(h, t, a).Stack(u) == h.Stack(u) {
      StackKept(h, MallocOf(h, t, a), u);
    }
  }

  /** Recording a block leaks a node exactly when the address was recorded already and its node hung
      on that alone: recording fresh addresses never does. */
  lemma {:induction false} MallocLeaksIff(h: Heap, t: Tid, a: Addr)
    requires h.Sound()
    ensures MallocOf(h, t, a).Sound() <==> !Strands(h, t, a)
  {
    MallocIsConsistent(h, t, a);
    var was := if a in h.entries then h.entries[a] else None;
    var nodes' := MallocOf(h, t, a).nodes;
    assert was.Some? ==> NameAt(h.nodes, h.entries, a);
    forall x | x in h.nodes
      ensures x in nodes' && nodes'[x].references
           == h.nodes[x].references - (if was == Some(x) then 1 else 0) + (if h.Top(t) == Some(x) then 1 else 0)
    {
    }
    if Strands(h, t, a) {
      assert nodes'[was.value].references == 0;
    }
  }

  // ---- releasing ------------------------------------------------------------------------------

  /** app_info_free: one reference less, and when none is left the node goes, and its reference to
      the node below. */
  function Released(nodes: Nodes, x: Id): Nodes
    decreases x
  {
    if x !in nodes then nodes
    else if nodes[x].references > 1 then AddRefs(nodes, x, -1)
    else if Below(nodes, x).Some? then Released(nodes - {x}, Below(nodes, x).value)
    else nodes - {x}
  }

  lemma {:induction false} ReleasedKeeps(nodes: Nodes, tops: Tops, entries: Entries, x: Id)
    requires Linked(nodes, tops, entries) && x in nodes
    requires ExactBut(nodes, tops, entries, Some(x))
    ensures Linked(Released(nodes, x), tops, entries)
    ensures ExactBut(Released(nodes, x), tops, entries, None)
    ensures SameLinks(nodes, Released(nodes, x)) && Released(nodes, x).Keys <= nodes.Keys
    ensures NoLeak(nodes) ==> NoLeak(Released(nodes, x))
    decreases x
  {
    if nodes[x].references > 1 {
      OverDropped(nodes, tops, entries, Some(x));
      AdjustSameLinks(nodes, Some(x), -1);
    } else {
      LastRelease(nodes, tops, entries, x);
      if nodes[x].next.Some? {
        var next := nodes[x].next.value;
        ReleasedKeeps(nodes - {x}, tops, entries, next);
        SameLinksTrans(nodes, nodes - {x}, Released(nodes - {x}, next));
      }
    }
  }

  lemma {:induction false} LastRelease(nodes: Nodes, tops: Tops, entries: Entries, x: Id)
    requires Linked(nodes, tops, entries) && x in nodes
    requires ExactBut(nodes, tops, entries, Some(x)) && nodes[x].references <= 1
    ensures Linked(nodes - {x}, tops, entries) && SameLinks(nodes, nodes - {x})
    ensures ExactBut(nodes - {x}, tops, entries, nodes[x].next)
    ensures Below(nodes, x) == nodes[x].next && (nodes[x].next.Some? ==> nodes[x].next.value in nodes - {x})
  {
    assert ExactAt(nodes, tops, entries, Some(x), x) && LinkAt(nodes, x);
    WithoutLinks(nodes, tops, entries, x);
    forall y ensures ExactAt(nodes - {x}, tops, entries, nodes[x].next, y) {
      assert ExactAt(nodes, tops, entries, Some(x), y);
      if y in nodes && y != x {
        WithoutOver(nodes, tops, entries, x, y);
      }
    }
  }

  /** CRYPTO_dbg_free. */
  function FreeOf(h: Heap, a: Addr): Heap {
    if a !in h.entries then h else
      h.(entries := h.entries - {a},
         nodes := if h.entries[a].Some? then Released(h.nodes, h.entries[a].value) else h.nodes)
  }

  lemma {:induction false} FreeIsConsistent(h: Heap, a: Addr)
    requires h.Consistent()
    ensures FreeOf(h, a).Consistent() && SameLinks(h.nodes, FreeOf(h, a).nodes)
    ensures h.Sound() ==> FreeOf(h, a).Sound()
  {
    if a in h.entries {
      EntryDropped(h.nodes, h.tops, h.entries, a);
      if h.entries[a].Some? {
        ReleasedKeeps(h.nodes, h.tops, h.entries - {a}, h.entries[a].value);
      }
    }
  }

  lemma {:induction false} FreeKeeps(h: Heap, a: Addr)
    requires h.Consistent()
    ensures FreeOf(h, a).Consistent()
    ensures h.Sound() ==> FreeOf(h, a).Sound()
    ensures forall u :: FreeOf(h, a).Stack(u) == h.Stack(u)
  {
    FreeIsConsistent(h, a);
    forall u ensures FreeOf(h, a).Stack(u) == h.Stack(u) {
      StackKept(h, FreeOf(h, a), u);
    }
  }

  // ---- moving ---------------------------------------------------------------------------------

  /** CRYPTO_dbg_realloc between addresses other than NULL: the record moves, and one that was at the
      new address already is dropped together with the reference it stood for. */
  function ReallocOf(h: Heap, a1: Addr, a2: Addr): Heap {
    if a1 !in h.entries then h else h.(entries := (h.entries - {a1})[a2 := h.entries[a1]])
  }

  /** The record at the new address, if any, names nothing. */
  predicate MovesSafely(h: Heap, a1: Addr, a2: Addr) {
    a1 !in h.entries || a2 == a1 || a2 !in h.entries || h.entries[a2] == None
  }

  lemma {:induction false} ReallocCounts(h: Heap, a1: Addr, a2: Addr, x: Id)
    requires h.Consistent() && a1 in h.entries && x in h.nodes
    ensures |Namers(ReallocOf(h, a1, a2).entries, x)|
         == |Namers(h.entries, x)| - if a2 != a1 && a2 in h.entries && h.entries[a2] == Some(x) then 1 else 0
  {
    var v := h.entries[a1];
    NamersWithout(h.entries, a1, x);
    var rest := h.entries - {a1};
    if a2 in rest {
      NamersWithout(rest, a2, x);
    } else {
      assert rest - {a2} == rest;
    }
    NamersWith(rest - {a2}, a2, v, x);
    assert (rest - {a2})[a2 := v] == rest[a2 := v];
  }

  lemma {:induction false} ReallocShifts(h: Heap, a1: Addr, a2: Addr)
    requires h.Consistent() && a1 in h.entries
    ensures Linked(h.nodes, h.tops, ReallocOf(h, a1, a2).entries)
    ensures ExactBut(h.nodes, h.tops, ReallocOf(h, a1, a2).entries,
      if MovesSafely(h, a1, a2) then None else h.entries[a2])
  {
    var entries := ReallocOf(h, a1, a2).entries;
    var over := if MovesSafely(h, a1, a2) then None else h.entries[a2];
    forall b ensures NameAt(h.nodes, entries, b) {
      assert NameAt(h.nodes, h.entries, b) && NameAt(h.nodes, h.entries, a1);
    }
    forall x ensures ExactAt(h.nodes, h.tops, entries, over, x) {
      assert ExactAt(h.nodes, h.tops, h.entries, None, x);
      if x in h.nodes {
        ReallocCounts(h, a1, a2, x);
      }
    }
  }

  /** Counts stay exact over a move exactly when it displaces no record that names a node. */
  lemma {:induction false} ReallocKeepsIff(h: Heap, a1: Addr, a2: Addr)
    requires h.Consistent()
    ensures ReallocOf(h, a1, a2).Consistent() <==> MovesSafely(h, a1, a2)
    ensures h.Sound() ==> (ReallocOf(h, a1, a2).Sound() <==> MovesSafely(h, a1, a2))
    ensures MovesSafely(h, a1, a2) ==> forall u :: ReallocOf(h, a1, a2).Stack(u) == h.Stack(u)
  {
    if a1 in h.entries {
      ReallocShifts(h, a1, a2);
      if !MovesSafely(h, a1, a2) {
        var h' := ReallocOf(h, a1, a2);
        var y := h.entries[a2].value;
        assert NameAt(h.nodes, h.entries, a2);
        assert ExactAt(h'.nodes, h'.tops, h'.entries, Some(y), y);
        assert !ExactAt(h'.nodes, h'.tops, h'.entries, None, y);
      }
    }
  }

  // ---- the report of leaks --------------------------------------------------------------------

  /** CRYPTO_mem_leaks: when no block is recorded but that of the BIO it prints to, the table goes. */
  predicate Clears(h: Heap, bio: Addr) { h.entries.Keys <= {bio} }

  function LeaksOf(h: Heap, bio: Addr): Heap {
    if Clears(h, bio) then h.(entries := map[], table := false) else h
  }

  /** No node is named by the record of the BIO alone. */
  predicate ReportsSafely(h: Heap, bio: Addr) {
    !Clears(h, bio) || bio !in h.entries || h.entries[bio] == None
  }

  /** The table takes no reference along exactly when the block of the BIO, if it is the only one recorded,
      names no node: the records themselves are not released. */
  lemma {:induction false} LeaksKeepsIff(h: Heap, bio: Addr)
    requires h.Consistent()
    ensures LeaksOf(h, bio).Consistent() <==> ReportsSafely(h, bio)
    ensures h.Sound() ==> (LeaksOf(h, bio).Sound() <==> ReportsSafely(h, bio))
    ensures forall u :: LeaksOf(h, bio).Stack(u) == h.Stack(u)
  {
    var h' := LeaksOf(h, bio);
    if Clears(h, bio) {
      forall x ensures ExactAt(h'.nodes, h'.tops, h'.entries, None, x)
                       <==> (x in h.nodes ==> Namers(h.entries, x) == {}) {
        assert ExactAt(h.nodes, h.tops, h.entries, None, x);
        assert Namers(h'.entries, x) == {};
      }
      forall a ensures NameAt(h'.nodes, h'.entries, a) {
      }
      if ReportsSafely(h, bio) {
        assert forall x :: Namers(h.entries, x) == {};
      } else {
        var x := h.entries[bio].value;
        assert NameAt(h.nodes, h.entries, bio) && bio in Namers(h.entries, x);
        assert !ExactAt(h'.nodes, h'.tops, h'.entries, None, x);
      }
    }
  }

  // ---- what exact counts are for --------------------------------------------------------------

  ghost predicate OnChain(nodes: Nodes, from: Option<Id>, x: Id)
    decreases if from.Some? then from.value + 1 else 0
  {
    from.Some? && (from.value == x || OnChain(nodes, Below(nodes, from.value), x))
  }

  /** On a stack now, or on what was a stack when a block still recorded was allocated. */
  ghost predicate Reachable(h: Heap, x: Id) {
    || (exists t :: t in h.tops && OnChain(h.nodes, Some(h.tops[t]), x))
    || (exists a :: a in h.entries && OnChain(h.nodes, h.entries[a], x))
  }

  lemma {:induction false} OnChainBelow(nodes: Nodes, from: Option<Id>, m: Id)
    requires Below(nodes, m).Some? && OnChain(nodes, from, m)
    ensures OnChain(nodes, from, Below(nodes, m).value)
    decreases if from.Some? then from.value + 1 else 0
  {
    if from.value != m {
      OnChainBelow(nodes, Below(nodes, from.value), m);
    } else {
      assert OnChain(nodes, Below(nodes, m), Below(nodes, m).value);
    }
  }

  lemma {:induction false} ChainIsLive(nodes: Nodes, from: Option<Id>, x: Id)
    requires forall n {:trigger LinkAt(nodes, n)} :: LinkAt(nodes, n)
    requires from.Some? ==> from.value in nodes
    requires OnChain(nodes, from, x)
    ensures x in nodes
    decreases if from.Some? then from.value + 1 else 0
  {
    if from.value != x {
      assert LinkAt(nodes, from.value);
      ChainIsLive(nodes, Below(nodes, from.value), x);
    }
  }

  lemma {:induction false} LiveIsReachable(h: Heap, x: Id)
    requires h.Sound() && x in h.nodes
    ensures Reachable(h, x)
    decreases h.nextId - x
  {
    assert ExactAt(h.nodes, h.tops, h.entries, None, x);
    if TopCount(h.nodes, h.tops, x) > 0 {
      assert OnChain(h.nodes, Some(h.tops[h.nodes[x].thread]), x);
    } else if Namers(h.entries, x) != {} {
      var a :| a in Namers(h.entries, x);
      assert OnChain(h.nodes, h.entries[a], x);
    } else {
      assert Preds(h.nodes, x) != {};
      var m :| m in Preds(h.nodes, x);
      assert LinkAt(h.nodes, m);
      LiveIsReachable(h, m);
      if t :| t in h.tops && OnChain(h.nodes, Some(h.tops[t]), m) {
        OnChainBelow(h.nodes, Some(h.tops[t]), m);
      } else {
        var a :| a in h.entries && OnChain(h.nodes, h.entries[a], m);
        OnChainBelow(h.nodes, h.entries[a], m);
      }
    }
  }

  /** Allocated means reachable: nothing reachable has been released, and nothing else is kept. */
  lemma {:induction false} LiveIffReachable(h: Heap, x: Id)
    requires h.Sound()
    ensures x in h.nodes <==> Reachable(h, x)
  {
    if x in h.nodes {
      LiveIsReachable(h, x);
    } else if Reachable(h, x) {
      if t :| t in h.tops && OnChain(h.nodes, Some(h.tops[t]), x) {
        assert TopAt(h.nodes, h.tops, t);
        ChainIsLive(h.nodes, Some(h.tops[t]), x);
      } else {
        var a :| a in h.entries && OnChain(h.nodes, h.entries[a], x);
        assert NameAt(h.nodes, h.entries, a);
        ChainIsLive(h.nodes, h.entries[a], x);
      }
    }
  }

  // ---- whole runs -----------------------------------------------------------------------------

  datatype Op =
    | Push(t: Tid, info: string)
    | Pop(t: Tid)
    | RemoveAll(t: Tid)
    | Malloc(t: Tid, a: Addr)
    | Free(a: Addr)
    | Realloc(a1: Addr, a2: Addr)
    | Leaks(bio: Addr)

  /** The allocator hands out addresses that are not in use, a block moves only while there is a table, and
      the BIO of a report is not the only block that names a node. */
  predicate Honest(h: Heap, op: Op) {
    match op
    case Malloc(t, a) => a !in h.entries
    case Realloc(a1, a2) => h.table && (a2 == a1 || a2 !in h.entries)
    case Leaks(bio) => ReportsSafely(h, bio)
    case _ => true
  }

  function StepOf(h: Heap, op: Op): Heap {
    match op
    case Push(t, info) => PushOf(h, t, info)
    case Pop(t) => PopOf(h, t)
    case RemoveAll(t) => RemoveAllOf(h, t)
    case Malloc(t, a) => MallocOf(h, t, a)
    case Free(a) => FreeOf(h, a)
    case Realloc(a1, a2) => ReallocOf(h, a1, a2)
    case Leaks(bio) => LeaksOf(h, bio)
  }

  /** What a stack is worth to the thread: only its own pushes and pops show. */
  ghost function StackStep(s: seq<string>, t: Tid, op: Op): seq<string> {
    match op
    case Push(u, info) => if u == t then [info] + s else s
    case Pop(u) => if u == t && s != [] then s[1..] else s
    case RemoveAll(u) => if u == t then [] else s
    case _ => s
  }

  lemma {:induction false} StepKeeps(h: Heap, op: Op)
    requires h.Sound() && Honest(h, op)
    ensures StepOf(h, op).Sound()
    ensures forall t :: StepOf(h, op).Stack(t) == StackStep(h.Stack(t), t, op)
  {
    match op
    case Push(t, info) => PushKeeps(h, t, info);
    case Pop(t) => PopKeeps(h, t);
    case RemoveAll(t) => RemoveAllKeeps(h, t);
    case Malloc(t, a) => MallocKeeps(h, t, a); MallocLeaksIff(h, t, a);
    case Free(a) => FreeKeeps(h, a);
    case Realloc(a1, a2) => ReallocKeepsIff(h, a1, a2);
    case Leaks(bio) => LeaksKeepsIff(h, bio);
  }

  /** Every call of a run finds the addresses it is given honest. */
  predicate HonestRun(h: Heap, ops: seq<Op>)
    decreases |ops|
  {
    ops == [] || (Honest(h, ops[0]) && HonestRun(StepOf(h, ops[0]), ops[1..]))
  }

  function RunOf(h: Heap, ops: seq<Op>): Heap
    decreases |ops|
  {
    if ops == [] then h else RunOf(StepOf(h, ops[0]), ops[1..])
  }

  ghost function StackRun(s: seq<string>, t: Tid, ops: seq<Op>): seq<string>
    decreases |ops|
  {
    if ops == [] then s else StackRun(StackStep(s, t, ops[0]), t, ops[1..])
  }

  lemma {:induction false} RunKeeps(h: Heap, ops: seq<Op>)
    requires h.Sound() && HonestRun(h, ops)
    ensures RunOf(h, ops).Sound()
    ensures forall t :: RunOf(h, ops).Stack(t) == StackRun(h.Stack(t), t, ops)
    ensures forall x :: x in RunOf(h, ops).nodes <==> Reachable(RunOf(h, ops), x)
    decreases |ops|
  {
    if ops == [] {
      forall x ensures x in h.nodes <==> Reachable(h, x) {
        LiveIffReachable(h, x);
      }
    } else {
      StepKeeps(h, ops[0]);
      RunKeeps(StepOf(h, ops[0]), ops[1..]);
    }
  }

  /** The table was there before the run, or a block was recorded as call `i - 1`; and no report of leaks has
      cleared it since. */
  predicate TableSince(h: Heap, ops: seq<Op>, i: nat)
    requires i <= |ops|
  {
    && (if i == 0 then h.table else ops[i - 1].Malloc?)
    && forall j | i <= j < |ops| :: KeepsTable(h, ops, j)
  }

  predicate KeepsTable(h: Heap, ops: seq<Op>, j: nat)
    requires j < |ops|
  {
    ops[j].Leaks? ==> !Clears(RunOf(h, ops[..j]), ops[j].bio)
  }

  /** The table that a moving block needs is there exactly when some block was recorded, and no report of
      leaks has cleared it since. */
  lemma {:induction false} TableIff(h: Heap, ops: seq<Op>)
    ensures RunOf(h, ops).table <==> exists i | 0 <= i <= |ops| :: TableSince(h, ops, i)
    decreases |ops|
  {
    if ops == [] {
      assert TableSince(h, ops, 0) <==> h.table;
    } else {
      var h', rest := StepOf(h, ops[0]), ops[1..];
      TableIff(h', rest);
      StepTable(h, ops[0]);
      forall j | 0 <= j < |rest|
        ensures KeepsTable(h', rest, j) <==> KeepsTable(h, ops, j + 1)
      {
        assert ops[..j + 1][1..] == rest[..j];
      }
      assert KeepsTable(h, ops, 0) <==> (ops[0].Leaks? ==> !Clears(h, ops[0].bio));
      SinceStep(h, h', ops);
    }
  }

  lemma {:induction false} SinceStep(h: Heap, h': Heap, ops: seq<Op>)
    requires ops != [] && forall j | 0 <= j < |ops[1..]| :: KeepsTable(h', ops[1..], j) <==> KeepsTable(h, ops, j + 1)
    requires h'.table <==> ops[0].Malloc? || (h.table && KeepsTable(h, ops, 0))
    ensures (exists i | 0 <= i <= |ops| :: TableSince(h, ops, i))
            <==> exists i | 0 <= i <= |ops[1..]| :: TableSince(h', ops[1..], i)
  {
    var rest := ops[1..];
    forall i | 0 <= i <= |rest|
      ensures TableSince(h', rest, i) <==> TableSince(h, ops, i + 1) || (i == 0 && TableSince(h, ops, 0))
    {
      SinceShifts(h, h', ops, i);
    }
    if i :| 0 <= i <= |ops| && TableSince(h, ops, i) {
      assert TableSince(h', rest, if i == 0 then 0 else i - 1);
    }
    if i :| 0 <= i <= |rest| && TableSince(h', rest, i) {
      assert TableSince(h, ops, i + 1) || TableSince(h, ops, 0);
    }
  }

  lemma {:induction false} SinceShifts(h: Heap, h': Heap, ops: seq<Op>, i: nat)
    requires ops != [] && forall j | 0 <= j < |ops[1..]| :: KeepsTable(h', ops[1..], j) <==> KeepsTable(h, ops, j + 1)
    requires (h'.table <==> ops[0].Malloc? || (h.table && KeepsTable(h, ops, 0))) && i <= |ops[1..]|
    ensures TableSince(h', ops[1..], i) <==> TableSince(h, ops, i + 1) || (i == 0 && TableSince(h, ops, 0))
  {
    var rest := ops[1..];
    if forall j | i <= j < |rest| :: KeepsTable(h', rest, j) {
      forall j | i + 1 <= j < |ops|
        ensures KeepsTable(h, ops, j)
      {
        assert KeepsTable(h', rest, j - 1);
      }
    }
  }

  lemma {:induction false} PopTimesTable(h: Heap, t: Tid, k: nat)
    ensures PopTimes(h, t, k).table == h.table
    decreases k
  {
    if k > 0 {
      PopTimesTable(PopOf(h, t), t, k - 1);
    }
  }

  lemma {:induction false} StepTable(h: Heap, op: Op)
    ensures StepOf(h, op).table <==> op.Malloc? || (h.table && !(op.Leaks? && Clears(h, op.bio)))
  {
    if op.RemoveAll? {
      PopTimesTable(h, op.t, |h.Stack(op.t)|);
    }
  }

  // ---- the code -------------------------------------------------------------------------------

  class Tracker {
    var nodes: Nodes
    var tops: Tops
    var entries: Entries
    var nextId: Id
    var table: bool

    ghost function Abs(): Heap
      reads this
    {
      Heap(nodes, tops, entries, nextId, table)
    }

    ghost predicate Valid()
      reads this
    {
      Abs().Consistent()
    }

    constructor ()
      ensures Abs() == FRESH && Valid()
    {
      nodes, tops, entries, nextId, table := map[], map[], map[], 0, false;
    }

    /** CRYPTO_push_info_ never reports the success it should: it returns 0 whatever happens. */
    method Push(t: Tid, info: string) returns (ret: int)
      requires Valid()
      modifies this
      ensures Valid() && Abs() == PushOf(old(Abs()), t, info)
      ensures ret == 0
    {
      ghost var was := Abs();
      ret := 0;
      var ami := nextId;
      nextId := nextId + 1;
      nodes := nodes[ami := Node(t, info, None, 1)];
      var amim := if t in tops then Some(tops[t]) else None;
      tops := tops[t := ami];
      if amim.Some? {
        nodes := nodes[ami := nodes[ami].(next := amim)];
      }
      assert nodes == was.nodes[ami := Node(t, info, amim, 1)];
      assert Abs() == PushOf(was, t, info);
      PushKeeps(was, t, info);
    }

    method PopInfo(t: Tid) returns (ret: Option<Id>)
      requires Valid()
      modifies this
      ensures Valid() && Abs() == PopOf(old(Abs()), t)
      ensures ret == old(Abs()).Top(t)
    {
      ghost var was := Abs();
      PopKeeps(was, t);
      ret := None;
      if t in tops {
        var x := tops[t];
        assert TopAt(was.nodes, was.tops, t) && LinkAt(was.nodes, x);
        ret := Some(x);
        tops := tops - {t};
        var next := nodes[x].next;
        if next.Some? {
          nodes := AddRefs(nodes, next.value, 1);
          tops := tops[nodes[next.value].thread := next.value];
        }
        nodes := AddRefs(nodes, x, -1);
        CountsSettle(was.nodes, x, next);
        if nodes[x].references <= 0 {
          Unlink(x, next);
        }
        assert tops == Lowered(was.tops, t, next);
      }
    }

    /** The last reference is gone: the node gives up the one below, and is released. */
    method Unlink(x: Id, next: Option<Id>)
      requires x in nodes && (next.Some? ==> next.value in nodes)
      modifies this`nodes
      ensures nodes == Adjust(old(nodes)[x := old(nodes)[x].(next := None)], next, -1) - {x}
    {
      nodes := nodes[x := nodes[x].(next := None)];
      if next.Some? {
        nodes := AddRefs(nodes, next.value, -1);
      }
      nodes := nodes - {x};
    }

    method RemoveAll(t: Tid) returns (ret: nat)
      requires Valid()
      modifies this
      ensures Valid() && Abs() == RemoveAllOf(old(Abs()), t)
      ensures ret == |old(Abs()).Stack(t)| && Abs().Stack(t) == []
    {
      ghost var was := Abs();
      RemoveAllKeeps(was, t);
      PopKeeps(was, t);
      ret := 0;
      var popped := PopInfo(t);
      while popped.Some?
        invariant Valid()
        invariant ret + (if popped.Some? then 1 else 0) + |Abs().Stack(t)| == |was.Stack(t)|
        invariant Abs().Stack(t) != [] ==> popped.Some?
        invariant RemoveAllOf(Abs(), t) == RemoveAllOf(was, t)
        decreases |Abs().Stack(t)|, if popped.Some? then 1 else 0
      {
        ret := ret + 1;
        PopKeeps(Abs(), t);
        popped := PopInfo(t);
      }
    }

    method DbgMalloc(addr: Addr, t: Tid)
      requires Valid()
      modifies this
      ensures Valid()
      ensures Abs() == if addr == 0 then old(Abs()) else MallocOf(old(Abs()), t, addr)
    {
      ghost var was := Abs();
      if addr != 0 {
        MallocKeeps(was, t, addr);
        var info: Option<Id> := None;
        if t in tops {
          info := Some(tops[t]);
          nodes := AddRefs(nodes, tops[t], 1);
        }
        table := true;
        var mm := if addr in entries then entries[addr] else None;
        entries := entries[addr := info];
        if mm.Some? {
          nodes := AddRefs(nodes, mm.value, -1);
        }
        assert nodes == MallocOf(was, t, addr).nodes;
      }
    }

    /** `dying` are the nodes above, whose count is already zero but whose memory goes only when the
        calls below return. */
    method AppInfoFree(x: Id, ghost dying: set<Id>)
      requires dying <= nodes.Keys && x in nodes && x !in dying
      requires Linked(nodes - dying, tops, entries) && ExactBut(nodes - dying, tops, entries, Some(x))
      modifies this`nodes
      ensures nodes - dying == Released(old(nodes) - dying, x)
      ensures forall n | n in dying :: n in nodes && nodes[n] == old(nodes)[n]
      decreases x
    {
      ghost var was := nodes - dying;
      ReleasedKeeps(was, tops, entries, x);
      nodes := AddRefs(nodes, x, -1);
      if nodes[x].references <= 0 {
        LastRelease(was, tops, entries, x);
        assert nodes - (dying + {x}) == was - {x};
        if nodes[x].next.Some? {
          AppInfoFree(nodes[x].next.value, dying + {x});
        }
        assert (nodes - {x}) - dying == nodes - (dying + {x});
        nodes := nodes - {x};
      } else {
        assert nodes - dying == AddRefs(was, x, -1);
      }
    }

    method DbgFree(addr: Addr)
      requires Valid()
      modifies this
      ensures Valid()
      ensures Abs() == if addr == 0 then old(Abs()) else FreeOf(old(Abs()), addr)
    {
      ghost var was := Abs();
      if addr != 0 && table {
        FreeKeeps(was, addr);
        if addr in entries {
          var mp := entries[addr];
          entries := entries - {addr};
          if mp.Some? {
            EntryDropped(was.nodes, was.tops, was.entries, addr);
            assert nodes - {} == nodes;
            AppInfoFree(mp.value, {});
            assert nodes - {} == nodes;
          }
        }
      }
    }

    /** Fails where the code hands a null table to the hash functions: nothing was ever recorded. */
    method DbgRealloc(addr1: Addr, addr2: Addr, t: Tid) returns (ok: bool)
      requires Valid()
      modifies this
      ensures ok <==> addr1 == 0 || addr2 == 0 || old(Abs()).table
      ensures Abs() == if addr2 == 0 then old(Abs())
                       else if addr1 == 0 then MallocOf(old(Abs()), t, addr2)
                       else ReallocOf(old(Abs()), addr1, addr2)
      ensures Valid() <==> addr1 == 0 || addr2 == 0 || MovesSafely(old(Abs()), addr1, addr2)
    {
      ghost var was := Abs();
      if addr2 == 0 {
        return true;
      }
      if addr1 == 0 {
        DbgMalloc(addr2, t);
        return true;
      }
      ReallocKeepsIff(was, addr1, addr2);
      ok := table;
      if !ok {
        return;
      }
      if addr1 in entries {
        var mp := entries[addr1];
        entries := entries - {addr1};
        entries := entries[addr2 := mp];
      }
    }

    /** CRYPTO_mem_leaks, as far as it changes anything; the result is the number of blocks it reports. */
    method MemLeaks(bio: Addr) returns (chunks: nat)
      requires Valid()
      modifies this
      ensures Abs() == LeaksOf(old(Abs()), bio)
      ensures Valid() <==> ReportsSafely(old(Abs()), bio)
      ensures chunks == |old(entries).Keys - {bio}|
    {
      LeaksKeepsIff(Abs(), bio);
      chunks := |entries.Keys - {bio}|;
      if chunks == 0 {
        assert entries.Keys - {bio} == {};
        entries, table := map[], false;
      }
    }
  }
}
